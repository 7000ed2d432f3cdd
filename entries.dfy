/** The location index: normalized key -> [city, subcountry, country], in insertion order. */
module Entries {
  import opened OrderedDicts

  /** One index value, the three-element list `[city, subcountry, country]`. */
  datatype Entry = Entry(city: string, subcountry: string, country: string) {
    /** `entry[col]` for col = 0, 1, 2. */
    function Get(col: Column): string {
      match col
      case CityCol => city
      case SubcountryCol => subcountry
      case CountryCol => country
    }
  }

  datatype Column = CityCol | SubcountryCol | CountryCol

  /** `['', '', '']` */
  const Blank := Entry("", "", "")

  type Index = ODict<Entry>
}
