/** The rows the index is built from, as the tabular loader hands them over. */
module Rows {
  import opened Entries

  /** A gazetteer row: columns city, country, subcountry. */
  datatype PlaceRow = PlaceRow(city: string, country: string, subcountry: string)

  /** A nickname row: columns nickname, city, country, subcountry. */
  datatype NickRow = NickRow(nickname: string, city: string, country: string, subcountry: string)

  /** The gazetteer cell holding a city, subcountry or country name (columns 0, 2, 1). */
  function PlaceCell(r: PlaceRow, col: Column): string {
    match col
    case CityCol => r.city
    case SubcountryCol => r.subcountry
    case CountryCol => r.country
  }

  /** The nickname cell holding a city, subcountry or country name (columns 1, 3, 2). */
  function NickCell(r: NickRow, col: Column): string {
    match col
    case CityCol => r.city
    case SubcountryCol => r.subcountry
    case CountryCol => r.country
  }
}
