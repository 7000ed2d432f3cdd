/**
  The construction of the location index shared by both revisions of `create_loc_index`: the
  city, subcountry and country tables built from the gazetteer rows, their merge into one
  index, the cleanup of the ambiguity fields, and the nickname table laid over the result.
  How a raw CSV row becomes a `Place` or a `Nickname` differs between the revisions and lives
  in their own modules.
*/
module IndexBuild {
  import opened Strings
  import opened OrderedDicts
  import opened Entries

  // ---------------------------------------------------------------------------
  // Rows ready for indexing
  // ---------------------------------------------------------------------------

  /**
    One gazetteer row: the three lookup keys and the display values the tables store. The
    subcountry table stores its own copy of the subcountry name (`subcountryEntry`), which the
    older revision does not strip.
  */
  datatype Place = Place(
    cityKey: string, subcountryKey: string, countryKey: string,
    city: string, subcountry: string, subcountryEntry: string, country: string)
  {
    function Get(col: Column): string {
      match col
      case CityCol => city
      case SubcountryCol => subcountry
      case CountryCol => country
    }
  }

  /**
    A row of the nickname file (nickname, city, country, subcountry), as a `Place` whose
    `cityKey` is the nickname's key. Its `subcountryKey`, `countryKey` and `subcountryEntry`
    are unused.
  */
  function NicknameRow(key: string, city: string, country: string, subcountry: string): Place {
    Place(key, "", "", city, subcountry, "", country)
  }

  /** The three tables built from the gazetteer rows, and the nickname table. */
  datatype Table = Cities | Subcountries | Countries | Nicknames

  function KeyOf(tab: Table, p: Place): string {
    match tab
    case Cities => p.cityKey
    case Subcountries => p.subcountryKey
    case Countries => p.countryKey
    case Nicknames => p.cityKey
  }

  /** The key of every row, in row order. */
  function Keys(tab: Table, ps: seq<Place>): (r: seq<string>)
    ensures |r| == |ps|
    ensures forall i :: 0 <= i < |ps| ==> r[i] == KeyOf(tab, ps[i])
  {
    seq(|ps|, i requires 0 <= i < |ps| => KeyOf(tab, ps[i]))
  }

  lemma KeysCover(tab: Table, ps: seq<Place>)
    ensures forall p :: p in ps ==> KeyOf(tab, p) in Keys(tab, ps)
  {
    forall p | p in ps ensures KeyOf(tab, p) in Keys(tab, ps) {
      var i :| 0 <= i < |ps| && ps[i] == p;
      assert Keys(tab, ps)[i] == KeyOf(tab, p);
    }
  }

  /** `{k: ['', '', ''] for k in ks}`: every key once, in first-occurrence order, all blank. */
  function BlankTable(ks: seq<string>): (r: Index)
    ensures Valid(r)
    ensures r.keys == FirstOccurrences(ks)
    ensures forall k :: k in r.vals <==> k in ks
    ensures forall k :: k in r.vals ==> r.vals[k] == Blank
  {
    if ks == [] then Empty()
    else
      assert ks == ks[..|ks| - 1] + [ks[|ks| - 1]];
      Put(BlankTable(ks[..|ks| - 1]), ks[|ks| - 1], Blank)
  }

  /**
    `t[k]`. The row loops only look up keys their table was pre-filled with (`TableContents`),
    so the blank default is never used.
  */
  function Lookup(t: Index, k: string): Entry {
    if k in t.vals then t.vals[k] else Blank
  }

  /** What one row does to one table in the row loop. */
  function Step(tab: Table, t: Index, p: Place): (r: Index)
    ensures Valid(t) ==> Valid(r)
  {
    var e := Lookup(t, KeyOf(tab, p));
    match tab
    case Cities => Put(t, p.cityKey, Entry(p.city, e.subcountry + "?" + p.subcountry, e.country + "?" + p.country))
    case Subcountries => Put(t, p.subcountryKey, Entry("", p.subcountryEntry, e.country + "?" + p.country))
    case Countries => Put(t, p.countryKey, Entry("", "", p.country))
    case Nicknames => Put(t, p.cityKey, Entry(e.city + "?" + p.city, e.subcountry + "?" + p.subcountry, e.country + "?" + p.country))
  }

  /** The table after the row loop has visited `ps`. */
  function Fold(tab: Table, t: Index, ps: seq<Place>): (r: Index)
    ensures Valid(t) ==> Valid(r)
  {
    if ps == [] then t else Step(tab, Fold(tab, t, ps[..|ps| - 1]), ps[|ps| - 1])
  }

  lemma FoldSnoc(tab: Table, t: Index, ps: seq<Place>, i: nat)
    requires i < |ps|
    ensures Fold(tab, t, ps[..i + 1]) == Step(tab, Fold(tab, t, ps[..i]), ps[i])
  {
    assert ps[..i + 1][..i] == ps[..i];
  }

  /** A table whose keys already include every row's key keeps its keys and their order. */
  lemma {:induction false} FoldKeys(tab: Table, t: Index, ps: seq<Place>)
    requires forall j :: 0 <= j < |ps| ==> KeyOf(tab, ps[j]) in t.vals
    ensures Fold(tab, t, ps).keys == t.keys && Fold(tab, t, ps).vals.Keys == t.vals.Keys
    decreases |ps|
  {
    if ps != [] {
      FoldKeys(tab, t, ps[..|ps| - 1]);
    }
  }

  /** `city_index`, `subc_index`, `country_index` or `nickname_index` at the end of its row loop. */
  function TableOf(tab: Table, ps: seq<Place>): (r: Index)
    ensures Valid(r)
  {
    Fold(tab, BlankTable(Keys(tab, ps)), ps)
  }

  /** The body of the row loop: one row updates the three tables. */
  method IndexRow(cities: Index, subcountries: Index, countries: Index, p: Place)
    returns (cities': Index, subcountries': Index, countries': Index)
    ensures cities' == Step(Cities, cities, p)
    ensures subcountries' == Step(Subcountries, subcountries, p)
    ensures countries' == Step(Countries, countries, p)
  {
    var c := Lookup(cities, p.cityKey);
    cities' := Put(cities, p.cityKey, Entry(p.city, c.subcountry + "?" + p.subcountry, c.country + "?" + p.country));
    var s := Lookup(subcountries, p.subcountryKey);
    subcountries' := Put(subcountries, p.subcountryKey, Entry("", p.subcountryEntry, s.country + "?" + p.country));
    countries' := Put(countries, p.countryKey, Entry("", "", p.country));
  }

  /** The row loop: the three tables start blank on every key and each row updates all three. */
  method BuildTables(ps: seq<Place>) returns (cities: Index, subcountries: Index, countries: Index)
    ensures cities == TableOf(Cities, ps)
    ensures subcountries == TableOf(Subcountries, ps)
    ensures countries == TableOf(Countries, ps)
  {
    var c0, s0, n0 := BlankTable(Keys(Cities, ps)), BlankTable(Keys(Subcountries, ps)), BlankTable(Keys(Countries, ps));
    cities, subcountries, countries := c0, s0, n0;
    for i := 0 to |ps|
      invariant cities == Fold(Cities, c0, ps[..i])
      invariant subcountries == Fold(Subcountries, s0, ps[..i])
      invariant countries == Fold(Countries, n0, ps[..i])
    {
      FoldSnoc(Cities, c0, ps, i);
      FoldSnoc(Subcountries, s0, ps, i);
      FoldSnoc(Countries, n0, ps, i);
      cities, subcountries, countries := IndexRow(cities, subcountries, countries, ps[i]);
    }
    assert ps[..|ps|] == ps;
  }

  /** The nickname row loop: the table starts blank on every nickname and each row extends it. */
  method BuildNicknames(ns: seq<Place>) returns (nicknames: Index)
    ensures nicknames == TableOf(Nicknames, ns)
  {
    var t0 := BlankTable(Keys(Nicknames, ns));
    nicknames := t0;
    for i := 0 to |ns|
      invariant nicknames == Fold(Nicknames, t0, ns[..i])
    {
      FoldSnoc(Nicknames, t0, ns, i);
      var p := ns[i];
      var e := Lookup(nicknames, p.cityKey);
      nicknames := Put(nicknames, p.cityKey, Entry(e.city + "?" + p.city, e.subcountry + "?" + p.subcountry, e.country + "?" + p.country));
    }
    assert ns[..|ns|] == ns;
  }

  // ---------------------------------------------------------------------------
  // What a table holds, without the loop
  // ---------------------------------------------------------------------------

  /** The rows whose key in `tab` is `k`, in row order. */
  function RowsFor(tab: Table, ps: seq<Place>, k: string): (r: seq<Place>)
    ensures r == [] <==> forall p :: p in ps ==> KeyOf(tab, p) != k
    ensures forall p :: p in r ==> p in ps && KeyOf(tab, p) == k
  {
    if ps == [] then []
    else
      assert forall p :: p in ps <==> p in ps[..|ps| - 1] || p == ps[|ps| - 1];
      RowsFor(tab, ps[..|ps| - 1], k) + (if KeyOf(tab, ps[|ps| - 1]) == k then [ps[|ps| - 1]] else [])
  }

  /** `"?" + v` for the value in `col` of every row, concatenated. */
  function Tags(rs: seq<Place>, col: Column): string {
    if rs == [] then "" else Tags(rs[..|rs| - 1], col) + "?" + rs[|rs| - 1].Get(col)
  }

  /**
    The entry a key ends with when it started as `e0` and `rs` are its rows: the city table
    keeps the last row's city name and every row's subcountry and country, each behind a `?`;
    the subcountry table keeps the last row's name and every row's country; the country table
    keeps only the last row's country; the nickname table keeps every row's three values.
  */
  function Accumulated(tab: Table, e0: Entry, rs: seq<Place>): Entry
    requires rs != []
  {
    var last := rs[|rs| - 1];
    match tab
    case Cities => Entry(last.city, e0.subcountry + Tags(rs, SubcountryCol), e0.country + Tags(rs, CountryCol))
    case Subcountries => Entry("", last.subcountryEntry, e0.country + Tags(rs, CountryCol))
    case Countries => Entry("", "", last.country)
    case Nicknames => Entry(e0.city + Tags(rs, CityCol), e0.subcountry + Tags(rs, SubcountryCol), e0.country + Tags(rs, CountryCol))
  }

  lemma TagsSnoc(rs: seq<Place>, p: Place, col: Column)
    ensures Tags(rs + [p], col) == Tags(rs, col) + "?" + p.Get(col)
  {
    assert (rs + [p])[..|rs|] == rs;
  }

  /** Regrouping one appended tag, outside the large context of `FoldEntry`. */
  lemma AppendTag(a: string, tags: string, v: string)
    ensures a + (tags + "?" + v) == (a + tags) + "?" + v
    ensures a + ("" + "?" + v) == a + "?" + v
  {
  }

  lemma {:induction false} FoldEntry(tab: Table, t: Index, ps: seq<Place>, k: string)
    requires k in t.vals
    ensures k in Fold(tab, t, ps).vals
    ensures Fold(tab, t, ps).vals[k] ==
      if RowsFor(tab, ps, k) == [] then t.vals[k] else Accumulated(tab, t.vals[k], RowsFor(tab, ps, k))
    decreases |ps|
  {
    if ps != [] {
      var q, p := ps[..|ps| - 1], ps[|ps| - 1];
      FoldEntry(tab, t, q, k);
      var prev := Fold(tab, t, q);
      assert Fold(tab, t, ps) == Step(tab, prev, p);
      var rq := RowsFor(tab, q, k);
      if KeyOf(tab, p) == k {
        var e0 := t.vals[k];
        var e := prev.vals[k];
        assert RowsFor(tab, ps, k) == rq + [p];
        TagsSnoc(rq, p, CityCol);
        TagsSnoc(rq, p, SubcountryCol);
        TagsSnoc(rq, p, CountryCol);
        assert rq != [] ==> e == Accumulated(tab, e0, rq);
        assert rq == [] ==> e == e0;
        var cit := if rq == [] then e0.city else e0.city + Tags(rq, CityCol);
        var sub := if rq == [] then e0.subcountry else e0.subcountry + Tags(rq, SubcountryCol);
        var cty := if rq == [] then e0.country else e0.country + Tags(rq, CountryCol);
        AppendTag(e0.city, Tags(rq, CityCol), p.city);
        AppendTag(e0.subcountry, Tags(rq, SubcountryCol), p.subcountry);
        AppendTag(e0.country, Tags(rq, CountryCol), p.country);
        match tab {
          case Cities =>
            assert Step(tab, prev, p).vals[k] == Entry(p.city, sub + "?" + p.subcountry, cty + "?" + p.country);
          case Subcountries =>
            assert Step(tab, prev, p).vals[k] == Entry("", p.subcountryEntry, cty + "?" + p.country);
          case Countries =>
          case Nicknames =>
            assert Step(tab, prev, p).vals[k] == Entry(cit + "?" + p.city, sub + "?" + p.subcountry, cty + "?" + p.country);
        }
      } else {
        assert RowsFor(tab, ps, k) == rq;
        assert Step(tab, prev, p).vals[k] == prev.vals[k];
      }
    }
  }

  /**
    The tables hold every key of the rows once, in the order of first occurrence, and each key
    holds what its rows accumulate from a blank entry.
  */
  lemma TableContents(tab: Table, ps: seq<Place>, k: string)
    ensures TableOf(tab, ps).keys == FirstOccurrences(Keys(tab, ps))
    ensures k in TableOf(tab, ps).vals <==> RowsFor(tab, ps, k) != []
    ensures k in TableOf(tab, ps).vals ==> TableOf(tab, ps).vals[k] == Accumulated(tab, Blank, RowsFor(tab, ps, k))
  {
    var blank := BlankTable(Keys(tab, ps));
    assert TableOf(tab, ps).keys == blank.keys && TableOf(tab, ps).vals.Keys == blank.vals.Keys by {
      assert forall j :: 0 <= j < |ps| ==> KeyOf(tab, ps[j]) in blank.vals by {
        forall j | 0 <= j < |ps| ensures KeyOf(tab, ps[j]) in blank.vals {
          assert Keys(tab, ps)[j] == KeyOf(tab, ps[j]);
        }
      }
      FoldKeys(tab, blank, ps);
    }
    assert k in blank.vals <==> RowsFor(tab, ps, k) != [] by {
      KeysCover(tab, ps);
      if k in Keys(tab, ps) {
        var i :| 0 <= i < |ps| && Keys(tab, ps)[i] == k;
        assert ps[i] in ps;
      }
    }
    if k in TableOf(tab, ps).vals {
      FoldEntry(tab, blank, ps, k);
    }
  }

  // ---------------------------------------------------------------------------
  // Merging the tables into one index
  // ---------------------------------------------------------------------------

  /** A city entry with the subcountry entry of the same key appended to its ambiguity fields. */
  function Joined(e: Entry, s: Entry): Entry {
    Entry(e.city, e.subcountry + "?" + s.subcountry, e.country + "?" + s.country)
  }

  /** `loc_index` after the loop over `subc_city_matches` has visited the subcountry keys `ks`. */
  function Attach(loc: Index, cities: Index, subcountries: Index, ks: seq<string>): (r: Index)
    ensures Valid(loc) ==> Valid(r)
  {
    if ks == [] then loc
    else
      var r := Attach(loc, cities, subcountries, ks[..|ks| - 1]);
      var k := ks[|ks| - 1];
      if k in cities.vals then Put(r, k, Joined(Lookup(r, k), Lookup(subcountries, k))) else r
  }

  /**
    `loc_index` after the subcountry table is merged in: a copy of the city table whose keys
    shared with the subcountry table get that entry appended, then the other subcountry keys.
  */
  function WithSubcountries(cities: Index, subcountries: Index): (r: Index)
    ensures Valid(cities) && Valid(subcountries) ==> Valid(r)
  {
    var loc := Attach(Update(Empty(), cities), cities, subcountries, subcountries.keys);
    Update(loc, Where(subcountries, k => k !in cities.vals))
  }

  /** `loc_index` once the country table is laid over it, before the empty key is dropped. */
  function MergeOf(cities: Index, subcountries: Index, countries: Index): (r: Index)
    ensures Valid(cities) && Valid(subcountries) && Valid(countries) ==> Valid(r)
  {
    Update(WithSubcountries(cities, subcountries), countries)
  }

  method Merge(cities: Index, subcountries: Index, countries: Index) returns (loc: Index)
    ensures loc == MergeOf(cities, subcountries, countries)
  {
    loc := Update(Empty(), cities);
    ghost var loc0 := loc;
    var ks := subcountries.keys;
    for i := 0 to |ks|
      invariant loc == Attach(loc0, cities, subcountries, ks[..i])
    {
      assert ks[..i + 1][..i] == ks[..i];
      var k := ks[i];
      if k in cities.vals {
        var e, s := Lookup(loc, k), Lookup(subcountries, k);
        loc := Put(loc, k, Entry(e.city, e.subcountry + "?" + s.subcountry, e.country + "?" + s.country));
      }
    }
    assert ks[..|ks|] == ks;
    loc := Update(loc, Where(subcountries, k => k !in cities.vals));
    loc := Update(loc, countries);
  }

  lemma {:induction false} AttachKeys(loc: Index, cities: Index, subcountries: Index, ks: seq<string>)
    requires cities.vals.Keys <= loc.vals.Keys
    ensures Attach(loc, cities, subcountries, ks).keys == loc.keys
    ensures Attach(loc, cities, subcountries, ks).vals.Keys == loc.vals.Keys
    decreases |ks|
  {
    if ks != [] {
      AttachKeys(loc, cities, subcountries, ks[..|ks| - 1]);
    }
  }

  /** A key of the copy gets the subcountry entry appended exactly when it is a city key in `ks`. */
  lemma {:induction false} AttachEntry(loc: Index, cities: Index, subcountries: Index, ks: seq<string>, k: string)
    requires NoDuplicates(ks) && k in loc.vals
    ensures k in Attach(loc, cities, subcountries, ks).vals
    ensures Attach(loc, cities, subcountries, ks).vals[k] ==
      if k in ks && k in cities.vals then Joined(loc.vals[k], Lookup(subcountries, k)) else loc.vals[k]
    decreases |ks|
  {
    if ks != [] {
      var q := ks[..|ks| - 1];
      assert NoDuplicates(q);
      AttachEntry(loc, cities, subcountries, q, k);
      assert forall x :: x in ks <==> x in q || x == ks[|ks| - 1];
      assert ks[|ks| - 1] !in q;
    }
  }

  /**
    The merged index has the city keys in their order, then the subcountry keys that are not
    city keys, then the country keys that are neither (`MergeEntry` says which keys are in it).
  */
  lemma MergeKeys(cities: Index, subcountries: Index, countries: Index)
    ensures MergeOf(cities, subcountries, countries).keys ==
      cities.keys + NewKeys(subcountries.keys, cities.vals) + NewKeys(countries.keys, cities.vals + subcountries.vals)
  {
    var loc' := WithSubcountries(cities, subcountries);
    SubcountryKeys(cities, subcountries);
    NewKeysSameKeys(countries.keys, loc'.vals, cities.vals + subcountries.vals);
  }

  lemma SubcountryKeys(cities: Index, subcountries: Index)
    ensures WithSubcountries(cities, subcountries).keys == cities.keys + NewKeys(subcountries.keys, cities.vals)
    ensures WithSubcountries(cities, subcountries).vals.Keys == (cities.vals + subcountries.vals).Keys
  {
    var loc := Attach(Update(Empty(), cities), cities, subcountries, subcountries.keys);
    assert loc.keys == cities.keys && loc.vals.Keys == cities.vals.Keys by {
      UpdateEmpty(cities);
      AttachKeys(cities, cities, subcountries, subcountries.keys);
    }
    var w := Where(subcountries, k => k !in cities.vals);
    NewKeysFiltered(subcountries.keys, k => k !in cities.vals, cities.vals);
    NewKeysSameKeys(w.keys, loc.vals, cities.vals);
  }

  /**
    In the merged index a country key holds its country entry; any other city key holds its
    city entry, with the subcountry entry appended when the key is a subcountry key too; the
    remaining subcountry keys hold their subcountry entry.
  */
  lemma MergeEntry(cities: Index, subcountries: Index, countries: Index, k: string)
    requires Valid(subcountries)
    ensures k in MergeOf(cities, subcountries, countries).vals <==>
      k in cities.vals || k in subcountries.vals || k in countries.vals
    ensures k in countries.vals ==> MergeOf(cities, subcountries, countries).vals[k] == countries.vals[k]
    ensures k !in countries.vals && k in cities.vals ==>
      MergeOf(cities, subcountries, countries).vals[k] ==
        if k in subcountries.vals then Joined(cities.vals[k], subcountries.vals[k]) else cities.vals[k]
    ensures k !in countries.vals && k !in cities.vals && k in subcountries.vals ==>
      MergeOf(cities, subcountries, countries).vals[k] == subcountries.vals[k]
  {
    var loc := Attach(Update(Empty(), cities), cities, subcountries, subcountries.keys);
    assert loc.vals.Keys == cities.vals.Keys by {
      UpdateEmpty(cities);
      AttachKeys(cities, cities, subcountries, subcountries.keys);
    }
    var w := Where(subcountries, k => k !in cities.vals);
    assert WithSubcountries(cities, subcountries).vals == loc.vals + w.vals;
    if k !in countries.vals && k in cities.vals {
      assert k !in w.vals;
      UpdateEmpty(cities);
      AttachEntry(cities, cities, subcountries, subcountries.keys, k);
    }
  }

  /** No row has the key exactly when no position holds a row with it. */
  lemma RowsForNone(tab: Table, ps: seq<Place>, k: string)
    ensures RowsFor(tab, ps, k) == [] <==> forall n :: 0 <= n < |ps| ==> KeyOf(tab, ps[n]) != k
  {
    assert forall n :: 0 <= n < |ps| ==> ps[n] in ps;
  }

  /** `loc_index` built from the rows `ps`, after the country update and before `del`. */
  function MergedIndex(ps: seq<Place>): (r: Index)
    ensures Valid(r)
  {
    MergeOf(TableOf(Cities, ps), TableOf(Subcountries, ps), TableOf(Countries, ps))
  }

  /** A table has a key exactly when some position holds a row with that key. */
  lemma TableHas(tab: Table, ps: seq<Place>, k: string)
    ensures k in TableOf(tab, ps).vals <==> exists n :: 0 <= n < |ps| && KeyOf(tab, ps[n]) == k
  {
    TableContents(tab, ps, k);
    RowsForNone(tab, ps, k);
  }

  /** The same, for each of the three gazetteer tables by its own key field. */
  lemma GazetteerTablesHave(ps: seq<Place>, k: string)
    ensures k in TableOf(Cities, ps).vals <==> exists n :: 0 <= n < |ps| && ps[n].cityKey == k
    ensures k in TableOf(Subcountries, ps).vals <==> exists n :: 0 <= n < |ps| && ps[n].subcountryKey == k
    ensures k in TableOf(Countries, ps).vals <==> exists n :: 0 <= n < |ps| && ps[n].countryKey == k
  {
    TableHas(Cities, ps, k);
    TableHas(Subcountries, ps, k);
    TableHas(Countries, ps, k);
  }

  /** A key is in the merged index exactly when some row has it as a city, subcountry or country key. */
  lemma MergedMembership(ps: seq<Place>, k: string)
    ensures k !in MergedIndex(ps).vals <==>
              && (forall n :: 0 <= n < |ps| ==> ps[n].cityKey != k)
              && (forall n :: 0 <= n < |ps| ==> ps[n].subcountryKey != k)
              && (forall n :: 0 <= n < |ps| ==> ps[n].countryKey != k)
  {
    GazetteerTablesHave(ps, k);
    MergeEntry(TableOf(Cities, ps), TableOf(Subcountries, ps), TableOf(Countries, ps), k);
  }

  /**
    A key that only cities have: its merged entry is the city table's, with the last such row's
    city name and every such row's subcountry and country behind a `?`.
  */
  lemma MergedCityOnly(ps: seq<Place>, k: string)
    requires RowsFor(Cities, ps, k) != []
    requires forall n :: 0 <= n < |ps| ==> ps[n].subcountryKey != k && ps[n].countryKey != k
    ensures k in MergedIndex(ps).vals
    ensures MergedIndex(ps).vals[k] == Accumulated(Cities, Blank, RowsFor(Cities, ps, k))
  {
    var c, s, n := TableOf(Cities, ps), TableOf(Subcountries, ps), TableOf(Countries, ps);
    assert k in c.vals && c.vals[k] == Accumulated(Cities, Blank, RowsFor(Cities, ps, k)) by {
      TableContents(Cities, ps, k);
    }
    assert k !in s.vals && k !in n.vals by {
      GazetteerTablesHave(ps, k);
    }
    MergeEntry(c, s, n, k);
  }

  /** The same, by position: the entry's city name is that of some row with the key. */
  lemma MergedCityLast(ps: seq<Place>, k: string, j: nat) returns (m: nat)
    requires j < |ps| && ps[j].cityKey == k
    requires forall n :: 0 <= n < |ps| ==> ps[n].subcountryKey != k && ps[n].countryKey != k
    ensures m < |ps| && ps[m].cityKey == k
    ensures k in MergedIndex(ps).vals && MergedIndex(ps).vals[k].city == ps[m].city
  {
    var rs := RowsFor(Cities, ps, k);
    assert rs != [] by {
      assert ps[j] in ps && KeyOf(Cities, ps[j]) == k;
    }
    MergedCityOnly(ps, k);
    var last := rs[|rs| - 1];
    assert last in ps && last.cityKey == k by {
      assert last in rs;
    }
    assert MergedIndex(ps).vals[k].city == last.city;
    m :| 0 <= m < |ps| && ps[m] == last;
  }

  // ---------------------------------------------------------------------------
  // Cleaning the ambiguity fields
  // ---------------------------------------------------------------------------

  /**
    With an empty piece among the `?`-pieces of a field, the empty piece sorts first, so the
    `?`-join of the sorted distinct pieces is the canonical field behind one `?`, or empty.
  */
  lemma JoinWithEmptyPiece(f: string)
    requires "" in Split(f, '?')
    ensures Canonical(f) == "" ==> Join(SortedSet(Split(f, '?')), '?') == ""
    ensures Canonical(f) != "" ==> Join(SortedSet(Split(f, '?')), '?') == "?" + Canonical(f)
  {
    var sorted := SortedSet(NonEmpty(Split(f, '?')));
    EmptyPieceFirst(Split(f, '?'));
    if sorted != [] {
      JoinAfterEmpty(sorted);
    }
  }

  /** The empty string sorts before every other piece. */
  lemma EmptyPieceFirst(pieces: seq<string>)
    requires "" in pieces
    ensures SortedSet(pieces) == [""] + SortedSet(NonEmpty(pieces))
  {
    var sorted := SortedSet(NonEmpty(pieces));
    assert forall y :: y in sorted ==> Less("", y);
    PrependSmallest("", sorted);
    SortedUnique(SortedSet(pieces), [""] + sorted);
  }

  /** Joining behind an empty first part puts one separator in front. */
  lemma JoinAfterEmpty(parts: seq<string>)
    requires parts != []
    ensures Join([""] + parts, '?') == "?" + Join(parts, '?')
  {
    assert ([""] + parts)[1..] == parts;
  }

  /**
    Without an empty piece, the `?`-join of the sorted distinct pieces is already the canonical
    field, and it does not start with `?`.
  */
  lemma JoinWithoutEmptyPiece(f: string)
    requires "" !in Split(f, '?')
    ensures Join(SortedSet(Split(f, '?')), '?') == Canonical(f)
    ensures Canonical(f) != "" && Canonical(f)[0] != '?'
  {
    var pieces := Split(f, '?');
    var sorted := SortedSet(NonEmpty(pieces));
    SortedUnique(SortedSet(pieces), sorted);
    assert pieces[0] in pieces;
    assert sorted != [] && sorted[0] in pieces;
    SplitPiecesFree(f, '?');
    JoinStart(sorted);
  }

  /** A join starts with its first part. */
  lemma JoinStart(parts: seq<string>)
    requires parts != [] && parts[0] != ""
    ensures Join(parts, '?') != "" && Join(parts, '?')[0] == parts[0][0]
  {
  }

  /** A field without `?` is its own canonical form. */
  lemma CanonicalPlain(f: string)
    requires '?' !in f
    ensures Canonical(f) == f
  {
    SplitNoSep(f, '?');
    if f != "" {
      assert NonEmpty([f]) == [f];
      assert SortedSet([f]) == [f];
    }
  }

  /**
    One field of a cleanup loop: a field holding `?` is replaced by the `?`-join of its sorted
    distinct pieces, then one leading `?` is dropped from a field longer than one character
    (nickname table) or than none (gazetteer index). Either way the result is the canonical
    form: the distinct non-empty values, sorted, joined by `?`.
  */
  method TidyField(f: string, nickname: bool) returns (g: string)
    ensures g == Canonical(f)
  {
    g := f;
    if '?' in g {
      g := Join(SortedSet(Split(g, '?')), '?');
    }
    var minLen := if nickname then 1 else 0;
    if |g| > minLen && g[0] == '?' {
      g := g[1..];
    }
    if '?' !in f {
      CanonicalPlain(f);
    } else if "" in Split(f, '?') {
      JoinWithEmptyPiece(f);
    } else {
      JoinWithoutEmptyPiece(f);
    }
  }

  /**
    An entry after a cleanup loop: the ambiguity fields canonical, and for the nickname table
    the city field as well.
  */
  function Tidied(e: Entry, nickname: bool): Entry {
    Entry(if nickname then Canonical(e.city) else e.city, Canonical(e.subcountry), Canonical(e.country))
  }

  /** The table after its cleanup loop: every entry tidied, keys and order unchanged. */
  function CleanedOf(d: Index, nickname: bool): (r: Index)
    ensures r.keys == d.keys && r.vals.Keys == d.vals.Keys
    ensures forall k :: k in d.vals ==> r.vals[k] == Tidied(d.vals[k], nickname)
    ensures Valid(d) ==> Valid(r)
  {
    ODict(d.keys, map k | k in d.vals :: Tidied(d.vals[k], nickname))
  }

  /** The body of a cleanup loop for one entry (the nickname table's inner loop unrolled). */
  method TidyEntry(e: Entry, nickname: bool) returns (t: Entry)
    ensures t == Tidied(e, nickname)
  {
    var city := e.city;
    if nickname {
      city := TidyField(city, true);
    }
    var subcountry := TidyField(e.subcountry, nickname);
    var country := TidyField(e.country, nickname);
    t := Entry(city, subcountry, country);
  }

  /**
    The cleanup loop over every key of the gazetteer index (the ambiguity fields) or of the
    nickname table (all three fields).
  */
  method CleanUp(d: Index, nickname: bool) returns (r: Index)
    requires Valid(d)
    ensures r == CleanedOf(d, nickname)
  {
    r := d;
    for i := 0 to |d.keys|
      invariant r.keys == d.keys && r.vals.Keys == d.vals.Keys
      invariant forall j :: 0 <= j < |d.keys| ==>
                  r.vals[d.keys[j]] == if j < i then Tidied(d.vals[d.keys[j]], nickname) else d.vals[d.keys[j]]
    {
      var k := d.keys[i];
      var e := TidyEntry(r.vals[k], nickname);
      assert forall j :: 0 <= j < |d.keys| && j != i ==> d.keys[j] != k;
      r := Put(r, k, e);
    }
    CleanedEverywhere(d, r, nickname);
  }

  /** A table whose entries are all tidied, key by key, is the cleaned table. */
  lemma CleanedEverywhere(d: Index, r: Index, nickname: bool)
    requires Valid(d)
    requires r.keys == d.keys && r.vals.Keys == d.vals.Keys
    requires forall j :: 0 <= j < |d.keys| ==> r.vals[d.keys[j]] == Tidied(d.vals[d.keys[j]], nickname)
    ensures r == CleanedOf(d, nickname)
  {
    forall k | k in d.vals ensures r.vals[k] == Tidied(d.vals[k], nickname) {
      var j :| 0 <= j < |d.keys| && d.keys[j] == k;
    }
  }
}
