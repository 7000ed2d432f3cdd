/**
  The current revision of geostring: row cleaning and filtering, `create_loc_index` with its
  optional subsets, `get_geo_info` with the exact mode, the records `Geostring(...)` builds,
  `resolve`, and the shared default index that `subset_locations` and `restore_locations`
  rebind.
*/
module Geostring {
  import opened Wrappers
  import opened Strings
  import opened OrderedDicts
  import opened Entries
  import opened Rows
  import opened Normalizer
  import opened Tokenizer
  import opened Matching
  import opened Resolution
  import opened IndexBuild

  // ---------------------------------------------------------------------------
  // Rows: cleaning and filtering
  // ---------------------------------------------------------------------------

  /** `unidecode(j).lower().strip()` on every cell of a gazetteer row. */
  function CleanPlaceRow(ext: Externals, r: PlaceRow): PlaceRow {
    PlaceRow(Clean(ext, r.city), Clean(ext, r.country), Clean(ext, r.subcountry))
  }

  /** `unidecode(j).lower().strip()` on every cell of a nickname row. */
  function CleanNickRow(ext: Externals, r: NickRow): NickRow {
    NickRow(Clean(ext, r.nickname), Clean(ext, r.city), Clean(ext, r.country), Clean(ext, r.subcountry))
  }

  /** Every row cleaned, in place and in order. */
  function CleanedRows<R>(ext: Externals, rows: seq<R>, clean: (Externals, R) -> R): (r: seq<R>)
    ensures |r| == |rows| && forall i :: 0 <= i < |rows| ==> r[i] == clean(ext, rows[i])
  {
    seq(|rows|, i requires 0 <= i < |rows| => clean(ext, rows[i]))
  }

  /** The loop that cleans the loaded rows cell by cell (the inner loop over cells is `clean`). */
  method CleanRows<R>(ext: Externals, rows: seq<R>, clean: (Externals, R) -> R) returns (r: seq<R>)
    ensures r == CleanedRows(ext, rows, clean)
  {
    r := rows;
    for n := 0 to |rows|
      invariant |r| == |rows|
      invariant forall i :: 0 <= i < n ==> r[i] == clean(ext, rows[i])
      invariant forall i :: n <= i < |rows| ==> r[i] == rows[i]
    {
      r := r[n := clean(ext, r[n])];
    }
  }

  /** `get_places(wd, colnum, level)` on a row list: the rows whose cell equals some level name. */
  function GetPlaces<R(!new)>(rows: seq<R>, cell: (R, Column) -> string, col: Column, level: seq<string>): (r: seq<R>)
    ensures forall x :: x in r <==> x in rows && cell(x, col) in level
    ensures |r| <= |rows|
  {
    if rows == [] then []
    else
      var n := |rows| - 1;
      assert forall x :: x in rows <==> x in rows[..n] || x == rows[n];
      GetPlaces(rows[..n], cell, col, level) + (if cell(rows[n], col) in level then [rows[n]] else [])
  }

  /** Filtering works piece by piece, so the kept rows stay in input order with their repeats. */
  lemma {:induction false} GetPlacesAppend<R(!new)>(a: seq<R>, b: seq<R>, cell: (R, Column) -> string, col: Column, level: seq<string>)
    ensures GetPlaces(a + b, cell, col, level) == GetPlaces(a, cell, col, level) + GetPlaces(b, cell, col, level)
    decreases |b|
  {
    if b == [] {
      assert a + b == a;
    } else {
      var n := |b| - 1;
      var ab := a + b;
      var last := if cell(b[n], col) in level then [b[n]] else [];
      var pa, pb := GetPlaces(a, cell, col, level), GetPlaces(b[..n], cell, col, level);
      assert ab[..|ab| - 1] == a + b[..n] && ab[|ab| - 1] == b[n];
      GetPlacesLast(ab, cell, col, level);
      GetPlacesLast(b, cell, col, level);
      GetPlacesAppend(a, b[..n], cell, col, level);
      assert GetPlaces(ab, cell, col, level) == (pa + pb) + last;
      assert GetPlaces(b, cell, col, level) == pb + last;
      ConcatAssoc(pa, pb, last);
    }
  }

  /** The last row is kept or dropped after the others are filtered. */
  lemma GetPlacesLast<R(!new)>(rows: seq<R>, cell: (R, Column) -> string, col: Column, level: seq<string>)
    requires rows != []
    ensures GetPlaces(rows, cell, col, level) ==
              GetPlaces(rows[..|rows| - 1], cell, col, level)
              + (if cell(rows[|rows| - 1], col) in level then [rows[|rows| - 1]] else [])
  {
  }

  /** Regrouping a concatenation, outside the context of `GetPlacesAppend`. */
  lemma ConcatAssoc<R>(x: seq<R>, y: seq<R>, z: seq<R>)
    ensures x + (y + z) == (x + y) + z
  {
  }

  /** A row is kept as often as it occurs when its cell names the level, and otherwise never. */
  lemma {:induction false} GetPlacesCount<R(!new)>(rows: seq<R>, cell: (R, Column) -> string, col: Column, level: seq<string>, x: R)
    ensures multiset(GetPlaces(rows, cell, col, level))[x] == if cell(x, col) in level then multiset(rows)[x] else 0
    decreases |rows|
  {
    if rows != [] {
      var n := |rows| - 1;
      assert rows == rows[..n] + [rows[n]];
      GetPlacesCount(rows[..n], cell, col, level, x);
    }
  }

  /** The three optional filter lists; `Some` where the caller passed a list. */
  datatype Filters = Filters(cities: Option<seq<string>>, subcountries: Option<seq<string>>, countries: Option<seq<string>>)

  const NoFilters := Filters(None, None, None)

  /** The rows a filter list picks, none when the list was not given. */
  function Picked<R(!new)>(rows: seq<R>, cell: (R, Column) -> string, col: Column, level: Option<seq<string>>): seq<R> {
    if level.Some? then GetPlaces(rows, cell, col, level.value) else []
  }

  /** A row some given filter list names, by the column that list is about. */
  predicate Selects<R>(f: Filters, cell: (R, Column) -> string, x: R) {
    || (f.countries.Some? && cell(x, CountryCol) in f.countries.value)
    || (f.subcountries.Some? && cell(x, SubcountryCol) in f.subcountries.value)
    || (f.cities.Some? && cell(x, CityCol) in f.cities.value)
  }

  /**
    The rows picked by the country list, then by the subcountry list, then by the city list
    (a row picked twice appears twice); all rows when that picks none.
  */
  function FilterRows<R(!new)>(rows: seq<R>, cell: (R, Column) -> string, f: Filters): (r: seq<R>)
    ensures (forall x :: x in rows ==> !Selects(f, cell, x)) ==> r == rows
    ensures !(forall x :: x in rows ==> !Selects(f, cell, x)) ==>
              && (forall x :: x in r <==> x in rows && Selects(f, cell, x))
              && r == Picked(rows, cell, CountryCol, f.countries)
                    + Picked(rows, cell, SubcountryCol, f.subcountries)
                    + Picked(rows, cell, CityCol, f.cities)
  {
    var picked := Picked(rows, cell, CountryCol, f.countries)
                + Picked(rows, cell, SubcountryCol, f.subcountries)
                + Picked(rows, cell, CityCol, f.cities);
    assert forall x :: x in picked <==> x in rows && Selects(f, cell, x);
    assert |picked| > 0 ==> picked[0] in picked;
    if |picked| == 0 then rows else picked
  }

  /** How many of the given filter lists name the row, each by its own column. */
  function Hits<R>(f: Filters, cell: (R, Column) -> string, x: R): (h: nat)
    ensures h <= 3
    ensures h > 0 <==> Selects(f, cell, x)
  {
    (if f.countries.Some? && cell(x, CountryCol) in f.countries.value then 1 else 0)
    + (if f.subcountries.Some? && cell(x, SubcountryCol) in f.subcountries.value then 1 else 0)
    + (if f.cities.Some? && cell(x, CityCol) in f.cities.value then 1 else 0)
  }

  /**
    Unless nothing is picked, a row occurs in the filtered rows once per list that names it for
    each time it occurs in the input: a row named by its country and by its city comes twice.
  */
  lemma FilterRowsCount<R(!new)>(rows: seq<R>, cell: (R, Column) -> string, f: Filters, x: R)
    requires exists y :: y in rows && Selects(f, cell, y)
    ensures multiset(FilterRows(rows, cell, f))[x] == multiset(rows)[x] * Hits(f, cell, x)
  {
    var a := Picked(rows, cell, CountryCol, f.countries);
    var b := Picked(rows, cell, SubcountryCol, f.subcountries);
    var d := Picked(rows, cell, CityCol, f.cities);
    assert FilterRows(rows, cell, f) == a + b + d;
    var m := multiset(rows)[x];
    var hc := f.countries.Some? && cell(x, CountryCol) in f.countries.value;
    var hs := f.subcountries.Some? && cell(x, SubcountryCol) in f.subcountries.value;
    var hy := f.cities.Some? && cell(x, CityCol) in f.cities.value;
    assert multiset(a)[x] == if hc then m else 0 by {
      if f.countries.Some? { GetPlacesCount(rows, cell, CountryCol, f.countries.value, x); }
    }
    assert multiset(b)[x] == if hs then m else 0 by {
      if f.subcountries.Some? { GetPlacesCount(rows, cell, SubcountryCol, f.subcountries.value, x); }
    }
    assert multiset(d)[x] == if hy then m else 0 by {
      if f.cities.Some? { GetPlacesCount(rows, cell, CityCol, f.cities.value, x); }
    }
    assert multiset(a + b + d)[x] == multiset(a)[x] + multiset(b)[x] + multiset(d)[x];
    ScaleHits(m, hc, hs, hy);
  }

  lemma ScaleHits(m: nat, p: bool, q: bool, s: bool)
    ensures m * ((if p then 1 else 0) + (if q then 1 else 0) + (if s then 1 else 0)) ==
              (if p then m else 0) + (if q then m else 0) + (if s then m else 0)
  {
  }

  /** A filter that names nothing, or no filter at all, keeps every row. */
  lemma FilterNothing<R(!new)>(rows: seq<R>, cell: (R, Column) -> string)
    ensures FilterRows(rows, cell, NoFilters) == rows
  {
  }

  // ---------------------------------------------------------------------------
  // `create_loc_index`
  // ---------------------------------------------------------------------------

  /** A cleaned gazetteer row as the table loop reads it: keys are the letters of each name. */
  function PlaceOf(r: PlaceRow): Place {
    Place(KeepLetters(r.city), KeepLetters(r.subcountry), KeepLetters(r.country), r.city, r.subcountry, r.subcountry, r.country)
  }

  /** A cleaned nickname row as the nickname loop reads it. */
  function NickPlaceOf(r: NickRow): Place {
    NicknameRow(KeepLetters(r.nickname), r.city, r.country, r.subcountry)
  }

  function PlacesOf(rows: seq<PlaceRow>): seq<Place> {
    seq(|rows|, i requires 0 <= i < |rows| => PlaceOf(rows[i]))
  }

  function NickPlacesOf(rows: seq<NickRow>): seq<Place> {
    seq(|rows|, i requires 0 <= i < |rows| => NickPlaceOf(rows[i]))
  }

  /** The gazetteer rows the tables are built from: cleaned, then filtered. */
  function GazetteerPlaces(ext: Externals, world: seq<PlaceRow>, f: Filters): seq<Place> {
    PlacesOf(FilterRows(CleanedRows(ext, world, CleanPlaceRow), PlaceCell, f))
  }

  /** `loc_index` after `del loc_index['']` (when present) and the cleanup loop. */
  function GazetteerIndexOf(ext: Externals, world: seq<PlaceRow>, f: Filters): (r: Index)
    ensures Valid(r)
  {
    var merged := MergedIndex(GazetteerPlaces(ext, world, f));
    CleanedOf(if "" in merged.vals then Remove(merged, "") else merged, false)
  }

  /** The nickname table after its cleanup loop. */
  function NicknameIndexOf(ext: Externals, nicks: seq<NickRow>, f: Filters): (r: Index)
    ensures Valid(r)
  {
    var ns := NickPlacesOf(FilterRows(CleanedRows(ext, nicks, CleanNickRow), NickCell, f));
    CleanedOf(TableOf(Nicknames, ns), true)
  }

  /**
    `create_loc_index` with the default patterns; `nicks` is `None` when `world_nick_fn` is
    empty, which leaves the nickname table unbound at the final update.
  */
  function LocIndexOf(ext: Externals, world: seq<PlaceRow>, nicks: Option<seq<NickRow>>, f: Filters): (r: Result<Index>)
    ensures r.Err? <==> nicks.None?
    ensures r.Err? ==> r.error == UnboundLocalError
    ensures r.Ok? ==> Valid(r.value)
  {
    if nicks.None? then Err(UnboundLocalError)
    else Ok(Update(GazetteerIndexOf(ext, world, f), NicknameIndexOf(ext, nicks.value, f)))
  }

  method CreateLocIndex(ext: Externals, world: seq<PlaceRow>, nicks: Option<seq<NickRow>>, f: Filters)
    returns (r: Result<Index>)
    ensures r == LocIndexOf(ext, world, nicks, f)
  {
    var rows := CleanRows(ext, world, CleanPlaceRow);
    var data := FilterRows(rows, PlaceCell, f);
    var cities, subcountries, countries := BuildTables(PlacesOf(data));
    var loc := Merge(cities, subcountries, countries);
    if "" in loc.vals {
      loc := Remove(loc, "");
    }
    loc := CleanUp(loc, false);
    if nicks.None? {
      return Err(UnboundLocalError);
    }
    var nickRows := CleanRows(ext, nicks.value, CleanNickRow);
    var nickData := FilterRows(nickRows, NickCell, f);
    var nicknames := BuildNicknames(NickPlacesOf(nickData));
    nicknames := CleanUp(nicknames, true);
    r := Ok(Update(loc, nicknames));
  }

  /**
    The finished index lists the gazetteer keys first and then the nicknames it lacks; a
    nickname entry replaces a gazetteer entry with the same key, and every other gazetteer
    entry is kept.
  */
  lemma LocIndexOverlay(ext: Externals, world: seq<PlaceRow>, nicks: seq<NickRow>, f: Filters, k: string)
    ensures var loc := LocIndexOf(ext, world, Some(nicks), f).value;
            var g := GazetteerIndexOf(ext, world, f);
            var n := NicknameIndexOf(ext, nicks, f);
            && loc.keys == g.keys + NewKeys(n.keys, g.vals)
            && (k in loc.vals <==> k in g.vals || k in n.vals)
            && (k in n.vals ==> loc.vals[k] == n.vals[k])
            && (k !in n.vals && k in g.vals ==> loc.vals[k] == g.vals[k])
  {
  }

  /**
    Before the nickname overlay the empty key is gone, every other merged key is present, and
    each entry holds the merged entry with its subcountry and country fields made canonical:
    the sorted distinct non-empty values, joined by `?`.
  */
  lemma GazetteerEntry(ext: Externals, world: seq<PlaceRow>, f: Filters, k: string)
    ensures "" !in GazetteerIndexOf(ext, world, f).vals
    ensures var merged := MergedIndex(GazetteerPlaces(ext, world, f));
            k != "" ==>
              && (k in GazetteerIndexOf(ext, world, f).vals <==> k in merged.vals)
              && (k in merged.vals ==> GazetteerIndexOf(ext, world, f).vals[k] == Tidied(merged.vals[k], false))
    ensures k in GazetteerIndexOf(ext, world, f).vals ==>
              var e := GazetteerIndexOf(ext, world, f).vals[k];
              Canonical(e.subcountry) == e.subcountry && Canonical(e.country) == e.country
  {
    var merged := MergedIndex(GazetteerPlaces(ext, world, f));
    var g := GazetteerIndexOf(ext, world, f);
    if k in g.vals {
      var m := if "" in merged.vals then Remove(merged, "") else merged;
      CanonicalIdempotent(m.vals[k].subcountry);
      CanonicalIdempotent(m.vals[k].country);
    }
  }

  /** Every nickname entry has all three fields canonical. */
  lemma NicknameCanonical(ext: Externals, nicks: seq<NickRow>, f: Filters, k: string)
    requires k in NicknameIndexOf(ext, nicks, f).vals
    ensures var e := NicknameIndexOf(ext, nicks, f).vals[k];
            Canonical(e.city) == e.city && Canonical(e.subcountry) == e.subcountry && Canonical(e.country) == e.country
  {
    var ns := NickPlacesOf(FilterRows(CleanedRows(ext, nicks, CleanNickRow), NickCell, f));
    var e := TableOf(Nicknames, ns).vals[k];
    CanonicalIdempotent(e.city);
    CanonicalIdempotent(e.subcountry);
    CanonicalIdempotent(e.country);
  }

  // ---------------------------------------------------------------------------
  // `get_geo_info`
  // ---------------------------------------------------------------------------

  /**
    The record for one token: in exact mode a dictionary lookup of the normalized token
    (distance 0 on a hit, 1 on a miss), otherwise the fuzzy scan over the index keys.
  */
  function GeoInfoOf(ext: Externals, input: string, index: Index, exact: bool): Result<GeoInfo> {
    var pp := Normalize(ext, input);
    if exact then
      if pp in index.vals then Matched(input, pp, pp, 0, index.vals[pp]) else Ok(Unmatched(input, pp, 1))
    else
      var b := Scan(ext.dist, pp, index.keys);
      match b.key
      case None => Ok(Unmatched(input, pp, b.distance))
      case Some(k) => if k in index.vals then Matched(input, pp, k, b.distance, index.vals[k]) else Err(KeyError(Some(k)))
  }

  method GetGeoInfo(ext: Externals, input: string, index: Index, exact: bool) returns (r: Result<GeoInfo>)
    ensures r == GeoInfoOf(ext, input, index, exact)
  {
    var pp := Normalize(ext, input);
    var b := Start;
    if exact {
      if pp in index.vals {
        b := Best(Some(pp), 0);
      } else {
        b := Best(None, 1);
      }
    } else {
      b := ScanKeys(ext.dist, pp, index.keys);
    }
    if b.key.Some? {
      if b.key.value !in index.vals {
        return Err(KeyError(b.key));
      }
      r := Matched(input, pp, b.key.value, b.distance, index.vals[b.key.value]);
    } else {
      r := Ok(Unmatched(input, pp, b.distance));
    }
  }

  /**
    Exact mode: a hit on a non-empty key gives distance and tolerance 0 and the entry's fields
    verbatim; a miss gives no match, no fields, distance 1 and tolerance 1.
  */
  lemma ExactMatch(ext: Externals, input: string, index: Index)
    ensures var pp := Normalize(ext, input);
            var r := GeoInfoOf(ext, input, index, true);
            && (pp in index.vals && pp != "" ==>
                  r == Ok(GeoInfo(input, pp, Some(pp), Some(index.vals[pp].city), Some(index.vals[pp].subcountry),
                                  Some(index.vals[pp].country), 0, 0.0)))
            && (pp in index.vals && pp == "" ==> r == Err(ZeroDivisionError))
            && (pp !in index.vals ==> r == Ok(GeoInfo(input, pp, None, None, None, None, 1, 1.0)))
  {
    var pp := Normalize(ext, input);
    if pp in index.vals && pp != "" {
      var r := Matched(input, pp, pp, 0, index.vals[pp]);
      assert r.value.tolerance * (|pp| as real) == 0.0;
    }
  }

  /**
    Fuzzy mode on a well-formed index: no match exactly when every key is 1000 or more away;
    otherwise the match is the first key at the smallest distance, with that entry's fields.
  */
  lemma FuzzyMatch(ext: Externals, input: string, index: Index) returns (i: int)
    requires Valid(index)
    ensures var pp := Normalize(ext, input);
            var r := GeoInfoOf(ext, input, index, false);
            && (r.Err? <==> r == Err(ZeroDivisionError))
            && (r.Ok? ==> (r.value.matched.None? <==> forall j :: 0 <= j < |index.keys| ==> ext.dist(pp, index.keys[j]) >= 1000))
            && (r.Ok? && r.value.matched.None? ==> r.value == Unmatched(input, pp, 1000))
            && (r.Ok? && r.value.matched.Some? ==>
                  && IsFirstMinimum(ext.dist, pp, index.keys, i)
                  && r.value.matched == Some(index.keys[i])
                  && r.value.edBest == ext.dist(pp, index.keys[i])
                  && r.value.city == Some(index.vals[index.keys[i]].city)
                  && r.value.subcountry == Some(index.vals[index.keys[i]].subcountry)
                  && r.value.country == Some(index.vals[index.keys[i]].country))
  {
    var pp := Normalize(ext, input);
    ScanFirstMinimum(ext.dist, pp, index.keys);
    var b := Scan(ext.dist, pp, index.keys);
    i := 0;
    if b.key.Some? {
      i :| IsFirstMinimum(ext.dist, pp, index.keys, i) && index.keys[i] == b.key.value && b.distance == ext.dist(pp, index.keys[i]);
    }
  }

  // ---------------------------------------------------------------------------
  // `Geostring(...)` and `resolve`
  // ---------------------------------------------------------------------------

  /** `get_geo_info` with the index and mode fixed, as `Geostring.__init__` calls it. */
  function Matcher(ext: Externals, index: Index, exact: bool): (m: string -> Result<GeoInfo>)
    ensures forall t :: m(t) == GeoInfoOf(ext, t, index, exact)
  {
    t => GeoInfoOf(ext, t, index, exact)
  }

  /** The records of `Geostring(input, loc_index=index, exact=exact)`. */
  function ResultsOf(ext: Externals, input: string, index: Index, exact: bool): Result<seq<GeoInfo>> {
    MatchAll(Matcher(ext, index, exact), Tokens(input))
  }

  /** `Geostring.__init__`: one record appended per token of the rewritten input. */
  method MatchTokens(ext: Externals, input: string, index: Index, exact: bool) returns (r: Result<seq<GeoInfo>>)
    ensures r == ResultsOf(ext, input, index, exact)
  {
    var m := Matcher(ext, index, exact);
    var tokens := Tokens(input);
    var results := [];
    for i := 0 to |tokens|
      invariant MatchAll(m, tokens[..i]) == Ok(results)
    {
      var g := GetGeoInfo(ext, tokens[i], index, exact);
      assert g == m(tokens[i]);
      if g.Err? {
        MatchAllStops(m, tokens, i, results);
        return Err(g.error);
      }
      MatchAllExtend(m, tokens, i, results);
      results := results + [g.value];
    }
    assert tokens[..|tokens|] == tokens;
    r := Ok(results);
  }

  /** `resolve`: exact mode forces the tolerance to 0. */
  function ResolveOf(ext: Externals, input: string, index: Index, exact: bool, maxTol: real, verbose: bool)
    : Result<Option<Location>>
  {
    var tol := if exact then 0.0 else maxTol;
    match ResultsOf(ext, input, index, exact)
    case Err(e) => Err(e)
    case Ok(rs) => ResolveResultsOf(ext, index, rs, tol, verbose)
  }

  method ResolveWith(ext: Externals, input: string, index: Index, exact: bool, maxTol: real, verbose: bool)
    returns (r: Result<Option<Location>>)
    ensures r == ResolveOf(ext, input, index, exact, maxTol, verbose)
  {
    var tol := maxTol;
    if exact {
      tol := 0.0;
    }
    var results := MatchTokens(ext, input, index, exact);
    if results.Err? {
      return Err(results.error);
    }
    r := ResolveResults(ext, index, results.value, tol, verbose);
  }

  /** The empty input resolves to `None`. */
  lemma ResolveEmpty(ext: Externals, index: Index, exact: bool, maxTol: real, verbose: bool)
    ensures ResolveOf(ext, "", index, exact, maxTol, verbose) == Ok(None)
  {
    TokensRejoin("");
    assert Survivors([], if exact then 0.0 else maxTol) == [];
  }

  /** In exact mode a record survives the tolerance filter exactly when its token hit a key. */
  lemma ExactSurvivors(ext: Externals, input: string, index: Index)
    requires ResultsOf(ext, input, index, true).Ok?
    ensures forall g :: g in ResultsOf(ext, input, index, true).value ==>
              (g.tolerance <= 0.0 <==> g.matched.Some?)
  {
    var rs := ResultsOf(ext, input, index, true).value;
    var tokens := Tokens(input);
    forall g | g in rs ensures g.tolerance <= 0.0 <==> g.matched.Some? {
      var i :| 0 <= i < |rs| && rs[i] == g;
      ExactMatch(ext, tokens[i], index);
    }
  }

  // ---------------------------------------------------------------------------
  // The default index and its subsets
  // ---------------------------------------------------------------------------

  /** `any(c in field for c in level)`: some level name is a substring of the field. */
  function AnyContained(field: string, level: seq<string>): (b: bool)
    ensures b <==> exists c :: c in level && Contains(field, c)
  {
    if level == [] then false
    else
      assert forall c :: c in level <==> c == level[0] || c in level[1..];
      assert Contains(field, level[0]) ==> level[0] in level;
      Contains(field, level[0]) || AnyContained(field, level[1..])
  }

  /** `get_places(wd, colnum, level, False)`: the entries whose field contains some level name. */
  function PlacesIn(d: Index, col: Column, level: seq<string>): (r: Index)
    ensures Valid(d) ==> Valid(r)
    ensures forall k :: k in r.vals <==> k in d.vals && AnyContained(d.vals[k].Get(col), level)
    ensures forall k :: k in r.vals ==> r.vals[k] == d.vals[k]
  {
    Where(d, k => k in d.vals && AnyContained(d.vals[k].Get(col), level))
  }

  /** `d` updated with the entries a filter list picks; unchanged when the list was not given. */
  function AddPicked(acc: Index, base: Index, col: Column, level: Option<seq<string>>): Index {
    if level.Some? then Update(acc, PlacesIn(base, col, level.value)) else acc
  }

  /** `modified_li`: the entries picked by the country, subcountry and city lists, in that order. */
  function SubsetOf(base: Index, f: Filters): (r: Index)
    ensures Valid(base) ==> Valid(r)
  {
    var byCountry := AddPicked(Empty(), base, CountryCol, f.countries);
    var bySubcountry := AddPicked(byCountry, base, SubcountryCol, f.subcountries);
    AddPicked(bySubcountry, base, CityCol, f.cities)
  }

  /** An entry some given filter list names by substring, by the field that list is about. */
  predicate Mentions(f: Filters, e: Entry) {
    || (f.countries.Some? && AnyContained(e.country, f.countries.value))
    || (f.subcountries.Some? && AnyContained(e.subcountry, f.subcountries.value))
    || (f.cities.Some? && AnyContained(e.city, f.cities.value))
  }

  /** The subset holds exactly the entries of the base that a filter list mentions, unchanged. */
  lemma SubsetEntries(base: Index, f: Filters)
    ensures forall k :: k in SubsetOf(base, f).vals <==> k in base.vals && Mentions(f, base.vals[k])
    ensures forall k :: k in SubsetOf(base, f).vals ==> SubsetOf(base, f).vals[k] == base.vals[k]
  {
    var byCountry := AddPicked(Empty(), base, CountryCol, f.countries);
    var bySubcountry := AddPicked(byCountry, base, SubcountryCol, f.subcountries);
    var sub := AddPicked(bySubcountry, base, CityCol, f.cities);
    assert forall k :: k in byCountry.vals ==> k in base.vals && byCountry.vals[k] == base.vals[k] by {
      assert Empty<Entry>().vals == map[];
      AddPickedEntries(Empty(), base, CountryCol, f.countries);
    }
    assert forall k :: k in bySubcountry.vals ==> k in base.vals && bySubcountry.vals[k] == base.vals[k] by {
      AddPickedEntries(byCountry, base, SubcountryCol, f.subcountries);
    }
    assert forall k :: k in sub.vals ==> sub.vals[k] == base.vals[k] by {
      AddPickedEntries(bySubcountry, base, CityCol, f.cities);
    }
    forall k ensures k in sub.vals <==> k in base.vals && Mentions(f, base.vals[k]) {
      SubsetKey(base, f, k);
    }
  }

  /** One key of the subset: picked exactly when some given filter list mentions its entry. */
  lemma SubsetKey(base: Index, f: Filters, k: string)
    ensures k in SubsetOf(base, f).vals <==> k in base.vals && Mentions(f, base.vals[k])
  {
    var byCountry := AddPicked(Empty(), base, CountryCol, f.countries);
    var bySubcountry := AddPicked(byCountry, base, SubcountryCol, f.subcountries);
    assert k !in Empty<Entry>().vals;
    AddPickedKey(Empty(), base, CountryCol, f.countries, k);
    AddPickedKey(byCountry, base, SubcountryCol, f.subcountries, k);
    AddPickedKey(bySubcountry, base, CityCol, f.cities, k);
    if k in base.vals {
      var e := base.vals[k];
      assert e.Get(CountryCol) == e.country && e.Get(SubcountryCol) == e.subcountry && e.Get(CityCol) == e.city;
    }
  }

  /** One key after adding the entries one filter list picks. */
  lemma AddPickedKey(acc: Index, base: Index, col: Column, level: Option<seq<string>>, k: string)
    ensures k in AddPicked(acc, base, col, level).vals <==>
              k in acc.vals || (level.Some? && k in base.vals && AnyContained(base.vals[k].Get(col), level.value))
  {
  }

  /** Adding the entries one filter list picks keeps every entry a copy of the base's. */
  lemma AddPickedEntries(acc: Index, base: Index, col: Column, level: Option<seq<string>>)
    requires forall k :: k in acc.vals ==> k in base.vals && acc.vals[k] == base.vals[k]
    ensures forall k :: k in AddPicked(acc, base, col, level).vals <==>
              k in acc.vals || (level.Some? && k in base.vals && AnyContained(base.vals[k].Get(col), level.value))
    ensures forall k :: k in AddPicked(acc, base, col, level).vals ==> AddPicked(acc, base, col, level).vals[k] == base.vals[k]
  {
  }

  /**
    The process-wide default index, `Geostring.loc_index`: built from the full data at start,
    narrowed by `subset_locations`, rebuilt by `restore_locations`. The data files are fixed
    for the life of the process.
  */
  class DefaultIndex {
    const ext: Externals
    const world: seq<PlaceRow>
    const nicks: seq<NickRow>
    var index: Index

    /** The index `create_loc_index()` builds with every default argument. */
    static function Full(ext: Externals, world: seq<PlaceRow>, nicks: seq<NickRow>): (r: Index)
      ensures Valid(r)
    {
      LocIndexOf(ext, world, Some(nicks), NoFilters).value
    }

    constructor(ext: Externals, world: seq<PlaceRow>, nicks: seq<NickRow>)
      ensures this.ext == ext && this.world == world && this.nicks == nicks
      ensures index == Full(ext, world, nicks)
    {
      this.ext := ext;
      this.world := world;
      this.nicks := nicks;
      var r := CreateLocIndex(ext, world, Some(nicks), NoFilters);
      index := r.value;
    }

    /**
      `subset_locations`: the index built with the filters, then narrowed to the entries the
      filter lists mention; the default is rebound only when that leaves some entry.
    */
    method Subset(f: Filters)
      modifies this
      ensures var sub := SubsetOf(LocIndexOf(ext, world, Some(nicks), f).value, f);
              index == if sub.keys == [] then old(index) else sub
    {
      var base := CreateLocIndex(ext, world, Some(nicks), f);
      var modified := Empty();
      if f.countries.Some? {
        modified := Update(modified, PlacesIn(base.value, CountryCol, f.countries.value));
      }
      if f.subcountries.Some? {
        modified := Update(modified, PlacesIn(base.value, SubcountryCol, f.subcountries.value));
      }
      if f.cities.Some? {
        modified := Update(modified, PlacesIn(base.value, CityCol, f.cities.value));
      }
      if |modified.keys| != 0 {
        index := modified;
      }
    }

    /** `restore_locations`: the default is rebuilt from the full data. */
    method Restore()
      modifies this
      ensures index == Full(ext, world, nicks)
    {
      var r := CreateLocIndex(ext, world, Some(nicks), NoFilters);
      index := r.value;
    }

    /** `resolve(loc_string, exact, max_tolerance, verbose)` against the current default. */
    method Resolve(input: string, exact: bool, maxTol: real, verbose: bool) returns (r: Result<Option<Location>>)
      ensures r == ResolveOf(ext, input, index, exact, maxTol, verbose)
    {
      r := ResolveWith(ext, input, index, exact, maxTol, verbose);
    }
  }
}
