/**
  `resolve` after the records are built: the tolerance filter, then, for two or more surviving
  records, vertical resolution (most frequent values per column) and horizontal resolution
  (keeping only values whose index entry agrees with the resolved values of the next level up).
*/
module Resolution {
  import opened Wrappers
  import opened Strings
  import opened OrderedDicts
  import opened Entries
  import opened Normalizer
  import opened Matching
  import opened Counting

  /** `resolved_location`: `resolved_city`, `resolved_subcountry`, `resolved_country`. */
  datatype Location = Location(city: Option<string>, subcountry: Option<string>, country: Option<string>)

  // ---------------------------------------------------------------------------
  // The tolerance filter
  // ---------------------------------------------------------------------------

  /** `[i for i in results if i['ed_tolerance'] <= max_tolerance]` */
  function Survivors(rs: seq<GeoInfo>, maxTol: real): (r: seq<GeoInfo>)
    ensures forall g :: g in r <==> g in rs && g.tolerance <= maxTol
    ensures |r| <= |rs|
  {
    if rs == [] then []
    else
      assert rs == [rs[0]] + rs[1..];
      (if rs[0].tolerance <= maxTol then [rs[0]] else []) + Survivors(rs[1..], maxTol)
  }

  /** The filter keeps the records' order: it distributes over concatenation. */
  lemma {:induction false} SurvivorsAppend(a: seq<GeoInfo>, b: seq<GeoInfo>, maxTol: real)
    ensures Survivors(a + b, maxTol) == Survivors(a, maxTol) + Survivors(b, maxTol)
    decreases |a|
  {
    if a == [] {
      assert a + b == b;
    } else {
      assert (a + b)[0] == a[0];
      assert (a + b)[1..] == a[1..] + b;
      SurvivorsAppend(a[1..], b, maxTol);
    }
  }

  /** Filtering at a looser tolerance first and then at a tighter one is filtering at the tighter one. */
  lemma {:induction false} SurvivorsNested(rs: seq<GeoInfo>, tight: real, loose: real)
    requires tight <= loose
    ensures Survivors(Survivors(rs, loose), tight) == Survivors(rs, tight)
    decreases |rs|
  {
    if rs != [] {
      SurvivorsNested(rs[1..], tight, loose);
      var rest := Survivors(rs[1..], loose);
      if rs[0].tolerance <= loose {
        var s := Survivors(rs, loose);
        assert s == [rs[0]] + rest;
        assert s[0] == rs[0] && s[1..] == rest;
        assert Survivors(s, tight) == (if rs[0].tolerance <= tight then [rs[0]] else []) + Survivors(rest, tight);
      } else {
        assert Survivors(rs, loose) == rest;
        assert Survivors(rs, tight) == Survivors(rs[1..], tight);
      }
    }
  }

  // ---------------------------------------------------------------------------
  // Vertical resolution
  // ---------------------------------------------------------------------------

  function FieldOf(g: GeoInfo, col: Column): Option<string> {
    match col
    case CityCol => g.city
    case SubcountryCol => g.subcountry
    case CountryCol => g.country
  }

  /** `all_locs[n]`: one field of every surviving record. */
  function ColumnOf(rs: seq<GeoInfo>, col: Column): (r: seq<Option<string>>)
    ensures |r| == |rs| && forall i :: 0 <= i < |rs| ==> r[i] == FieldOf(rs[i], col)
  {
    seq(|rs|, i requires 0 <= i < |rs| => FieldOf(rs[i], col))
  }

  predicate AllPresent(column: seq<Option<string>>) {
    forall i :: 0 <= i < |column| ==> column[i].Some?
  }

  function Values(column: seq<Option<string>>): (r: seq<string>)
    requires AllPresent(column)
    ensures |r| == |column| && forall i :: 0 <= i < |r| ==> column[i] == Some(r[i])
  {
    seq(|column|, i requires 0 <= i < |column| => column[i].value)
  }

  /**
    The resolved value of one column: `AttributeError` if a field is `None` (it has no
    `split`); otherwise the `?`-join of every distinct piece in `most_common()` order for the
    city column, and of the pieces sharing the top count for the other two.
  */
  function VerticalOf(column: seq<Option<string>>, keepAll: bool): Result<string> {
    if !AllPresent(column) then Err(AttributeError)
    else
      var pieces := SplitAll(Values(column));
      Ok(Join(if keepAll then MostCommon(pieces) else TopValues(pieces), '?'))
  }

  /** `loc_list` of one column, or `AttributeError` at the first field that is `None`. */
  method GatherPieces(column: seq<Option<string>>) returns (r: Result<seq<string>>)
    ensures r.Err? <==> !AllPresent(column)
    ensures r.Err? ==> r.error == AttributeError
    ensures r.Ok? ==> AllPresent(column) && r.value == SplitAll(Values(column))
  {
    var locList: seq<string> := [];
    for j := 0 to |column|
      invariant AllPresent(column[..j])
      invariant locList == SplitAll(Values(column[..j]))
    {
      if column[j].None? {
        assert !AllPresent(column);
        return Err(AttributeError);
      }
      ValuesSnoc(column, j);
      locList := locList + Split(column[j].value, '?');
    }
    assert column[..|column|] == column;
    r := Ok(locList);
  }

  lemma ValuesSnoc(column: seq<Option<string>>, j: nat)
    requires j < |column| && AllPresent(column[..j]) && column[j].Some?
    ensures AllPresent(column[..j + 1])
    ensures SplitAll(Values(column[..j + 1])) == SplitAll(Values(column[..j])) + Split(column[j].value, '?')
  {
    var v := Values(column[..j + 1]);
    assert v[..j] == Values(column[..j]);
    assert v[j] == column[j].value;
  }

  /**
    The loop over the `most_common()` list `top`: keep every entry (city column), or the entries
    whose count equals the first entry's count.
  */
  method KeepTop(top: seq<string>, locList: seq<string>, keepAll: bool) returns (resolved: seq<string>)
    requires |top| > 0
    ensures keepAll ==> resolved == top
    ensures !keepAll ==> resolved == WithCount(top, locList, Count(locList, top[0]))
  {
    var topN := Count(locList, top[0]);
    resolved := [];
    for j := 0 to |top|
      invariant keepAll ==> resolved == top[..j]
      invariant !keepAll ==> resolved == WithCount(top[..j], locList, topN)
    {
      WithCountSnoc(top, j, locList, topN);
      if Count(locList, top[j]) == topN || keepAll {
        resolved := resolved + [top[j]];
      }
    }
    assert top[..|top|] == top;
  }

  lemma WithCountSnoc(vs: seq<string>, j: nat, xs: seq<string>, c: nat)
    requires j < |vs|
    ensures vs[..j + 1] == vs[..j] + [vs[j]]
    ensures WithCount(vs[..j + 1], xs, c) == WithCount(vs[..j], xs, c) + (if Count(xs, vs[j]) == c then [vs[j]] else [])
  {
    assert vs[..j + 1][..j] == vs[..j];
  }

  /** One pass of the vertical loop: gather the pieces, count them, keep the top ones (or all). */
  method VerticalField(column: seq<Option<string>>, keepAll: bool) returns (r: Result<string>)
    requires |column| > 0
    ensures r == VerticalOf(column, keepAll)
  {
    var gathered := GatherPieces(column);
    if gathered.Err? {
      return Err(gathered.error);
    }
    var locList := gathered.value;
    var top := MostCommon(locList);
    assert |top| > 0 && Count(locList, top[0]) == MaxCount(locList) by {
      MostCommonHead(locList);
    }
    var resolved := KeepTop(top, locList, keepAll);
    if !keepAll {
      FilterMostCommon(locList);
    }
    r := Ok(Join(resolved, '?'));
  }

  // ---------------------------------------------------------------------------
  // Horizontal resolution
  // ---------------------------------------------------------------------------

  /** The lookup key of the first non-empty candidate that the index does not hold. */
  function MissingKey(ext: Externals, index: Index, cands: seq<string>): (r: Option<string>)
    ensures r.Some? ==> r.value !in index.vals &&
                        exists v :: v in cands && v != "" && Normalize(ext, v) == r.value
    ensures r.None? ==> forall v :: v in cands && v != "" ==> Normalize(ext, v) in index.vals
  {
    if cands == [] then None
    else
      var v := cands[|cands| - 1];
      var p := MissingKey(ext, index, cands[..|cands| - 1]);
      assert cands == cands[..|cands| - 1] + [v];
      if p.Some? then p
      else if v != "" && Normalize(ext, v) !in index.vals then Some(Normalize(ext, v))
      else None
  }

  /**
    The key reported is that of the first non-empty candidate whose key is missing, the one the
    comprehension raises on.
  */
  lemma {:induction false} MissingKeyFirst(ext: Externals, index: Index, cands: seq<string>, i: nat)
    requires i < |cands| && cands[i] != "" && Normalize(ext, cands[i]) !in index.vals
    requires forall j :: 0 <= j < i && cands[j] != "" ==> Normalize(ext, cands[j]) in index.vals
    ensures MissingKey(ext, index, cands) == Some(Normalize(ext, cands[i]))
    decreases |cands|
  {
    var n := |cands| - 1;
    var init := cands[..n];
    MissingKeyLast(ext, index, cands);
    if i < n {
      assert init[i] == cands[i];
      MissingKeyFirst(ext, index, init, i);
    } else {
      MissingKeyNone(ext, index, init);
    }
  }

  /** No key is reported when every non-empty candidate's key is present. */
  lemma MissingKeyNone(ext: Externals, index: Index, cands: seq<string>)
    requires forall j :: 0 <= j < |cands| && cands[j] != "" ==> Normalize(ext, cands[j]) in index.vals
    ensures MissingKey(ext, index, cands) == None
  {
  }

  lemma MissingKeyLast(ext: Externals, index: Index, cands: seq<string>)
    requires cands != []
    ensures var v, p := cands[|cands| - 1], MissingKey(ext, index, cands[..|cands| - 1]);
            MissingKey(ext, index, cands) ==
              if p.Some? then p
              else if v != "" && Normalize(ext, v) !in index.vals then Some(Normalize(ext, v))
              else None
  {
  }

  /**
    `[rl for rl in cands if rl != '' and rc in loc_index[normalize(rl)][col]]`, which raises
    `KeyError` at the first non-empty candidate whose key is missing.
  */
  function Kept(ext: Externals, index: Index, rc: string, cands: seq<string>, col: Column): (r: Result<seq<string>>)
    ensures r.Err? <==> MissingKey(ext, index, cands).Some?
    ensures r.Err? ==> r.error == KeyError(MissingKey(ext, index, cands))
    ensures r.Ok? ==> forall v :: v in r.value <==>
              v in cands && v != "" && Contains(index.vals[Normalize(ext, v)].Get(col), rc)
  {
    if cands == [] then Ok([])
    else
      var v := cands[|cands| - 1];
      var init := cands[..|cands| - 1];
      var p := Kept(ext, index, rc, init, col);
      assert cands == init + [v];
      if p.Err? then p
      else if v == "" then p
      else if Normalize(ext, v) !in index.vals then Err(KeyError(Some(Normalize(ext, v))))
      else Ok(p.value + (if Contains(index.vals[Normalize(ext, v)].Get(col), rc) then [v] else []))
  }

  /** `r2 = []; for rc in needles: r2.extend(Kept(rc))` */
  function HorizontalAll(ext: Externals, index: Index, needles: seq<string>, cands: seq<string>, col: Column): (r: Result<seq<string>>)
    ensures r.Err? <==> |needles| > 0 && MissingKey(ext, index, cands).Some?
    ensures r.Err? ==> r.error == KeyError(MissingKey(ext, index, cands))
  {
    if needles == [] then Ok([])
    else
      var p := HorizontalAll(ext, index, needles[..|needles| - 1], cands, col);
      if p.Err? then p
      else
        var k := Kept(ext, index, needles[|needles| - 1], cands, col);
        if k.Err? then Err(k.error) else Ok(p.value + k.value)
  }

  /**
    Without a missing key, the values kept are the non-empty candidates whose index field
    contains at least one of the needles.
  */
  lemma {:induction false} HorizontalAllValues(ext: Externals, index: Index, needles: seq<string>, cands: seq<string>, col: Column)
    requires HorizontalAll(ext, index, needles, cands, col).Ok?
    ensures forall v :: v in HorizontalAll(ext, index, needles, cands, col).value <==>
              v in cands && v != "" && Normalize(ext, v) in index.vals &&
              exists rc :: rc in needles && Contains(index.vals[Normalize(ext, v)].Get(col), rc)
    decreases |needles|
  {
    if needles != [] {
      var n := |needles| - 1;
      var init := needles[..n];
      var rc := needles[n];
      HorizontalAllValues(ext, index, init, cands, col);
      var p := HorizontalAll(ext, index, init, cands, col).value;
      var k := Kept(ext, index, rc, cands, col).value;
      assert HorizontalAll(ext, index, needles, cands, col).value == p + k;
      forall v ensures v in p + k <==>
              v in cands && v != "" && Normalize(ext, v) in index.vals &&
              exists rc' :: rc' in needles && Contains(index.vals[Normalize(ext, v)].Get(col), rc')
      {
        assert v in p + k <==> v in p || v in k;
        assert forall x :: x in needles <==> x in init || x == rc by {
          assert needles == init + [rc];
        }
      }
    }
  }

  /** `'?'.join(sorted(list(set(r2))))` of the horizontal step. */
  function HorizontalOf(ext: Externals, index: Index, needles: seq<string>, cands: seq<string>, col: Column): Result<string> {
    match HorizontalAll(ext, index, needles, cands, col)
    case Err(e) => Err(e)
    case Ok(r2) => Ok(Join(SortedSet(r2), '?'))
  }

  /** One horizontal step: the loop over the needles, each extending `r2` by a comprehension. */
  method Horizontal(ext: Externals, index: Index, needles: seq<string>, cands: seq<string>, col: Column)
    returns (r: Result<string>)
    ensures r == HorizontalOf(ext, index, needles, cands, col)
  {
    var r2: seq<string> := [];
    for i := 0 to |needles|
      invariant HorizontalAll(ext, index, needles[..i], cands, col) == Ok(r2)
    {
      assert needles[..i + 1][..i] == needles[..i];
      var kept := Kept(ext, index, needles[i], cands, col);
      if kept.Err? {
        return Err(kept.error);
      }
      r2 := r2 + kept.value;
    }
    assert needles[..|needles|] == needles;
    r := Ok(Join(SortedSet(r2), '?'));
  }

  // ---------------------------------------------------------------------------
  // Disambiguation of two or more records
  // ---------------------------------------------------------------------------

  /** `loc_list` of one column of the records (every field present). */
  function Pieces(rs: seq<GeoInfo>, col: Column): (r: seq<string>)
    requires AllPresent(ColumnOf(rs, col))
    ensures |r| >= |rs|
  {
    SplitAll(Values(ColumnOf(rs, col)))
  }

  /**
    The multi-record branch of `resolve`: vertical resolution of the city column (all values, by
    count), the subcountry and the country columns (top values); then the subcountries kept are
    those whose index entry's country contains one of the resolved countries, and the cities kept
    are those whose index entry's subcountry contains one of the vertically resolved subcountries.
  */
  function DisambiguateOf(ext: Externals, index: Index, rs: seq<GeoInfo>): Result<Location> {
    var city := VerticalOf(ColumnOf(rs, CityCol), true);
    var subc := VerticalOf(ColumnOf(rs, SubcountryCol), false);
    var country := VerticalOf(ColumnOf(rs, CountryCol), false);
    if city.Err? then Err(city.error)
    else if subc.Err? then Err(subc.error)
    else if country.Err? then Err(country.error)
    else
      var subc2 := HorizontalOf(ext, index, Split(country.value, '?'), Split(subc.value, '?'), CountryCol);
      var city2 := HorizontalOf(ext, index, Split(subc.value, '?'), Split(city.value, '?'), SubcountryCol);
      if subc2.Err? then Err(subc2.error)
      else if city2.Err? then Err(city2.error)
      else Ok(Location(Some(city2.value), Some(subc2.value), Some(country.value)))
  }

  /** The multi-record branch of `resolve`, column after column. */
  method Disambiguate(ext: Externals, index: Index, rs: seq<GeoInfo>) returns (r: Result<Location>)
    requires |rs| > 0
    ensures r == DisambiguateOf(ext, index, rs)
  {
    var resolved: seq<string> := [];
    for n := 0 to 3
      invariant |resolved| == n
      invariant n > 0 ==> VerticalOf(ColumnOf(rs, CityCol), true) == Ok(resolved[0])
      invariant n > 1 ==> VerticalOf(ColumnOf(rs, SubcountryCol), false) == Ok(resolved[1])
      invariant n > 2 ==> VerticalOf(ColumnOf(rs, CountryCol), false) == Ok(resolved[2])
    {
      var col := if n == 0 then CityCol else if n == 1 then SubcountryCol else CountryCol;
      var v := VerticalField(ColumnOf(rs, col), n == 0);
      if v.Err? {
        return Err(v.error);
      }
      resolved := resolved + [v.value];
    }
    var rCountries := Split(resolved[2], '?');
    var rSubcountries := Split(resolved[1], '?');
    var subc2 := Horizontal(ext, index, rCountries, Split(resolved[1], '?'), CountryCol);
    if subc2.Err? {
      return Err(subc2.error);
    }
    var city2 := Horizontal(ext, index, rSubcountries, Split(resolved[0], '?'), SubcountryCol);
    if city2.Err? {
      return Err(city2.error);
    }
    r := Ok(Location(Some(city2.value), Some(subc2.value), Some(resolved[2])));
  }

  /**
    A candidate passes a horizontal step when it is non-empty, its key is in the index, and the
    index field `col` of its entry contains one of the needles.
  */
  ghost predicate Agrees(ext: Externals, index: Index, v: string, needles: seq<string>, col: Column) {
    v != "" && Normalize(ext, v) in index.vals &&
    exists rc :: rc in needles && Contains(index.vals[Normalize(ext, v)].Get(col), rc)
  }

  /**
    The value of a horizontal step is the `?`-join of a strictly sorted list: the non-empty
    candidates whose index field contains one of the needles.
  */
  lemma HorizontalMeaning(ext: Externals, index: Index, needles: seq<string>, cands: seq<string>, col: Column)
    returns (kept: seq<string>)
    requires HorizontalOf(ext, index, needles, cands, col).Ok?
    ensures StrictlySorted(kept)
    ensures HorizontalOf(ext, index, needles, cands, col).value == Join(kept, '?')
    ensures forall v :: v in kept <==> v in cands && Agrees(ext, index, v, needles, col)
  {
    HorizontalAllValues(ext, index, needles, cands, col);
    kept := SortedSet(HorizontalAll(ext, index, needles, cands, col).value);
  }

  /** A resolved column splits back into the values vertical resolution kept. */
  lemma VerticalSplit(column: seq<Option<string>>, keepAll: bool)
    requires VerticalOf(column, keepAll).Ok? && |column| > 0
    ensures AllPresent(column)
    ensures Split(VerticalOf(column, keepAll).value, '?') ==
              (if keepAll then MostCommon(SplitAll(Values(column))) else TopValues(SplitAll(Values(column))))
  {
    var pieces := SplitAll(Values(column));
    var kept := if keepAll then MostCommon(pieces) else TopValues(pieces);
    MostCommonSpec(pieces);
    TopValuesSpec(pieces);
    assert forall v :: v in kept ==> v in pieces;
    SplitJoin(kept, '?');
  }

  /** A disambiguated location is made of three vertical steps and two horizontal steps that all succeeded. */
  lemma DisambiguateParts(ext: Externals, index: Index, rs: seq<GeoInfo>)
    requires DisambiguateOf(ext, index, rs).Ok?
    ensures VerticalOf(ColumnOf(rs, CityCol), true).Ok?
    ensures VerticalOf(ColumnOf(rs, SubcountryCol), false).Ok?
    ensures VerticalOf(ColumnOf(rs, CountryCol), false).Ok?
    ensures AllPresent(ColumnOf(rs, CityCol)) && AllPresent(ColumnOf(rs, SubcountryCol)) && AllPresent(ColumnOf(rs, CountryCol))
    ensures var city := VerticalOf(ColumnOf(rs, CityCol), true).value;
            var subc := VerticalOf(ColumnOf(rs, SubcountryCol), false).value;
            var country := VerticalOf(ColumnOf(rs, CountryCol), false).value;
            var subc2 := HorizontalOf(ext, index, Split(country, '?'), Split(subc, '?'), CountryCol);
            var city2 := HorizontalOf(ext, index, Split(subc, '?'), Split(city, '?'), SubcountryCol);
            && subc2.Ok? && city2.Ok?
            && DisambiguateOf(ext, index, rs).value == Location(Some(city2.value), Some(subc2.value), Some(country))
  {
  }

  /** Every field of every record is present when each of the three columns is. */
  lemma RecordsPresent(rs: seq<GeoInfo>)
    requires AllPresent(ColumnOf(rs, CityCol)) && AllPresent(ColumnOf(rs, SubcountryCol)) && AllPresent(ColumnOf(rs, CountryCol))
    ensures forall g :: g in rs ==> g.city.Some? && g.subcountry.Some? && g.country.Some?
  {
    forall g | g in rs ensures g.city.Some? && g.subcountry.Some? && g.country.Some? {
      var i :| 0 <= i < |rs| && rs[i] == g;
      assert ColumnOf(rs, CityCol)[i].Some? && ColumnOf(rs, SubcountryCol)[i].Some? && ColumnOf(rs, CountryCol)[i].Some?;
    }
  }

  /** A disambiguated location has all three fields, and every record had all three. */
  lemma DisambiguatePresent(ext: Externals, index: Index, rs: seq<GeoInfo>)
    requires DisambiguateOf(ext, index, rs).Ok?
    ensures forall g :: g in rs ==> g.city.Some? && g.subcountry.Some? && g.country.Some?
    ensures var loc := DisambiguateOf(ext, index, rs).value;
              loc.city.Some? && loc.subcountry.Some? && loc.country.Some?
  {
    DisambiguateParts(ext, index, rs);
    RecordsPresent(rs);
  }

  /** The value of a top-values column is the `?`-join of the pieces no other piece outnumbers. */
  lemma VerticalTop(column: seq<Option<string>>)
    requires VerticalOf(column, false).Ok? && |column| > 0
    ensures AllPresent(column)
    ensures var pieces := SplitAll(Values(column));
            forall v :: v in Split(VerticalOf(column, false).value, '?') <==>
              v in pieces && forall w :: w in pieces ==> Count(pieces, w) <= Count(pieces, v)
  {
    VerticalSplit(column, false);
    TopValuesSpec(SplitAll(Values(column)));
  }

  /** The resolved country is the `?`-join of the country pieces that no other piece outnumbers. */
  lemma DisambiguateCountry(ext: Externals, index: Index, rs: seq<GeoInfo>)
    requires |rs| > 0 && DisambiguateOf(ext, index, rs).Ok?
    ensures AllPresent(ColumnOf(rs, CountryCol))
    ensures var loc := DisambiguateOf(ext, index, rs).value;
              loc.country.Some? &&
              forall v :: v in Split(loc.country.value, '?') <==>
                v in Pieces(rs, CountryCol) &&
                forall w :: w in Pieces(rs, CountryCol) ==> Count(Pieces(rs, CountryCol), w) <= Count(Pieces(rs, CountryCol), v)
  {
    DisambiguateParts(ext, index, rs);
    VerticalTop(ColumnOf(rs, CountryCol));
  }

  /**
    The resolved subcountry is the `?`-join, sorted and without repetition, of the top
    subcountry pieces whose index entry's country contains one of the resolved countries.
  */
  lemma DisambiguateSubcountry(ext: Externals, index: Index, rs: seq<GeoInfo>) returns (subs: seq<string>)
    requires |rs| > 0 && DisambiguateOf(ext, index, rs).Ok?
    ensures AllPresent(ColumnOf(rs, SubcountryCol))
    ensures DisambiguateOf(ext, index, rs).value.country.Some?
    ensures StrictlySorted(subs)
    ensures DisambiguateOf(ext, index, rs).value.subcountry == Some(Join(subs, '?'))
    ensures forall v :: v in subs <==>
              v in TopValues(Pieces(rs, SubcountryCol)) &&
              Agrees(ext, index, v, Split(DisambiguateOf(ext, index, rs).value.country.value, '?'), CountryCol)
  {
    DisambiguateParts(ext, index, rs);
    var subc := VerticalOf(ColumnOf(rs, SubcountryCol), false).value;
    var country := VerticalOf(ColumnOf(rs, CountryCol), false).value;
    assert DisambiguateOf(ext, index, rs).value.country == Some(country);
    subs := HorizontalMeaning(ext, index, Split(country, '?'), Split(subc, '?'), CountryCol);
    assert Split(subc, '?') == TopValues(Pieces(rs, SubcountryCol)) by {
      VerticalSplit(ColumnOf(rs, SubcountryCol), false);
    }
  }

  /**
    The resolved city is the `?`-join, sorted and without repetition, of the city pieces whose
    index entry's subcountry contains one of the top subcountry pieces.
  */
  lemma DisambiguateCity(ext: Externals, index: Index, rs: seq<GeoInfo>) returns (cities: seq<string>)
    requires |rs| > 0 && DisambiguateOf(ext, index, rs).Ok?
    ensures AllPresent(ColumnOf(rs, CityCol)) && AllPresent(ColumnOf(rs, SubcountryCol))
    ensures StrictlySorted(cities)
    ensures DisambiguateOf(ext, index, rs).value.city == Some(Join(cities, '?'))
    ensures forall v :: v in cities <==>
              v in Pieces(rs, CityCol) && Agrees(ext, index, v, TopValues(Pieces(rs, SubcountryCol)), SubcountryCol)
  {
    DisambiguateParts(ext, index, rs);
    var city := VerticalOf(ColumnOf(rs, CityCol), true).value;
    var subc := VerticalOf(ColumnOf(rs, SubcountryCol), false).value;
    cities := HorizontalMeaning(ext, index, Split(subc, '?'), Split(city, '?'), SubcountryCol);
    assert forall v :: v in Split(city, '?') <==> v in Pieces(rs, CityCol) by {
      VerticalAll(ColumnOf(rs, CityCol));
    }
    assert Split(subc, '?') == TopValues(Pieces(rs, SubcountryCol)) by {
      VerticalSplit(ColumnOf(rs, SubcountryCol), false);
    }
  }

  /** The value of the city column lists every piece once: `?`-split, it holds exactly the pieces. */
  lemma VerticalAll(column: seq<Option<string>>)
    requires VerticalOf(column, true).Ok? && |column| > 0
    ensures AllPresent(column)
    ensures forall v :: v in Split(VerticalOf(column, true).value, '?') <==> v in SplitAll(Values(column))
  {
    VerticalSplit(column, true);
    MostCommonSpec(SplitAll(Values(column)));
  }

  // ---------------------------------------------------------------------------
  // resolve, once the records are built
  // ---------------------------------------------------------------------------

  /**
    The verbose message of `resolve` concatenates the matched key of every record over the
    tolerance, which raises `TypeError` for a record that matched nothing.
  */
  predicate VerboseCrash(results: seq<GeoInfo>, maxTol: real, verbose: bool) {
    verbose && exists g :: g in results && g.tolerance > maxTol && g.matched.None?
  }

  /**
    `resolve` from the list of records on: the verbose loop, the tolerance filter, `None` for
    no survivor, the survivor's own fields for one, disambiguation for two or more.
  */
  function ResolveResultsOf(ext: Externals, index: Index, results: seq<GeoInfo>, maxTol: real, verbose: bool)
    : Result<Option<Location>>
  {
    if VerboseCrash(results, maxTol, verbose) then Err(TypeError)
    else
      var surv := Survivors(results, maxTol);
      if surv == [] then Ok(None)
      else if |surv| == 1 then Ok(Some(Location(surv[0].city, surv[0].subcountry, surv[0].country)))
      else
        match DisambiguateOf(ext, index, surv)
        case Err(e) => Err(e)
        case Ok(loc) => Ok(Some(loc))
  }

  /** The body of `resolve` after `Geostring(...)` has built the records. */
  method ResolveResults(ext: Externals, index: Index, results: seq<GeoInfo>, maxTol: real, verbose: bool)
    returns (r: Result<Option<Location>>)
    ensures r == ResolveResultsOf(ext, index, results, maxTol, verbose)
  {
    for k := 0 to |results|
      invariant !VerboseCrash(results[..k], maxTol, verbose)
    {
      if results[k].tolerance > maxTol && verbose && results[k].matched.None? {
        assert results[k] in results;
        return Err(TypeError);
      }
      assert results[..k + 1] == results[..k] + [results[k]];
    }
    assert results[..|results|] == results;
    var surv := Survivors(results, maxTol);
    if surv == [] {
      return Ok(None);
    }
    if |surv| == 1 {
      return Ok(Some(Location(surv[0].city, surv[0].subcountry, surv[0].country)));
    }
    var loc := Disambiguate(ext, index, surv);
    if loc.Err? {
      return Err(loc.error);
    }
    r := Ok(Some(loc.value));
  }

  /**
    Without a verbose crash, `resolve` gives `None` exactly when every record is over the
    tolerance.
  */
  lemma ResolveNone(ext: Externals, index: Index, results: seq<GeoInfo>, maxTol: real, verbose: bool)
    requires !VerboseCrash(results, maxTol, verbose)
    ensures ResolveResultsOf(ext, index, results, maxTol, verbose) == Ok(None) <==>
              forall g :: g in results ==> g.tolerance > maxTol
  {
    var surv := Survivors(results, maxTol);
    if surv != [] {
      assert surv[0] in surv;
    }
  }

  /** A single record within the tolerance is returned field for field. */
  lemma ResolveSingle(ext: Externals, index: Index, results: seq<GeoInfo>, maxTol: real, verbose: bool, i: nat)
    requires !VerboseCrash(results, maxTol, verbose)
    requires i < |results| && results[i].tolerance <= maxTol
    requires forall j :: 0 <= j < |results| && j != i ==> results[j].tolerance > maxTol
    ensures var g := results[i];
            ResolveResultsOf(ext, index, results, maxTol, verbose) == Ok(Some(Location(g.city, g.subcountry, g.country)))
  {
    SurvivorsOne(results, maxTol, i);
  }

  /** When every record is over the tolerance, the filter keeps none. */
  lemma {:induction false} SurvivorsNone(rs: seq<GeoInfo>, maxTol: real)
    requires forall g :: g in rs ==> g.tolerance > maxTol
    ensures Survivors(rs, maxTol) == []
    decreases |rs|
  {
    if rs != [] {
      assert rs[0] in rs;
      assert forall g :: g in rs[1..] ==> g in rs;
      SurvivorsNone(rs[1..], maxTol);
    }
  }

  /** When only the record at `i` is within the tolerance, the filter keeps just that one. */
  lemma {:induction false} SurvivorsOne(rs: seq<GeoInfo>, maxTol: real, i: nat)
    requires i < |rs| && rs[i].tolerance <= maxTol
    requires forall j :: 0 <= j < |rs| && j != i ==> rs[j].tolerance > maxTol
    ensures Survivors(rs, maxTol) == [rs[i]]
    decreases |rs|
  {
    var rest := Survivors(rs[1..], maxTol);
    if i == 0 {
      forall g | g in rs[1..] ensures g.tolerance > maxTol {
        var k :| 0 <= k < |rs[1..]| && rs[1..][k] == g;
        assert rs[k + 1] == g;
      }
      SurvivorsNone(rs[1..], maxTol);
    } else {
      SurvivorsOne(rs[1..], maxTol, i - 1);
    }
  }

  /** The verbose flag only prints: whenever `resolve` does not crash, it returns the same. */
  lemma ResolveVerboseQuiet(ext: Externals, index: Index, results: seq<GeoInfo>, maxTol: real)
    requires ResolveResultsOf(ext, index, results, maxTol, true).Ok?
    ensures ResolveResultsOf(ext, index, results, maxTol, true) == ResolveResultsOf(ext, index, results, maxTol, false)
  {
  }

  /** The verbose crash happens exactly when a record that matched nothing is over the tolerance. */
  lemma ResolveVerboseCrash(ext: Externals, index: Index, results: seq<GeoInfo>, maxTol: real)
    ensures ResolveResultsOf(ext, index, results, maxTol, true) == Err(TypeError) <==>
              (exists g :: g in results && g.tolerance > maxTol && g.matched.None?) ||
              ResolveResultsOf(ext, index, results, maxTol, false) == Err(TypeError)
  {
  }
}
