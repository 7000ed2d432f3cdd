/**
  The older revision of geostring: no row filtering and no exact mode; display values are only
  lower-cased (the city name not even stripped), the empty key is deleted unconditionally, and
  the `georgia` key is overwritten by hand before the nickname overlay.
*/
module GeostringLegacy {
  import opened Wrappers
  import opened Strings
  import opened OrderedDicts
  import opened Entries
  import opened Rows
  import opened Normalizer
  import opened Tokenizer
  import opened Matching
  import opened Resolution
  import opened IndexBuild

  // ---------------------------------------------------------------------------
  // `create_loc_index`
  // ---------------------------------------------------------------------------

  /**
    A raw gazetteer row as the table loop reads it: the keys are normalized from the raw names,
    the city name is only lower-cased, the subcountry and country are lower-cased and stripped,
    and the subcountry table keeps the subcountry only lower-cased.
  */
  function PlaceOf(ext: Externals, r: PlaceRow): Place {
    Place(Normalize(ext, r.city), Normalize(ext, r.subcountry), Normalize(ext, r.country),
          Lower(r.city), Strip(Lower(r.subcountry)), Lower(r.subcountry), Strip(Lower(r.country)))
  }

  /** A raw nickname row: the key normalized, the three names lower-cased and stripped. */
  function NickPlaceOf(ext: Externals, r: NickRow): Place {
    NicknameRow(Normalize(ext, r.nickname), Strip(Lower(r.city)), Strip(Lower(r.country)), Strip(Lower(r.subcountry)))
  }

  function PlacesOf(ext: Externals, rows: seq<PlaceRow>): (ps: seq<Place>)
    ensures |ps| == |rows| && forall i :: 0 <= i < |rows| ==> ps[i] == PlaceOf(ext, rows[i])
  {
    seq(|rows|, i requires 0 <= i < |rows| => PlaceOf(ext, rows[i]))
  }

  function NickPlacesOf(ext: Externals, rows: seq<NickRow>): (ps: seq<Place>)
    ensures |ps| == |rows| && forall i :: 0 <= i < |rows| ==> ps[i] == NickPlaceOf(ext, rows[i])
  {
    seq(|rows|, i requires 0 <= i < |rows| => NickPlaceOf(ext, rows[i]))
  }

  /** The entry written under `georgia` whatever the gazetteer says. */
  const Georgia := Entry("", "georgia", "georgia?united states")

  /**
    `loc_index` before the nickname overlay: `del loc_index['']` raises `KeyError` when no row
    gives an empty key; otherwise the cleanup loop runs and `georgia` is overwritten.
  */
  function GazetteerIndexOf(ext: Externals, world: seq<PlaceRow>): (r: Result<Index>)
    ensures r.Err? <==> "" !in MergedIndex(PlacesOf(ext, world)).vals
    ensures r.Err? ==> r.error == KeyError(Some(""))
    ensures r.Ok? ==> Valid(r.value) && "" !in r.value.vals
    ensures r.Ok? ==> "georgia" in r.value.vals && r.value.vals["georgia"] == Georgia
  {
    var merged := MergedIndex(PlacesOf(ext, world));
    if "" !in merged.vals then Err(KeyError(Some("")))
    else Ok(Put(CleanedOf(Remove(merged, ""), false), "georgia", Georgia))
  }

  /** The nickname table after its cleanup loop. */
  function NicknameIndexOf(ext: Externals, nicks: seq<NickRow>): (r: Index)
    ensures Valid(r)
  {
    CleanedOf(TableOf(Nicknames, NickPlacesOf(ext, nicks)), true)
  }

  /** `create_loc_index`; `nicks` is `None` when `world_nick_fn` is empty. */
  function LocIndexOf(ext: Externals, world: seq<PlaceRow>, nicks: Option<seq<NickRow>>): (r: Result<Index>)
    ensures r.Ok? <==> GazetteerIndexOf(ext, world).Ok? && nicks.Some?
    ensures r.Ok? ==> Valid(r.value)
  {
    match GazetteerIndexOf(ext, world)
    case Err(e) => Err(e)
    case Ok(g) =>
      if nicks.None? then Err(UnboundLocalError)
      else Ok(Update(g, NicknameIndexOf(ext, nicks.value)))
  }

  method CreateLocIndex(ext: Externals, world: seq<PlaceRow>, nicks: Option<seq<NickRow>>) returns (r: Result<Index>)
    ensures r == LocIndexOf(ext, world, nicks)
  {
    var cities, subcountries, countries := BuildTables(PlacesOf(ext, world));
    var loc := Merge(cities, subcountries, countries);
    if "" !in loc.vals {
      return Err(KeyError(Some("")));
    }
    loc := Remove(loc, "");
    loc := CleanUp(loc, false);
    loc := Put(loc, "georgia", Georgia);
    if nicks.None? {
      return Err(UnboundLocalError);
    }
    var nicknames := BuildNicknames(NickPlacesOf(ext, nicks.value));
    nicknames := CleanUp(nicknames, true);
    r := Ok(Update(loc, nicknames));
  }

  /**
    Building fails with `KeyError('')` exactly when no gazetteer row normalizes to an empty
    city, subcountry or country key.
  */
  lemma BuildFails(ext: Externals, world: seq<PlaceRow>, nicks: Option<seq<NickRow>>)
    ensures LocIndexOf(ext, world, nicks) == Err(KeyError(Some(""))) <==>
              && (forall i :: 0 <= i < |world| ==> Normalize(ext, world[i].city) != "")
              && (forall i :: 0 <= i < |world| ==> Normalize(ext, world[i].subcountry) != "")
              && (forall i :: 0 <= i < |world| ==> Normalize(ext, world[i].country) != "")
  {
    var ps := PlacesOf(ext, world);
    assert LocIndexOf(ext, world, nicks) == Err(KeyError(Some(""))) <==> "" !in MergedIndex(ps).vals;
    MergedMembership(ps, "");
  }

  /** Without a nickname table a gazetteer that builds ends in `UnboundLocalError`. */
  lemma NoNicknames(ext: Externals, world: seq<PlaceRow>)
    requires GazetteerIndexOf(ext, world).Ok?
    ensures LocIndexOf(ext, world, None) == Err(UnboundLocalError)
  {
  }

  /**
    Nickname entries are laid over the finished gazetteer index: its keys come first, then the
    nickname keys it lacks; a nickname entry overwrites any colliding key, and every other
    gazetteer entry is kept.
  */
  lemma LocIndexOverlay(ext: Externals, world: seq<PlaceRow>, nicks: seq<NickRow>, k: string)
    requires GazetteerIndexOf(ext, world).Ok?
    ensures var loc := LocIndexOf(ext, world, Some(nicks)).value;
            var g := GazetteerIndexOf(ext, world).value;
            var n := NicknameIndexOf(ext, nicks);
            && loc.keys == g.keys + NewKeys(n.keys, g.vals)
            && (k in loc.vals <==> k in g.vals || k in n.vals)
            && (k in n.vals ==> loc.vals[k] == n.vals[k])
            && (k !in n.vals && k in g.vals ==> loc.vals[k] == g.vals[k])
  {
    UpdateEntry(GazetteerIndexOf(ext, world).value, NicknameIndexOf(ext, nicks), k);
  }

  /**
    In the finished index `georgia` holds the hand-written entry unless the nickname table has
    that key, whose entry then wins.
  */
  lemma GeorgiaOverride(ext: Externals, world: seq<PlaceRow>, nicks: seq<NickRow>)
    requires GazetteerIndexOf(ext, world).Ok?
    ensures "georgia" in LocIndexOf(ext, world, Some(nicks)).value.vals
    ensures LocIndexOf(ext, world, Some(nicks)).value.vals["georgia"] ==
              if "georgia" in NicknameIndexOf(ext, nicks).vals then NicknameIndexOf(ext, nicks).vals["georgia"] else Georgia
  {
    var g := GazetteerIndexOf(ext, world).value;
    var n := NicknameIndexOf(ext, nicks);
    assert LocIndexOf(ext, world, Some(nicks)) == Ok(Update(g, n));
  }

  /**
    Apart from `georgia`, a non-empty key that only cities have holds the last such row's city
    name only lower-cased (spaces kept), while the key is normalized from the raw name.
  */
  lemma CityNameNotStripped(ext: Externals, world: seq<PlaceRow>, k: string, j: nat) returns (i: nat)
    requires GazetteerIndexOf(ext, world).Ok? && k != "georgia" && k != ""
    requires j < |world| && Normalize(ext, world[j].city) == k
    requires forall j :: 0 <= j < |world| ==> Normalize(ext, world[j].subcountry) != k && Normalize(ext, world[j].country) != k
    ensures i < |world| && Normalize(ext, world[i].city) == k
    ensures k in GazetteerIndexOf(ext, world).value.vals
    ensures GazetteerIndexOf(ext, world).value.vals[k].city == Lower(world[i].city)
  {
    i := CityOnlyEntry(ext, world, k, j);
    GazetteerKeeps(ext, world, k);
  }

  /** Apart from the empty key and `georgia`, every merged key keeps its entry, tidied. */
  lemma GazetteerKeeps(ext: Externals, world: seq<PlaceRow>, k: string)
    requires GazetteerIndexOf(ext, world).Ok? && k != "georgia" && k != ""
    requires k in MergedIndex(PlacesOf(ext, world)).vals
    ensures k in GazetteerIndexOf(ext, world).value.vals
    ensures GazetteerIndexOf(ext, world).value.vals[k] == Tidied(MergedIndex(PlacesOf(ext, world)).vals[k], false)
  {
    var merged := MergedIndex(PlacesOf(ext, world));
    var cleaned := CleanedOf(Remove(merged, ""), false);
    assert GazetteerIndexOf(ext, world) == Ok(Put(cleaned, "georgia", Georgia));
  }

  /** The merged entry of a key only cities have carries the last such row's city name. */
  lemma CityOnlyEntry(ext: Externals, world: seq<PlaceRow>, k: string, j: nat) returns (i: nat)
    requires j < |world| && Normalize(ext, world[j].city) == k
    requires forall j :: 0 <= j < |world| ==> Normalize(ext, world[j].subcountry) != k && Normalize(ext, world[j].country) != k
    ensures i < |world| && Normalize(ext, world[i].city) == k
    ensures k in MergedIndex(PlacesOf(ext, world)).vals
    ensures MergedIndex(PlacesOf(ext, world)).vals[k].city == Lower(world[i].city)
  {
    var ps := PlacesOf(ext, world);
    i := MergedCityLast(ps, k, j);
    assert ps[i] == PlaceOf(ext, world[i]);
  }

  // ---------------------------------------------------------------------------
  // `get_geo_info`, `Geostring(...)` and `resolve`
  // ---------------------------------------------------------------------------

  /**
    The record for one token: the fuzzy scan over every key; with no key closer than 1000 the
    lookup of `None` raises `KeyError`.
  */
  function GeoInfoOf(ext: Externals, input: string, index: Index): Result<GeoInfo> {
    var pp := Normalize(ext, input);
    var b := Scan(ext.dist, pp, index.keys);
    match b.key
    case None => Err(KeyError(None))
    case Some(k) => if k in index.vals then Matched(input, pp, k, b.distance, index.vals[k]) else Err(KeyError(Some(k)))
  }

  method GetGeoInfo(ext: Externals, input: string, index: Index) returns (r: Result<GeoInfo>)
    ensures r == GeoInfoOf(ext, input, index)
  {
    var pp := Normalize(ext, input);
    var b := ScanKeys(ext.dist, pp, index.keys);
    if b.key.None? || b.key.value !in index.vals {
      return Err(KeyError(b.key));
    }
    r := Matched(input, pp, b.key.value, b.distance, index.vals[b.key.value]);
  }

  /**
    On a well-formed index the record is for the first key at the smallest distance, with that
    entry's fields; it fails with `KeyError(None)` exactly when every key is 1000 or more away.
  */
  lemma LegacyMatch(ext: Externals, input: string, index: Index) returns (i: int)
    requires Valid(index)
    ensures var pp := Normalize(ext, input);
            var r := GeoInfoOf(ext, input, index);
            && (r == Err(KeyError(None)) <==> forall j :: 0 <= j < |index.keys| ==> ext.dist(pp, index.keys[j]) >= 1000)
            && (r.Err? ==> r == Err(KeyError(None)) || r == Err(ZeroDivisionError))
            && (r.Ok? ==>
                  && IsFirstMinimum(ext.dist, pp, index.keys, i)
                  && r.value.matched == Some(index.keys[i])
                  && r.value.edBest == ext.dist(pp, index.keys[i])
                  && r.value.city == Some(index.vals[index.keys[i]].city)
                  && r.value.subcountry == Some(index.vals[index.keys[i]].subcountry)
                  && r.value.country == Some(index.vals[index.keys[i]].country))
  {
    var pp := Normalize(ext, input);
    ScanFirstMinimum(ext.dist, pp, index.keys);
    var b := Scan(ext.dist, pp, index.keys);
    i := 0;
    if b.key.Some? {
      i :| IsFirstMinimum(ext.dist, pp, index.keys, i) && index.keys[i] == b.key.value && b.distance == ext.dist(pp, index.keys[i]);
    }
  }

  function Matcher(ext: Externals, index: Index): (m: string -> Result<GeoInfo>)
    ensures forall t :: m(t) == GeoInfoOf(ext, t, index)
  {
    t => GeoInfoOf(ext, t, index)
  }

  /** The records of `Geostring(input, loc_index=index)`. */
  function ResultsOf(ext: Externals, input: string, index: Index): Result<seq<GeoInfo>> {
    MatchAll(Matcher(ext, index), Tokens(input))
  }

  /** `Geostring.__init__`: one record appended per token of the rewritten input. */
  method MatchTokens(ext: Externals, input: string, index: Index) returns (r: Result<seq<GeoInfo>>)
    ensures r == ResultsOf(ext, input, index)
  {
    var m := Matcher(ext, index);
    var tokens := Tokens(input);
    var results := [];
    for i := 0 to |tokens|
      invariant MatchAll(m, tokens[..i]) == Ok(results)
    {
      var g := GetGeoInfo(ext, tokens[i], index);
      assert g == m(tokens[i]);
      if g.Err? {
        MatchAllStops(m, tokens, i, results);
        return Err(g.error);
      }
      MatchAllExtend(m, tokens, i, results);
      results := results + [g.value];
    }
    assert tokens[..|tokens|] == tokens;
    r := Ok(results);
  }

  /** `resolve(loc_string, max_tolerance, verbose)` against the index. */
  function ResolveOf(ext: Externals, input: string, index: Index, maxTol: real, verbose: bool): Result<Option<Location>> {
    match ResultsOf(ext, input, index)
    case Err(e) => Err(e)
    case Ok(rs) => ResolveResultsOf(ext, index, rs, maxTol, verbose)
  }

  method Resolve(ext: Externals, input: string, index: Index, maxTol: real, verbose: bool)
    returns (r: Result<Option<Location>>)
    ensures r == ResolveOf(ext, input, index, maxTol, verbose)
  {
    var results := MatchTokens(ext, input, index);
    if results.Err? {
      return Err(results.error);
    }
    r := ResolveResults(ext, index, results.value, maxTol, verbose);
  }

  /**
    Every record of this revision names its matched key, so the verbose messages never fail
    and `verbose` does not change the outcome.
  */
  lemma VerboseHarmless(ext: Externals, input: string, index: Index, maxTol: real)
    ensures ResolveOf(ext, input, index, maxTol, true) == ResolveOf(ext, input, index, maxTol, false)
  {
    var res := ResultsOf(ext, input, index);
    if res.Ok? {
      var rs := res.value;
      var tokens := Tokens(input);
      assert forall g :: g in rs ==> g.matched.Some? by {
        forall g | g in rs ensures g.matched.Some? {
          var i :| 0 <= i < |rs| && rs[i] == g;
          assert GeoInfoOf(ext, tokens[i], index) == Ok(g);
        }
      }
      assert !VerboseCrash(rs, maxTol, true);
    }
  }
}
