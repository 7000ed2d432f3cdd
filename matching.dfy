/**
  The matcher shared by both revisions of `get_geo_info`: the linear scan for the first index
  key at the smallest edit distance, and the record built for a matched key.
*/
module Matching {
  import opened Wrappers
  import opened Strings
  import opened OrderedDicts
  import opened Entries

  /** `curr_match`: the best key found so far and its distance. */
  datatype Best = Best(key: Option<string>, distance: nat)

  /** `(None, 1000)`, the scan's starting point: a key must be closer than 1000 to be taken. */
  const Start := Best(None, 1000)

  /**
    The state of `curr_match` after the fuzzy loop has visited `keys`: a key replaces the best
    one only when it is strictly closer.
  */
  function Scan(dist: (string, string) -> nat, q: string, keys: seq<string>): (b: Best)
    ensures b.key.None? ==> b == Start
    ensures b.key.Some? ==> b.key.value in keys && b.distance == dist(q, b.key.value) < 1000
  {
    if keys == [] then Start
    else
      var b := Scan(dist, q, keys[..|keys| - 1]);
      var k := keys[|keys| - 1];
      assert forall x :: x in keys[..|keys| - 1] ==> x in keys;
      if dist(q, k) < b.distance then Best(Some(k), dist(q, k)) else b
  }

  /** `keys[i]` is closer than 1000, no key is closer, and every earlier key is farther. */
  ghost predicate IsFirstMinimum(dist: (string, string) -> nat, q: string, keys: seq<string>, i: int) {
    0 <= i < |keys| && dist(q, keys[i]) < 1000 &&
    (forall j :: 0 <= j < |keys| ==> dist(q, keys[i]) <= dist(q, keys[j])) &&
    (forall j :: 0 <= j < i ==> dist(q, keys[i]) < dist(q, keys[j]))
  }

  /**
    The scan finds nothing exactly when every key is at distance 1000 or more; otherwise it
    ends on the first key at the minimal distance.
  */
  lemma {:induction false} ScanFirstMinimum(dist: (string, string) -> nat, q: string, keys: seq<string>)
    ensures Scan(dist, q, keys).key.None? <==> forall j :: 0 <= j < |keys| ==> dist(q, keys[j]) >= 1000
    ensures Scan(dist, q, keys).key.Some? ==>
      exists i :: IsFirstMinimum(dist, q, keys, i) && keys[i] == Scan(dist, q, keys).key.value
             && Scan(dist, q, keys).distance == dist(q, keys[i])
    decreases |keys|
  {
    if keys != [] {
      var n := |keys| - 1;
      var p := keys[..n];
      var k := keys[n];
      ScanFirstMinimum(dist, q, p);
      var b := Scan(dist, q, p);
      assert forall j :: 0 <= j < n ==> keys[j] == p[j];
      if dist(q, k) < b.distance {
        assert IsFirstMinimum(dist, q, keys, n) by {
          if b.key.Some? {
            var i :| IsFirstMinimum(dist, q, p, i) && p[i] == b.key.value && b.distance == dist(q, p[i]);
          }
        }
      } else if b.key.Some? {
        var i :| IsFirstMinimum(dist, q, p, i) && p[i] == b.key.value && b.distance == dist(q, p[i]);
        assert IsFirstMinimum(dist, q, keys, i);
      }
    }
  }

  /** The fuzzy loop of `get_geo_info`, over the index keys in insertion order. */
  method ScanKeys(dist: (string, string) -> nat, q: string, keys: seq<string>) returns (b: Best)
    ensures b == Scan(dist, q, keys)
  {
    b := Start;
    for i := 0 to |keys|
      invariant b == Scan(dist, q, keys[..i])
    {
      assert keys[..i + 1][..i] == keys[..i];
      var d := dist(q, keys[i]);
      if d < b.distance {
        b := Best(Some(keys[i]), d);
      }
    }
    assert keys[..|keys|] == keys;
  }

  /** The record `get_geo_info` returns: `geo_input` … `ed_tolerance`. */
  datatype GeoInfo = GeoInfo(
    input: string,
    inputPP: string,
    matched: Option<string>,
    city: Option<string>,
    subcountry: Option<string>,
    country: Option<string>,
    edBest: nat,
    tolerance: real)

  function Max(a: nat, b: nat): nat {
    if a < b then b else a
  }

  /**
    The record for a matched key: the entry's three fields, the distance, and the distance
    divided by the longer of the query and the key, which raises `ZeroDivisionError` when both
    are empty.
  */
  function Matched(input: string, pp: string, key: string, d: nat, e: Entry): (r: Result<GeoInfo>)
    ensures r.Err? <==> pp == "" && key == ""
    ensures r.Err? ==> r.error == ZeroDivisionError
    ensures r.Ok? ==>
              && r.value.matched == Some(key) && r.value.edBest == d
              && r.value.city == Some(e.city) && r.value.subcountry == Some(e.subcountry)
              && r.value.country == Some(e.country)
              && r.value.tolerance * (Max(|pp|, |key|) as real) == d as real
              && (d <= Max(|pp|, |key|) ==> 0.0 <= r.value.tolerance <= 1.0)
  {
    var m := Max(|pp|, |key|);
    if m == 0 then Err(ZeroDivisionError)
    else Ok(GeoInfo(input, pp, Some(key), Some(e.city), Some(e.subcountry), Some(e.country), d, d as real / m as real))
  }

  /** The record for an input that matched nothing. */
  function Unmatched(input: string, pp: string, d: nat): GeoInfo {
    GeoInfo(input, pp, None, None, None, None, d, 1.0)
  }

  /** What `editdistance.eval` guarantees: never more than the longer string's length. */
  ghost predicate DistanceBounded(dist: (string, string) -> nat) {
    forall a, b :: dist(a, b) <= Max(|a|, |b|)
  }

  /**
    `Geostring.__init__`'s record list: one record per token, in order, as `m` gives them; the
    first token whose matching raises ends construction with that exception.
  */
  function MatchAll(m: string -> Result<GeoInfo>, tokens: seq<string>): (r: Result<seq<GeoInfo>>)
    ensures r.Ok? <==> forall i :: 0 <= i < |tokens| ==> m(tokens[i]).Ok?
    ensures r.Ok? ==> |r.value| == |tokens| && forall i :: 0 <= i < |tokens| ==> m(tokens[i]) == Ok(r.value[i])
  {
    if tokens == [] then Ok([])
    else
      var n := |tokens| - 1;
      assert forall i :: 0 <= i < n ==> tokens[..n][i] == tokens[i];
      match MatchAll(m, tokens[..n])
      case Err(e) => Err(e)
      case Ok(rs) =>
        match m(tokens[n])
        case Err(e) => Err(e)
        case Ok(g) => Ok(rs + [g])
  }

  /** When matching fails, it fails with the exception of the first failing token. */
  lemma {:induction false} MatchAllFirstError(m: string -> Result<GeoInfo>, tokens: seq<string>) returns (i: nat)
    requires MatchAll(m, tokens).Err?
    ensures i < |tokens| && m(tokens[i]) == Err(MatchAll(m, tokens).error)
    ensures forall j :: 0 <= j < i ==> m(tokens[j]).Ok?
  {
    var n := |tokens| - 1;
    assert forall j :: 0 <= j < n ==> tokens[..n][j] == tokens[j];
    if MatchAll(m, tokens[..n]).Err? {
      i := MatchAllFirstError(m, tokens[..n]);
    } else {
      i := n;
    }
  }

  /** Once a prefix of the tokens fails, the whole list fails the same way. */
  lemma {:induction false} MatchAllErrorSticks(m: string -> Result<GeoInfo>, tokens: seq<string>, i: nat)
    requires i <= |tokens| && MatchAll(m, tokens[..i]).Err?
    ensures MatchAll(m, tokens) == MatchAll(m, tokens[..i])
    decreases |tokens|
  {
    if i < |tokens| {
      var n := |tokens| - 1;
      assert tokens[..n][..i] == tokens[..i];
      MatchAllErrorSticks(m, tokens[..n], i);
    } else {
      assert tokens[..i] == tokens;
    }
  }

  /** One more successful token extends the records of the prefix by its record. */
  lemma MatchAllExtend(m: string -> Result<GeoInfo>, tokens: seq<string>, i: nat, rs: seq<GeoInfo>)
    requires i < |tokens| && MatchAll(m, tokens[..i]) == Ok(rs) && m(tokens[i]).Ok?
    ensures MatchAll(m, tokens[..i + 1]) == Ok(rs + [m(tokens[i]).value])
  {
    assert tokens[..i + 1][..i] == tokens[..i];
  }

  /** The first failing token decides the result of the whole list. */
  lemma MatchAllStops(m: string -> Result<GeoInfo>, tokens: seq<string>, i: nat, rs: seq<GeoInfo>)
    requires i < |tokens| && MatchAll(m, tokens[..i]) == Ok(rs) && m(tokens[i]).Err?
    ensures MatchAll(m, tokens) == Err(m(tokens[i]).error)
  {
    assert tokens[..i + 1][..i] == tokens[..i];
    MatchAllErrorSticks(m, tokens, i + 1);
  }
}
