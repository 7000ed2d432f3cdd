/**
  Python's insertion-ordered `dict` with string keys: the key order plus the key-value map.
  Assigning to a present key keeps its position; assigning to a new key appends it;
  `update` assigns the other dict's keys in its order.
*/
module OrderedDicts {
  import opened Strings

  datatype ODict<V> = ODict(keys: seq<string>, vals: map<string, V>)

  ghost predicate Valid<V>(d: ODict<V>) {
    NoDuplicates(d.keys) && (forall k :: k in d.vals <==> k in d.keys)
  }

  /** `{}` */
  function Empty<V>(): (r: ODict<V>)
    ensures Valid(r)
  {
    ODict([], map[])
  }

  /** `d[k] = v` */
  function Put<V>(d: ODict<V>, k: string, v: V): (r: ODict<V>)
    ensures Valid(d) ==> Valid(r)
    ensures r.vals == d.vals[k := v]
    ensures r.keys == if k in d.vals then d.keys else d.keys + [k]
  {
    ODict(if k in d.vals then d.keys else d.keys + [k], d.vals[k := v])
  }

  /** The keys of `ks` that `keep` accepts, in order. */
  function FilterKeys(ks: seq<string>, keep: string -> bool): (r: seq<string>)
    ensures forall k :: k in r <==> k in ks && keep(k)
    ensures NoDuplicates(ks) ==> NoDuplicates(r)
  {
    if ks == [] then []
    else
      assert ks == [ks[0]] + ks[1..];
      (if keep(ks[0]) then [ks[0]] else []) + FilterKeys(ks[1..], keep)
  }

  /** The keys of `ks` not yet present in `m`, in order: those an `update` appends. */
  function NewKeys<V>(ks: seq<string>, m: map<string, V>): (r: seq<string>)
    ensures forall k :: k in r <==> k in ks && k !in m
    ensures NoDuplicates(ks) ==> NoDuplicates(r)
  {
    if ks == [] then []
    else
      assert ks == [ks[0]] + ks[1..];
      (if ks[0] in m then [] else [ks[0]]) + NewKeys(ks[1..], m)
  }

  /**
    `d.update(o)`: every key of `o` gets `o`'s value, keys already in `d` keep their position,
    and the keys new to `d` are appended in `o`'s order.
  */
  function Update<V>(d: ODict<V>, o: ODict<V>): (r: ODict<V>)
    ensures Valid(d) && Valid(o) ==> Valid(r)
  {
    AppendNoDuplicates(d.keys, NewKeys(o.keys, d.vals));
    ODict(d.keys + NewKeys(o.keys, d.vals), d.vals + o.vals)
  }

  /**
    The overlay rule of `d.update(o)` for one key: the key is present when either dict has it,
    `o`'s value wins, a key only `d` has keeps its value, and the key order is `d`'s followed by
    the keys new to `d` in `o`'s order.
  */
  lemma UpdateEntry<V>(d: ODict<V>, o: ODict<V>, k: string)
    ensures Update(d, o).keys == d.keys + NewKeys(o.keys, d.vals)
    ensures k in Update(d, o).vals <==> k in d.vals || k in o.vals
    ensures k in o.vals ==> Update(d, o).vals[k] == o.vals[k]
    ensures k !in o.vals && k in d.vals ==> Update(d, o).vals[k] == d.vals[k]
  {
  }

  /** `del d[k]`, for a key that is present. */
  function Remove<V>(d: ODict<V>, k: string): (r: ODict<V>)
    ensures Valid(d) ==> Valid(r)
    ensures r.vals == d.vals - {k}
    ensures r.keys == FilterKeys(d.keys, x => x != k)
  {
    ODict(FilterKeys(d.keys, x => x != k), d.vals - {k})
  }

  /** `{k: d[k] for k in d if keep(k)}` */
  function Where<V>(d: ODict<V>, keep: string -> bool): (r: ODict<V>)
    ensures Valid(d) ==> Valid(r)
    ensures r.keys == FilterKeys(d.keys, keep)
    ensures r.vals == map k | k in d.vals && keep(k) :: d.vals[k]
  {
    ODict(FilterKeys(d.keys, keep), map k | k in d.vals && keep(k) :: d.vals[k])
  }

  /** `{}.update(d)` is a copy of `d`. */
  lemma UpdateEmpty<V>(d: ODict<V>)
    ensures Update(Empty(), d) == d
  {
    var e: map<string, V> := map[];
    NewKeysNone(d.keys, e);
    assert e + d.vals == d.vals;
  }

  lemma {:induction false} NewKeysNone<V>(ks: seq<string>, m: map<string, V>)
    requires forall k :: k in ks ==> k !in m
    ensures NewKeys(ks, m) == ks
    decreases |ks|
  {
    if ks != [] {
      assert ks[0] in ks;
      assert forall k :: k in ks[1..] ==> k in ks;
      NewKeysNone(ks[1..], m);
      assert ks == [ks[0]] + ks[1..];
    }
  }

  /** Which keys an `update` appends depends only on which keys the target already has. */
  lemma {:induction false} NewKeysSameKeys<V>(ks: seq<string>, m1: map<string, V>, m2: map<string, V>)
    requires m1.Keys == m2.Keys
    ensures NewKeys(ks, m1) == NewKeys(ks, m2)
    decreases |ks|
  {
    if ks != [] {
      NewKeysSameKeys(ks[1..], m1, m2);
    }
  }

  /** Dropping in advance the keys an `update` would not append changes nothing. */
  lemma {:induction false} NewKeysFiltered<V>(ks: seq<string>, keep: string -> bool, m: map<string, V>)
    requires forall k :: keep(k) <==> k !in m
    ensures NewKeys(FilterKeys(ks, keep), m) == NewKeys(ks, m)
    decreases |ks|
  {
    if ks != [] {
      NewKeysFiltered(ks[1..], keep, m);
      var rest := FilterKeys(ks[1..], keep);
      if keep(ks[0]) {
        var f := [ks[0]] + rest;
        assert FilterKeys(ks, keep) == f;
        assert f[0] == ks[0] && f[1..] == rest;
        assert NewKeys(f, m) == [ks[0]] + NewKeys(rest, m);
      } else {
        assert FilterKeys(ks, keep) == rest;
        assert NewKeys(ks, m) == NewKeys(ks[1..], m);
      }
    }
  }
}
