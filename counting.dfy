/**
  The counting behind vertical resolution: `loc_list` (every `?`-piece of a column),
  `collections.Counter(loc_list).most_common()` and the values sharing the top count.
*/
module Counting {
  import opened Strings

  /** `loc_list`: the `?`-pieces of every field, field after field. */
  function SplitAll(fields: seq<string>): (r: seq<string>)
    ensures |r| >= |fields|
    ensures forall v :: v in r ==> '?' !in v
  {
    if fields == [] then []
    else
      SplitPiecesFree(fields[|fields| - 1], '?');
      SplitAll(fields[..|fields| - 1]) + Split(fields[|fields| - 1], '?')
  }

  /** A piece belongs to `loc_list` exactly when it is a piece of one of the fields. */
  lemma {:induction false} SplitAllValues(fields: seq<string>)
    ensures forall v :: v in SplitAll(fields) <==> exists j :: 0 <= j < |fields| && v in Split(fields[j], '?')
    decreases |fields|
  {
    if fields != [] {
      var n := |fields| - 1;
      var p, last := fields[..n], Split(fields[n], '?');
      assert SplitAll(fields) == SplitAll(p) + last;
      SplitAllValues(p);
      forall v ensures v in SplitAll(fields) <==> exists j :: 0 <= j < |fields| && v in Split(fields[j], '?') {
        assert v in SplitAll(p) + last <==> v in SplitAll(p) || v in last;
        if v in SplitAll(p) {
          var j :| 0 <= j < n && v in Split(p[j], '?');
          assert p[j] == fields[j];
        }
        if exists j :: 0 <= j < |fields| && v in Split(fields[j], '?') {
          var j :| 0 <= j < |fields| && v in Split(fields[j], '?');
          if j < n {
            assert p[j] == fields[j];
          }
        }
      }
    }
  }

  /** `Counter(xs)[v]`: how many times `v` occurs in `xs`. */
  function Count(xs: seq<string>, v: string): nat {
    if xs == [] then 0
    else Count(xs[..|xs| - 1], v) + (if xs[|xs| - 1] == v then 1 else 0)
  }

  /** A value is counted at least once exactly when it occurs. */
  lemma {:induction false} CountPositive(xs: seq<string>)
    ensures forall v :: v in xs <==> Count(xs, v) >= 1
    decreases |xs|
  {
    if xs != [] {
      var n := |xs| - 1;
      CountPositive(xs[..n]);
      assert xs == xs[..n] + [xs[n]];
    }
  }

  /** The largest count in `xs` of a value of `vs`; 0 when `vs` is empty. */
  function MaxCountOf(vs: seq<string>, xs: seq<string>): (m: nat)
    ensures forall v :: v in vs ==> Count(xs, v) <= m
    ensures vs != [] ==> exists v :: v in vs && Count(xs, v) == m
  {
    if vs == [] then 0
    else
      var p := vs[..|vs| - 1];
      var m := MaxCountOf(p, xs);
      var c := Count(xs, vs[|vs| - 1]);
      assert vs == p + [vs[|vs| - 1]];
      if c > m then c else m
  }

  /** The top count of `Counter(xs)`. */
  function MaxCount(xs: seq<string>): nat {
    MaxCountOf(FirstOccurrences(xs), xs)
  }

  /** The values of `vs` that occur exactly `c` times in `xs`, in the order of `vs`. */
  function WithCount(vs: seq<string>, xs: seq<string>, c: nat): (r: seq<string>)
    ensures forall v :: v in r <==> v in vs && Count(xs, v) == c
  {
    if vs == [] then []
    else
      var v := vs[|vs| - 1];
      assert vs == vs[..|vs| - 1] + [v];
      WithCount(vs[..|vs| - 1], xs, c) + (if Count(xs, v) == c then [v] else [])
  }

  /** The values of `vs` by decreasing count from `c` down to 1, ties in the order of `vs`. */
  function ByCount(vs: seq<string>, xs: seq<string>, c: nat): seq<string>
    decreases c
  {
    if c == 0 then [] else WithCount(vs, xs, c) + ByCount(vs, xs, c - 1)
  }

  /** One unfolding of `ByCount`, as a fact of its own so callers need not unfold it in place. */
  lemma ByCountUnfold(vs: seq<string>, xs: seq<string>, c: nat)
    requires c >= 1
    ensures ByCount(vs, xs, c) == WithCount(vs, xs, c) + ByCount(vs, xs, c - 1)
  {
  }

  /**
    The keys of `Counter(xs).most_common()`: the distinct values of `xs` by decreasing count,
    values of equal count in the order they were first met (the sort is stable).
  */
  function MostCommon(xs: seq<string>): seq<string> {
    ByCount(FirstOccurrences(xs), xs, MaxCount(xs))
  }

  /** The values that share the top count, in first-occurrence order. */
  function TopValues(xs: seq<string>): seq<string> {
    WithCount(FirstOccurrences(xs), xs, MaxCount(xs))
  }

  /** Picking the values of one count keeps a repeat-free sequence repeat-free. */
  lemma {:induction false} WithCountDistinct(vs: seq<string>, xs: seq<string>, c: nat)
    requires NoDuplicates(vs)
    ensures NoDuplicates(WithCount(vs, xs, c))
    decreases |vs|
  {
    if vs != [] {
      var p, v := vs[..|vs| - 1], vs[|vs| - 1];
      assert NoDuplicates(p);
      assert v !in p by {
        assert forall i :: 0 <= i < |p| ==> p[i] == vs[i];
      }
      WithCountDistinct(p, xs, c);
      AppendNoDuplicates(WithCount(p, xs, c), if Count(xs, v) == c then [v] else []);
    }
  }

  /** The blocks of `ByCount` hold different counts, so no value is listed twice. */
  lemma {:induction false} ByCountDistinct(vs: seq<string>, xs: seq<string>, c: nat)
    requires NoDuplicates(vs)
    ensures NoDuplicates(ByCount(vs, xs, c))
    decreases c
  {
    if c > 0 {
      var w, rest := WithCount(vs, xs, c), ByCount(vs, xs, c - 1);
      assert ByCount(vs, xs, c) == w + rest;
      ByCountDistinct(vs, xs, c - 1);
      WithCountDistinct(vs, xs, c);
      BlocksDisjoint(vs, xs, c);
      AppendNoDuplicates(w, rest);
    }
  }

  /** The block of count `c` shares no value with the blocks of lower counts. */
  lemma BlocksDisjoint(vs: seq<string>, xs: seq<string>, c: nat)
    requires c > 0
    ensures forall v :: v in ByCount(vs, xs, c - 1) ==> v !in WithCount(vs, xs, c)
  {
    forall v | v in ByCount(vs, xs, c - 1) ensures v !in WithCount(vs, xs, c) {
      ByCountAtMost(vs, xs, c - 1, v);
    }
  }

  /** A value listed by `ByCount(vs, xs, c)` occurs at most `c` times. */
  lemma ByCountAtMost(vs: seq<string>, xs: seq<string>, c: nat, v: string)
    requires v in ByCount(vs, xs, c)
    ensures Count(xs, v) <= c
  {
    ByCountValues(vs, xs, c);
  }

  lemma ByCountValues(vs: seq<string>, xs: seq<string>, c: nat)
    ensures forall v :: v in ByCount(vs, xs, c) <==> v in vs && 1 <= Count(xs, v) <= c
  {
    forall v ensures v in ByCount(vs, xs, c) <==> v in vs && 1 <= Count(xs, v) <= c {
      ByCountHas(vs, xs, c, v);
    }
  }

  /** One value is in the blocks down from `c` exactly when it occurs in `vs` between 1 and `c` times. */
  lemma {:induction false} ByCountHas(vs: seq<string>, xs: seq<string>, c: nat, v: string)
    ensures v in ByCount(vs, xs, c) <==> v in vs && 1 <= Count(xs, v) <= c
    decreases c
  {
    if c > 0 {
      ByCountHas(vs, xs, c - 1, v);
      var w, rest := WithCount(vs, xs, c), ByCount(vs, xs, c - 1);
      assert ByCount(vs, xs, c) == w + rest;
      assert v in w + rest <==> v in w || v in rest;
    }
  }

  /** Counts in `xs` never increase along `s`. */
  ghost predicate NonIncreasing(s: seq<string>, xs: seq<string>) {
    forall i, j :: 0 <= i < j < |s| ==> Count(xs, s[i]) >= Count(xs, s[j])
  }

  /** Two non-increasing runs, the first at or above `c` and the second at or below, make one. */
  lemma ConcatNonIncreasing(w: seq<string>, rest: seq<string>, xs: seq<string>, c: nat)
    requires forall v :: v in w ==> Count(xs, v) >= c
    requires forall v :: v in rest ==> Count(xs, v) <= c
    requires NonIncreasing(w, xs) && NonIncreasing(rest, xs)
    ensures NonIncreasing(w + rest, xs)
  {
    var s := w + rest;
    forall i, j | 0 <= i < j < |s| ensures Count(xs, s[i]) >= Count(xs, s[j]) {
      if j < |w| {
        assert s[i] == w[i] && s[j] == w[j];
      } else if i < |w| {
        assert s[i] == w[i] && w[i] in w;
        assert s[j] == rest[j - |w|] && rest[j - |w|] in rest;
      } else {
        assert s[i] == rest[i - |w|] && s[j] == rest[j - |w|];
      }
    }
  }

  lemma WithCountNonIncreasing(vs: seq<string>, xs: seq<string>, c: nat)
    ensures NonIncreasing(WithCount(vs, xs, c), xs)
  {
    var w := WithCount(vs, xs, c);
    forall i, j | 0 <= i < j < |w| ensures Count(xs, w[i]) >= Count(xs, w[j]) {
      assert w[i] in w && w[j] in w;
    }
  }

  /** Counts never increase along `ByCount`. */
  lemma {:induction false} ByCountDecreasing(vs: seq<string>, xs: seq<string>, c: nat)
    ensures NonIncreasing(ByCount(vs, xs, c), xs)
    decreases c
  {
    if c > 0 {
      var w := WithCount(vs, xs, c);
      var rest := ByCount(vs, xs, c - 1);
      assert NonIncreasing(w + rest, xs) by {
        assert forall v :: v in rest ==> Count(xs, v) <= c by {
          ByCountValues(vs, xs, c - 1);
        }
        ByCountDecreasing(vs, xs, c - 1);
        WithCountNonIncreasing(vs, xs, c);
        ConcatNonIncreasing(w, rest, xs, c);
      }
      ByCountUnfold(vs, xs, c);
    }
  }

  /** Every value of a non-empty `xs` has a count between 1 and the top count. */
  lemma CountBounds(xs: seq<string>)
    ensures forall v :: v in xs ==> 1 <= Count(xs, v) <= MaxCount(xs)
    ensures xs != [] ==> exists v :: v in xs && Count(xs, v) == MaxCount(xs)
  {
    CountPositive(xs);
    assert xs != [] ==> xs[0] in FirstOccurrences(xs);
  }

  /**
    `most_common()` lists each distinct value of `xs` exactly once, by non-increasing count,
    and when `xs` is not empty its first entry has the top count.
  */
  lemma MostCommonSpec(xs: seq<string>)
    ensures forall v :: v in MostCommon(xs) <==> v in xs
    ensures NoDuplicates(MostCommon(xs))
    ensures forall i, j :: 0 <= i < j < |MostCommon(xs)| ==>
      Count(xs, MostCommon(xs)[i]) >= Count(xs, MostCommon(xs)[j])
    ensures xs != [] ==> |MostCommon(xs)| > 0 && Count(xs, MostCommon(xs)[0]) == MaxCount(xs)
  {
    CountBounds(xs);
    ByCountValues(FirstOccurrences(xs), xs, MaxCount(xs));
    ByCountDistinct(FirstOccurrences(xs), xs, MaxCount(xs));
    ByCountDecreasing(FirstOccurrences(xs), xs, MaxCount(xs));
    if xs != [] {
      MostCommonHead(xs);
    }
  }

  lemma MostCommonHead(xs: seq<string>)
    requires xs != []
    ensures |MostCommon(xs)| > 0 && Count(xs, MostCommon(xs)[0]) == MaxCount(xs)
  {
    var vs := FirstOccurrences(xs);
    var m := MaxCount(xs);
    CountBounds(xs);
    var v :| v in xs && Count(xs, v) == m;
    var w := WithCount(vs, xs, m);
    assert v in w;
    assert m >= 1;
    ByCountUnfold(vs, xs, m);
    var s := ByCount(vs, xs, m);
    assert s[0] == w[0] && w[0] in w;
  }

  /** The top values are exactly the values of `xs` no other value outnumbers. */
  lemma TopValuesSpec(xs: seq<string>)
    ensures forall v :: v in TopValues(xs) <==> v in xs && forall w :: w in xs ==> Count(xs, w) <= Count(xs, v)
    ensures xs != [] ==> |TopValues(xs)| > 0
  {
    CountBounds(xs);
    if xs != [] {
      var v :| v in xs && Count(xs, v) == MaxCount(xs);
      assert v in TopValues(xs);
    }
  }

  lemma {:induction false} WithCountAppend(a: seq<string>, b: seq<string>, xs: seq<string>, c: nat)
    ensures WithCount(a + b, xs, c) == WithCount(a, xs, c) + WithCount(b, xs, c)
    decreases |b|
  {
    if b == [] {
      assert a + b == a;
    } else {
      var n := |b| - 1;
      assert (a + b)[..|a + b| - 1] == a + b[..n];
      WithCountAppend(a, b[..n], xs, c);
    }
  }

  lemma {:induction false} WithCountAll(ws: seq<string>, xs: seq<string>, c: nat)
    requires forall v :: v in ws ==> Count(xs, v) == c
    ensures WithCount(ws, xs, c) == ws
    decreases |ws|
  {
    if ws != [] {
      var n := |ws| - 1;
      var init := ws[..n];
      assert Count(xs, ws[n]) == c by {
        assert ws[n] in ws;
      }
      assert forall v :: v in init ==> Count(xs, v) == c by {
        forall v | v in init ensures Count(xs, v) == c {
          assert v in ws;
        }
      }
      calc {
        WithCount(ws, xs, c);
        WithCount(init, xs, c) + [ws[n]];
        { WithCountAll(init, xs, c); }
        init + [ws[n]];
        ws;
      }
    }
  }

  lemma {:induction false} WithCountNone(ws: seq<string>, xs: seq<string>, c: nat)
    requires forall v :: v in ws ==> Count(xs, v) != c
    ensures WithCount(ws, xs, c) == []
    decreases |ws|
  {
    if ws != [] {
      var n := |ws| - 1;
      var init := ws[..n];
      assert Count(xs, ws[n]) != c by {
        assert ws[n] in ws;
      }
      assert forall v :: v in init ==> Count(xs, v) != c by {
        forall v | v in init ensures Count(xs, v) != c {
          assert v in ws;
        }
      }
      WithCountNone(init, xs, c);
      assert WithCount(ws, xs, c) == WithCount(init, xs, c) + [];
    }
  }

  /**
    Keeping the entries of `most_common()` whose count equals the first entry's count gives the
    top values.
  */
  lemma FilterMostCommon(xs: seq<string>)
    ensures WithCount(MostCommon(xs), xs, MaxCount(xs)) == TopValues(xs)
  {
    CountBounds(xs);
    if xs == [] {
      assert FirstOccurrences(xs) == [];
    } else {
      assert xs[0] in xs;
      FilterByCount(FirstOccurrences(xs), xs, MaxCount(xs));
    }
  }

  /** Keeping the count-`c` values of `ByCount(vs, xs, c)` keeps exactly its first block. */
  lemma FilterByCount(vs: seq<string>, xs: seq<string>, c: nat)
    requires c >= 1
    ensures WithCount(ByCount(vs, xs, c), xs, c) == WithCount(vs, xs, c)
  {
    var w := WithCount(vs, xs, c);
    var rest := ByCount(vs, xs, c - 1);
    calc {
      WithCount(ByCount(vs, xs, c), xs, c);
      { ByCountUnfold(vs, xs, c); }
      WithCount(w + rest, xs, c);
      { WithCountAppend(w, rest, xs, c); }
      WithCount(w, xs, c) + WithCount(rest, xs, c);
      { WithCountAll(w, xs, c); ByCountValues(vs, xs, c - 1); WithCountNone(rest, xs, c); }
      w + [];
    }
    assert w + [] == w;
  }
}
