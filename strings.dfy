/**
  Python string operations the engine relies on: lower-casing, stripping, the default
  `[^a-z]` key filter, `str.split`/`str.join` on one separator character, substring `in`,
  code-point ordering, `sorted(set(...))`, and the canonical `?`-joined ambiguity field.
*/
module Strings {

  // ---------------------------------------------------------------------------
  // Case, whitespace and the key filter
  // ---------------------------------------------------------------------------

  /** `str.lower()` on one character; only ASCII letters are mapped. */
  function LowerChar(c: char): char {
    if 'A' <= c <= 'Z' then (c as int + 32) as char else c
  }

  /** `str.lower()`, restricted to ASCII case mapping. */
  function Lower(s: string): (r: string)
    ensures |r| == |s|
    ensures forall i :: 0 <= i < |s| ==> r[i] == LowerChar(s[i])
  {
    seq(|s|, i requires 0 <= i < |s| => LowerChar(s[i]))
  }

  /** The characters `str.isspace()` accepts. */
  predicate IsSpace(c: char) {
    var n := c as int;
    n == 0x20 || 0x09 <= n <= 0x0d || 0x1c <= n <= 0x1f || n == 0x85 || n == 0xa0 ||
    n == 0x1680 || 0x2000 <= n <= 0x200a || n == 0x2028 || n == 0x2029 ||
    n == 0x202f || n == 0x205f || n == 0x3000
  }

  function StripLeft(s: string): (r: string)
    ensures r == [] || !IsSpace(r[0])
    decreases |s|
  {
    if |s| > 0 && IsSpace(s[0]) then StripLeft(s[1..]) else s
  }

  function StripRight(s: string): (r: string)
    ensures r == [] || !IsSpace(r[|r| - 1])
    decreases |s|
  {
    if |s| > 0 && IsSpace(s[|s| - 1]) then StripRight(s[..|s| - 1]) else s
  }

  /** `str.strip()` with no argument. */
  function Strip(s: string): string {
    StripRight(StripLeft(s))
  }

  predicate IsKeyChar(c: char) {
    'a' <= c <= 'z'
  }

  /** `re.sub('[^a-z]', '', s)`: deletes every character outside `a`-`z`. */
  function KeepLetters(s: string): (r: string)
    ensures |r| <= |s|
    ensures forall i :: 0 <= i < |r| ==> IsKeyChar(r[i])
  {
    if s == [] then []
    else
      (if IsKeyChar(s[0]) then [s[0]] else []) + KeepLetters(s[1..])
  }

  /** One character is kept exactly when it is a letter `a`-`z`. */
  lemma KeepLettersChar(c: char)
    ensures KeepLetters([c]) == if IsKeyChar(c) then [c] else []
  {
    assert [c][1..] == [];
  }

  /**
    Deleting characters works piece by piece: the letters of a concatenation are the letters of
    its first part followed by those of its second, so the kept letters stay in their order.
  */
  lemma {:induction false} KeepLettersAppend(a: string, b: string)
    ensures KeepLetters(a + b) == KeepLetters(a) + KeepLetters(b)
    decreases |a|
  {
    if a == [] {
      assert a + b == b;
    } else {
      assert (a + b)[0] == a[0] && (a + b)[1..] == a[1..] + b;
      KeepLettersAppend(a[1..], b);
    }
  }

  /** Every letter `a`-`z` is kept as often as it occurs, and nothing else is kept. */
  lemma {:induction false} KeepLettersCount(s: string, c: char)
    ensures multiset(KeepLetters(s))[c] == if IsKeyChar(c) then multiset(s)[c] else 0
    decreases |s|
  {
    if s != [] {
      assert s == [s[0]] + s[1..];
      KeepLettersCount(s[1..], c);
    }
  }

  /** The key filter leaves a string of letters alone, so filtering a key again is a no-op. */
  lemma {:induction false} KeepLettersFixesKeys(s: string)
    requires forall i :: 0 <= i < |s| ==> IsKeyChar(s[i])
    ensures KeepLetters(s) == s
  {
    if s != [] {
      KeepLettersFixesKeys(s[1..]);
    }
  }

  // ---------------------------------------------------------------------------
  // str.split(sep) and sep.join(parts)
  // ---------------------------------------------------------------------------

  /** `s.split(sep)` for a one-character separator: always at least one piece. */
  function Split(s: string, sep: char): (r: seq<string>)
    ensures |r| >= 1
    decreases |s|
  {
    if s == [] then [""]
    else
      var rest := Split(s[1..], sep);
      if s[0] == sep then [""] + rest
      else [[s[0]] + rest[0]] + rest[1..]
  }

  /** No piece of a split holds the separator. */
  lemma {:induction false} SplitPiecesFree(s: string, sep: char)
    ensures forall p :: p in Split(s, sep) ==> sep !in p
    decreases |s|
  {
    if s != [] {
      SplitPiecesFree(s[1..], sep);
      var rest := Split(s[1..], sep);
      if s[0] != sep {
        assert rest[0] in rest;
        forall p | p in Split(s, sep) ensures sep !in p {
          if p != [s[0]] + rest[0] {
            assert p in rest[1..];
          }
        }
      }
    }
  }

  /** `sep.join(parts)`. */
  function Join(parts: seq<string>, sep: char): string
    decreases |parts|
  {
    if |parts| == 0 then ""
    else if |parts| == 1 then parts[0]
    else parts[0] + [sep] + Join(parts[1..], sep)
  }

  /** Joining the pieces of a split gives back the string. */
  lemma {:induction false} JoinSplit(s: string, sep: char)
    ensures Join(Split(s, sep), sep) == s
    decreases |s|
  {
    if s != [] {
      var rest := Split(s[1..], sep);
      JoinSplit(s[1..], sep);
      if s[0] == sep {
        assert Split(s, sep) == [""] + rest;
        assert ([""] + rest)[1..] == rest;
      } else {
        var r := Split(s, sep);
        assert r == [[s[0]] + rest[0]] + rest[1..];
        if |rest| == 1 {
          assert r == [[s[0]] + rest[0]];
        } else {
          assert r[1..] == rest[1..];
          assert Join(rest, sep) == rest[0] + [sep] + Join(rest[1..], sep);
        }
        assert s == [s[0]] + s[1..];
      }
    }
  }

  /** A string without the separator is its own single piece. */
  lemma {:induction false} SplitNoSep(s: string, sep: char)
    requires sep !in s
    ensures Split(s, sep) == [s]
    decreases |s|
  {
    if s != [] {
      SplitNoSep(s[1..], sep);
      assert s == [s[0]] + s[1..];
    }
  }

  /** A separator-free string followed by the separator splits off as the first piece. */
  lemma {:induction false} SplitAfterPiece(p: string, t: string, sep: char)
    requires sep !in p
    ensures Split(p + [sep] + t, sep) == [p] + Split(t, sep)
    decreases |p|
  {
    var u := p + [sep] + t;
    if p == [] {
      assert u[0] == sep && u[1..] == t;
    } else {
      assert u[0] == p[0] && u[1..] == p[1..] + [sep] + t;
      assert sep !in p[1..] by {
        assert forall c :: c in p[1..] ==> c in p;
      }
      SplitAfterPiece(p[1..], t, sep);
      assert p == [p[0]] + p[1..];
    }
  }

  /** Splitting a join of separator-free parts gives back the parts. */
  lemma {:induction false} SplitJoin(parts: seq<string>, sep: char)
    requires |parts| >= 1
    requires forall p :: p in parts ==> sep !in p
    ensures Split(Join(parts, sep), sep) == parts
    decreases |parts|
  {
    if |parts| == 1 {
      SplitNoSep(parts[0], sep);
    } else {
      assert parts[0] in parts;
      assert forall p :: p in parts[1..] ==> p in parts;
      SplitJoin(parts[1..], sep);
      SplitAfterPiece(parts[0], Join(parts[1..], sep), sep);
      assert parts == [parts[0]] + parts[1..];
    }
  }

  // ---------------------------------------------------------------------------
  // Substring `in`
  // ---------------------------------------------------------------------------

  predicate StartsWith(s: string, prefix: string) {
    |prefix| <= |s| && s[..|prefix|] == prefix
  }

  /** Python's `needle in hay` on strings: a substring test. */
  predicate Contains(hay: string, needle: string)
    decreases |hay|
  {
    StartsWith(hay, needle) || (|hay| > 0 && Contains(hay[1..], needle))
  }

  lemma {:induction false} ContainsInSuffix(a: string, b: string, needle: string)
    requires Contains(b, needle)
    ensures Contains(a + b, needle)
    decreases |a|
  {
    if a == [] {
      assert a + b == b;
    } else {
      assert (a + b)[1..] == a[1..] + b;
      ContainsInSuffix(a[1..], b, needle);
    }
  }

  /** Every part of a joined field is a substring of it, so a set member always passes a substring test. */
  lemma {:induction false} JoinContainsPart(parts: seq<string>, sep: char, i: nat)
    requires i < |parts|
    ensures Contains(Join(parts, sep), parts[i])
    decreases |parts|
  {
    if i == 0 {
      if |parts| > 1 {
        assert (parts[0] + [sep] + Join(parts[1..], sep))[..|parts[0]|] == parts[0];
      } else {
        assert parts[0][..|parts[0]|] == parts[0];
      }
    } else {
      JoinContainsPart(parts[1..], sep, i - 1);
      ContainsInSuffix(parts[0] + [sep], Join(parts[1..], sep), parts[i]);
      assert parts[0] + [sep] + Join(parts[1..], sep) == (parts[0] + [sep]) + Join(parts[1..], sep);
    }
  }

  // ---------------------------------------------------------------------------
  // Code-point order on strings and sorted(set(...))
  // ---------------------------------------------------------------------------

  /** Python's `a < b` on strings: lexicographic by code point. */
  predicate Less(a: string, b: string)
    decreases |a|
  {
    |b| > 0 && (|a| == 0 || a[0] < b[0] || (a[0] == b[0] && Less(a[1..], b[1..])))
  }

  lemma {:induction false} LessIrreflexive(a: string)
    ensures !Less(a, a)
    decreases |a|
  {
    if |a| > 0 {
      LessIrreflexive(a[1..]);
    }
  }

  lemma {:induction false} LessTransitive(a: string, b: string, c: string)
    requires Less(a, b) && Less(b, c)
    ensures Less(a, c)
    decreases |a|
  {
    if |a| > 0 && a[0] == b[0] && b[0] == c[0] {
      LessTransitive(a[1..], b[1..], c[1..]);
    }
  }

  lemma {:induction false} LessTotal(a: string, b: string)
    requires a != b
    ensures Less(a, b) || Less(b, a)
    decreases |a|
  {
    if |a| > 0 && |b| > 0 && a[0] == b[0] {
      assert a == [a[0]] + a[1..] && b == [b[0]] + b[1..];
      LessTotal(a[1..], b[1..]);
    }
  }

  ghost predicate StrictlySorted(s: seq<string>) {
    forall i, j :: 0 <= i < j < |s| ==> Less(s[i], s[j])
  }

  /** The head of a strictly sorted sequence is below everything in its tail. */
  lemma SortedHeadTail(s: seq<string>)
    requires StrictlySorted(s) && |s| > 0
    ensures StrictlySorted(s[1..])
    ensures forall y :: y in s[1..] ==> Less(s[0], y)
    ensures s[0] !in s[1..]
  {
    LessIrreflexive(s[0]);
  }

  lemma PrependSmallest(h: string, t: seq<string>)
    requires StrictlySorted(t)
    requires forall y :: y in t ==> Less(h, y)
    ensures StrictlySorted([h] + t)
  {
    var s := [h] + t;
    forall i, j | 0 <= i < j < |s| ensures Less(s[i], s[j]) {
      if i == 0 {
        assert s[j] == t[j - 1];
      } else {
        assert s[i] == t[i - 1] && s[j] == t[j - 1];
      }
    }
  }

  lemma LessThanAll(x: string, r: seq<string>)
    requires StrictlySorted(r) && |r| > 0 && Less(x, r[0])
    ensures forall y :: y in r ==> Less(x, y)
  {
    forall y | y in r ensures Less(x, y) {
      var j :| 0 <= j < |r| && r[j] == y;
      if j > 0 {
        LessTransitive(x, r[0], y);
      }
    }
  }

  /** Inserting into a strictly sorted sequence of distinct strings. */
  function Insert(x: string, r: seq<string>): (res: seq<string>)
    requires StrictlySorted(r)
    ensures StrictlySorted(res)
    ensures forall y :: y in res <==> y == x || y in r
    decreases |r|
  {
    if r == [] then [x]
    else if x == r[0] then r
    else if Less(x, r[0]) then
      LessThanAll(x, r);
      PrependSmallest(x, r);
      [x] + r
    else
      LessTotal(x, r[0]);
      SortedHeadTail(r);
      var rest := Insert(x, r[1..]);
      PrependSmallest(r[0], rest);
      assert r == [r[0]] + r[1..];
      [r[0]] + rest
  }

  /** `sorted(list(set(xs)))`: the distinct values of `xs` in increasing order. */
  function SortedSet(xs: seq<string>): (r: seq<string>)
    ensures StrictlySorted(r)
    ensures forall y :: y in r <==> y in xs
  {
    if xs == [] then []
    else
      assert xs == xs[..|xs| - 1] + [xs[|xs| - 1]];
      Insert(xs[|xs| - 1], SortedSet(xs[..|xs| - 1]))
  }

  /** There is only one strictly sorted sequence with a given set of elements. */
  lemma {:induction false} SortedUnique(a: seq<string>, b: seq<string>)
    requires StrictlySorted(a) && StrictlySorted(b)
    requires forall y :: y in a <==> y in b
    ensures a == b
    decreases |a|
  {
    assert |b| > 0 ==> b[0] in b;
    if a != [] {
      assert a[0] in a;
      assert b != [];
      assert b[0] in b;
      SortedHeadTail(a);
      SortedHeadTail(b);
      if a[0] != b[0] {
        assert a[0] in b[1..];
        assert b[0] in a[1..];
        LessTransitive(a[0], b[0], a[0]);
        LessIrreflexive(a[0]);
      }
      forall y ensures y in a[1..] <==> y in b[1..] {
        assert a == [a[0]] + a[1..] && b == [b[0]] + b[1..];
        assert y in a[1..] <==> y in a && y != a[0];
        assert y in b[1..] <==> y in b && y != b[0];
      }
      SortedUnique(a[1..], b[1..]);
      assert a == [a[0]] + a[1..] && b == [b[0]] + b[1..];
    }
  }

  /** A strictly sorted sequence is its own sorted set. */
  lemma SortedSetOfSorted(q: seq<string>)
    requires StrictlySorted(q)
    ensures SortedSet(q) == q
  {
    SortedUnique(SortedSet(q), q);
  }

  // ---------------------------------------------------------------------------
  // Distinctness, first occurrences, non-empty values
  // ---------------------------------------------------------------------------

  ghost predicate NoDuplicates(s: seq<string>) {
    forall i, j :: 0 <= i < j < |s| ==> s[i] != s[j]
  }

  /** Two repeat-free sequences with no common value concatenate without repeats. */
  lemma AppendNoDuplicates(a: seq<string>, b: seq<string>)
    ensures NoDuplicates(a) && NoDuplicates(b) && (forall k :: k in b ==> k !in a) ==> NoDuplicates(a + b)
  {
    var s := a + b;
    if NoDuplicates(a) && NoDuplicates(b) && (forall k :: k in b ==> k !in a) {
      forall i, j | 0 <= i < j < |s| ensures s[i] != s[j] {
        if i < |a| && j >= |a| {
          assert s[j] == b[j - |a|] && s[j] in b;
        }
      }
    }
  }

  /** The distinct values of `xs` in the order of their first occurrence. */
  function FirstOccurrences(xs: seq<string>): (r: seq<string>)
    ensures forall y :: y in r <==> y in xs
    ensures NoDuplicates(r)
  {
    if xs == [] then []
    else
      var p := FirstOccurrences(xs[..|xs| - 1]);
      assert xs == xs[..|xs| - 1] + [xs[|xs| - 1]];
      if xs[|xs| - 1] in p then p else p + [xs[|xs| - 1]]
  }

  /** The values of `xs` that are not the empty string, in order. */
  function NonEmpty(xs: seq<string>): (r: seq<string>)
    ensures forall y :: y in r <==> y in xs && y != ""
  {
    if xs == [] then []
    else
      assert xs == [xs[0]] + xs[1..];
      (if xs[0] == "" then [] else [xs[0]]) + NonEmpty(xs[1..])
  }

  // ---------------------------------------------------------------------------
  // The canonical form of an ambiguity field
  // ---------------------------------------------------------------------------

  /** The `?`-join of the distinct non-empty `?`-separated values of `field`, sorted. */
  function Canonical(field: string): string {
    Join(SortedSet(NonEmpty(Split(field, '?'))), '?')
  }

  lemma NonEmptyOfNonEmpty(q: seq<string>)
    requires forall v :: v in q ==> v != ""
    ensures NonEmpty(q) == q
  {
    if q != [] {
      assert q[0] in q;
      assert forall v :: v in q[1..] ==> v in q;
      NonEmptyOfNonEmpty(q[1..]);
      assert q == [q[0]] + q[1..];
    }
  }

  /**
    The values of a canonical field are exactly the non-empty values of the original field,
    and the empty canonical field means the original field had no non-empty value.
  */
  lemma CanonicalValues(field: string)
    ensures Canonical(field) == "" ==> forall v :: v in Split(field, '?') ==> v == ""
    ensures Canonical(field) != "" ==>
      forall v :: v in Split(Canonical(field), '?') <==> v != "" && v in Split(field, '?')
  {
    var q := SortedSet(NonEmpty(Split(field, '?')));
    SplitPiecesFree(field, '?');
    if q == [] {
      assert Canonical(field) == "";
    } else {
      SplitJoin(q, '?');
      assert q[0] in q;
      assert |Canonical(field)| >= |q[0]| by {
        if |q| > 1 {
          assert Canonical(field) == q[0] + ['?'] + Join(q[1..], '?');
        }
      }
    }
  }

  /** Canonicalising a canonical field changes nothing. */
  lemma CanonicalIdempotent(field: string)
    ensures Canonical(Canonical(field)) == Canonical(field)
  {
    var q := SortedSet(NonEmpty(Split(field, '?')));
    SplitPiecesFree(field, '?');
    if q == [] {
      assert Split("", '?') == [""];
      assert NonEmpty([""]) == [];
    } else {
      SplitJoin(q, '?');
      NonEmptyOfNonEmpty(q);
      SortedSetOfSorted(q);
    }
  }
}
