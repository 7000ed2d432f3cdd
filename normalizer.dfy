/**
  The normalizer: the display form and the lookup key of a raw place name.
  Transliteration (`unidecode`) and edit distance (`editdistance.eval`) are foreign
  libraries; the model receives them as the two functions of `Externals`.
*/
module Normalizer {
  import opened Strings

  datatype Externals = Externals(translit: string -> string, dist: (string, string) -> nat)

  /** `unidecode(s).lower().strip()`: the display form the gazetteer rows are cleaned to. */
  function Clean(ext: Externals, s: string): string {
    Strip(Lower(ext.translit(s)))
  }

  /** `re.sub('[^a-z]', '', unidecode(s).lower().strip())`: the lookup key of `s`. */
  function Normalize(ext: Externals, s: string): (k: string)
    ensures forall i :: 0 <= i < |k| ==> IsKeyChar(k[i])
  {
    KeepLetters(Clean(ext, s))
  }

  /**
    The key keeps every letter of the cleaned string, as often as it occurs there, and nothing
    else; `KeepLettersAppend` adds that the letters keep their order.
  */
  lemma NormalizeKeepsLetters(ext: Externals, s: string, c: char)
    ensures multiset(Normalize(ext, s))[c] == if IsKeyChar(c) then multiset(Clean(ext, s))[c] else 0
  {
    KeepLettersCount(Clean(ext, s), c);
  }

  predicate IsAscii(s: string) {
    forall i :: 0 <= i < |s| ==> s[i] as int < 128
  }

  /** What `unidecode` guarantees: ASCII output, and ASCII input passes through unchanged. */
  ghost predicate TranslitFixesAscii(ext: Externals) {
    (forall s :: IsAscii(ext.translit(s))) &&
    (forall s :: IsAscii(s) ==> ext.translit(s) == s)
  }

  lemma {:induction false} StripLeftSuffix(s: string) returns (k: nat)
    ensures k <= |s| && StripLeft(s) == s[k..]
    decreases |s|
  {
    if |s| > 0 && IsSpace(s[0]) {
      var k' := StripLeftSuffix(s[1..]);
      k := k' + 1;
      assert s[1..][k'..] == s[k..];
    } else {
      k := 0;
    }
  }

  lemma {:induction false} StripRightPrefix(s: string) returns (k: nat)
    ensures k <= |s| && StripRight(s) == s[..k]
    decreases |s|
  {
    if |s| > 0 && IsSpace(s[|s| - 1]) {
      k := StripRightPrefix(s[..|s| - 1]);
      assert s[..|s| - 1][..k] == s[..k];
    } else {
      k := |s|;
    }
  }

  /** A string already free of whitespace at both ends is left as it is by `strip()`. */
  lemma StripNoop(y: string)
    requires y == [] || (!IsSpace(y[0]) && !IsSpace(y[|y| - 1]))
    ensures Strip(y) == y
  {
  }

  /** `strip()` removes whitespace from both ends and nothing else: it is idempotent. */
  lemma StripIdempotent(s: string) returns (i: nat, j: nat)
    ensures i <= j <= |s| && Strip(s) == s[i..j]
    ensures Strip(Strip(s)) == Strip(s)
  {
    i := StripLeftSuffix(s);
    var k := StripRightPrefix(StripLeft(s));
    j := i + k;
    assert s[i..][..k] == s[i..j];
    StripRightKeepsFirst(StripLeft(s));
    StripNoop(Strip(s));
  }

  /** Trimming the right end of a string that starts with a non-space keeps that start. */
  lemma StripRightKeepsFirst(z: string)
    requires z == [] || !IsSpace(z[0])
    ensures StripRight(z) == [] || !IsSpace(StripRight(z)[0])
  {
    var k := StripRightPrefix(z);
    assert StripRight(z) == [] || StripRight(z)[0] == z[0];
  }

  lemma LowerIdempotentOnSlice(t: string, i: nat, j: nat)
    requires i <= j <= |t|
    ensures Lower(Lower(t)[i..j]) == Lower(t)[i..j]
  {
  }

  /**
    Cleaning is stable: a display value that has already been cleaned cleans and normalizes to
    what its raw value does. This is why re-looking up a stored display value finds its key.
  */
  lemma CleanStable(ext: Externals, raw: string)
    requires TranslitFixesAscii(ext)
    ensures Clean(ext, Clean(ext, raw)) == Clean(ext, raw)
    ensures Normalize(ext, Clean(ext, raw)) == Normalize(ext, raw)
  {
    var t := ext.translit(raw);
    var l := Lower(t);
    var i, j := StripIdempotent(l);
    var c := Clean(ext, raw);
    assert c == l[i..j];
    assert IsAscii(t);
    assert IsAscii(c) by {
      forall n | 0 <= n < |c| ensures c[n] as int < 128 {
        assert c[n] == l[i + n] == LowerChar(t[i + n]);
      }
    }
    assert ext.translit(c) == c;
    LowerIdempotentOnSlice(t, i, j);
  }
}
