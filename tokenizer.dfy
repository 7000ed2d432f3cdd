/**
  The tokenizer of `Geostring.__init__`: every occurrence of one of the default delimiters
  `,` `;` `|` `&` ` and ` `/` `\` is rewritten to `,` (one regular-expression substitution,
  leftmost match first), and the result is split on `,`.
*/
module Tokenizer {
  import opened Strings

  /** The one-character default delimiters. */
  predicate IsSingleDelimiter(c: char) {
    c == ',' || c == ';' || c == '|' || c == '&' || c == '/' || c == '\\'
  }

  /** The one multi-character default delimiter. */
  const And: string := " and "

  /**
    `re.sub(',|;|\||&| and |/|\\\\', ',', s)`. No one-character delimiter is a space, so at
    each position at most one alternative matches.
  */
  function ReplaceDelimiters(s: string): (r: string)
    ensures |r| == 0 <==> |s| == 0
    ensures forall i :: 0 <= i < |r| ==> r[i] == ',' || !IsSingleDelimiter(r[i])
    decreases |s|
  {
    if s == [] then []
    else if IsSingleDelimiter(s[0]) then [','] + ReplaceDelimiters(s[1..])
    else if StartsWith(s, And) then [','] + ReplaceDelimiters(s[|And|..])
    else [s[0]] + ReplaceDelimiters(s[1..])
  }

  /** A prefix of the rewritten string that holds no `,` was copied from the input. */
  lemma {:induction false} CommaFreePrefixCopied(t: string, w: string)
    requires ',' !in w
    requires StartsWith(ReplaceDelimiters(t), w)
    ensures StartsWith(t, w)
    decreases |w|
  {
    if w != [] {
      var r := ReplaceDelimiters(t);
      assert r[0] == w[0];
      assert !IsSingleDelimiter(t[0]) && !StartsWith(t, And);
      assert r == [t[0]] + ReplaceDelimiters(t[1..]);
      assert forall c :: c in w[1..] ==> c in w;
      assert StartsWith(ReplaceDelimiters(t[1..]), w[1..]) by {
        assert ReplaceDelimiters(t[1..])[..|w| - 1] == r[1..][..|w| - 1] == w[1..];
      }
      CommaFreePrefixCopied(t[1..], w[1..]);
      assert t[..|w|] == [t[0]] + t[1..][..|w| - 1];
    }
  }

  /** After the substitution no ` and ` is left anywhere in the string. */
  lemma {:induction false} NoAndRemains(s: string)
    ensures forall i :: 0 <= i <= |ReplaceDelimiters(s)| ==> !StartsWith(ReplaceDelimiters(s)[i..], And)
    decreases |s|
  {
    var r := ReplaceDelimiters(s);
    if s != [] {
      var rest := if IsSingleDelimiter(s[0]) then s[1..]
                  else if StartsWith(s, And) then s[|And|..]
                  else s[1..];
      NoAndRemains(rest);
      var rr := ReplaceDelimiters(rest);
      assert r == [r[0]] + rr;
      forall i | 0 <= i <= |r| ensures !StartsWith(r[i..], And) {
        if i > 0 {
          assert r[i..] == rr[i - 1..];
        } else if StartsWith(r, And) {
          assert r[0] == ' ';
          assert !IsSingleDelimiter(s[0]) && !StartsWith(s, And);
          var w := "and ";
          assert StartsWith(rr, w) by {
            assert rr[..|w|] == r[1..|And|];
          }
          CommaFreePrefixCopied(s[1..], w);
        }
      }
    }
  }

  /** The raw tokens of an input: none for the empty input, else the `,`-pieces of the rewrite. */
  function Tokens(input: string): seq<string> {
    if input == "" then [] else Split(ReplaceDelimiters(input), ',')
  }

  /**
    A non-empty input gives at least one token (empty ones included), no token holds a
    delimiter character, and re-joining the tokens with `,` gives back the rewritten input.
  */
  lemma TokensRejoin(input: string)
    ensures input == "" <==> Tokens(input) == []
    ensures input != "" ==> Join(Tokens(input), ',') == ReplaceDelimiters(input)
    ensures forall t, i :: t in Tokens(input) && 0 <= i < |t| ==> !IsSingleDelimiter(t[i])
  {
    if input != "" {
      var r := ReplaceDelimiters(input);
      JoinSplit(r, ',');
      SplitPiecesFree(r, ',');
      forall t, i | t in Tokens(input) && 0 <= i < |t| ensures !IsSingleDelimiter(t[i]) {
        var k :| 0 <= k < |Tokens(input)| && Tokens(input)[k] == t;
        JoinContainsPart(Tokens(input), ',', k);
        var j := ContainsAt(r, t);
        assert t[i] == r[j + i];
        assert t[i] != ',';
      }
    }
  }

  /** Any comma-free piece of the rewritten string occurs in the input as it stands. */
  lemma {:induction false} CommaFreeCopied(t: string, w: string)
    requires ',' !in w
    requires Contains(ReplaceDelimiters(t), w)
    ensures Contains(t, w)
    decreases |t|
  {
    var r := ReplaceDelimiters(t);
    if StartsWith(r, w) {
      CommaFreePrefixCopied(t, w);
    } else {
      var k := if !IsSingleDelimiter(t[0]) && StartsWith(t, And) then |And| else 1;
      var rest := t[k..];
      assert r[1..] == ReplaceDelimiters(rest);
      CommaFreeCopied(rest, w);
      assert t == t[..k] + rest;
      ContainsInSuffix(t[..k], rest, w);
    }
  }

  /** Every token is a delimiter-free stretch of the raw input, copied as it stands. */
  lemma TokensCopied(input: string, n: nat)
    requires n < |Tokens(input)|
    ensures Contains(input, Tokens(input)[n])
    ensures forall i :: 0 <= i < |Tokens(input)[n]| ==> !IsSingleDelimiter(Tokens(input)[n][i])
  {
    var ts := Tokens(input);
    TokensRejoin(input);
    JoinContainsPart(ts, ',', n);
    assert ts[n] in ts;
    assert ',' !in ts[n] by {
      forall i | 0 <= i < |ts[n]| ensures ts[n][i] != ',' {
        assert !IsSingleDelimiter(ts[n][i]);
      }
    }
    CommaFreeCopied(input, ts[n]);
  }

  /** A substring occurs at some position. */
  lemma {:induction false} ContainsAt(hay: string, needle: string) returns (j: nat)
    requires Contains(hay, needle)
    ensures j + |needle| <= |hay| && hay[j..j + |needle|] == needle
    decreases |hay|
  {
    if StartsWith(hay, needle) {
      j := 0;
    } else {
      var j' := ContainsAt(hay[1..], needle);
      j := j' + 1;
      assert hay[1..][j'..j' + |needle|] == hay[j..j + |needle|];
    }
  }
}
