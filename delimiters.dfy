/** JavaScript's `String.prototype.substring` and the three delimiter
    strippers of the rule tables (src/index.ts:94-95, public/index.js:176-178). */
module Delimiters {

  /** An index argument of `substring` after clamping into `[0, n]`. */
  function Clamp(i: int, n: nat): (r: nat)
    ensures r <= n
    ensures 0 <= i <= n ==> r == i
    ensures i < 0 ==> r == 0
    ensures i > n ==> r == n
  {
    if i < 0 then 0 else if i > n then n else i
  }

  /** `s.substring(a, b)`: both arguments are clamped into `[0, |s|]` and, if
      the first ends up larger, the two are swapped. */
  function Substring(s: string, a: int, b: int): string {
    var lo := Clamp(a, |s|);
    var hi := Clamp(b, |s|);
    if lo <= hi then s[lo..hi] else s[hi..lo]
  }

  /** Within bounds, `substring` is the slice. */
  lemma SubstringIsSlice(s: string, a: int, b: int)
    requires 0 <= a <= b <= |s|
    ensures Substring(s, a, b) == s[a..b]
  {
  }

  /** `substring` does not care about the order of its arguments. */
  lemma SubstringSwaps(s: string, a: int, b: int)
    ensures Substring(s, a, b) == Substring(s, b, a)
  {
    if Clamp(a, |s|) == Clamp(b, |s|) {
      assert s[Clamp(a, |s|)..Clamp(b, |s|)] == [];
    }
  }

  /** `r` occurs in `s` as a contiguous run. */
  ghost predicate IsSlice(r: string, s: string) {
    exists lo, hi :: 0 <= lo <= hi <= |s| && r == s[lo..hi]
  }

  /** A slice of a slice is a slice. */
  lemma SliceOfSlice(r: string, s: string, t: string)
    requires IsSlice(r, s) && IsSlice(s, t)
    ensures IsSlice(r, t)
  {
    var lo, hi :| 0 <= lo <= hi <= |s| && r == s[lo..hi];
    var lo', hi' :| 0 <= lo' <= hi' <= |t| && s == t[lo'..hi'];
    assert |r| == |t[lo' + lo..lo' + hi]|;
    forall i | 0 <= i < |r|
      ensures r[i] == t[lo' + lo..lo' + hi][i]
    {
      assert r[i] == s[lo + i];
    }
  }

  /** The result of `substring` is always a slice of the string. */
  lemma SubstringIsSliceOf(s: string, a: int, b: int)
    ensures IsSlice(Substring(s, a, b), s)
  {
    var lo := Clamp(a, |s|);
    var hi := Clamp(b, |s|);
    if lo <= hi {
      assert Substring(s, a, b) == s[lo..hi];
    } else {
      assert Substring(s, a, b) == s[hi..lo];
    }
  }

  /** How a rule removes its delimiters from the matched text. */
  datatype Delimiter =
    | TripleBoth   // `tripleDelimiterBoth`: `_.substring(3, _.length - 3)`
    | Single       // `singleDelimiter`: `_.substring(1)`
    | NoDelimiter  // `noDelimiter`: the identity

  /** The text a rule emits for the text `s` it matched. */
  function Strip(d: Delimiter, s: string): (r: string)
    ensures d == TripleBoth && |s| >= 6 ==> r == s[3..|s| - 3] && |r| == |s| - 6
    ensures d == TripleBoth && 3 < |s| < 6 ==> r == s[|s| - 3..3]
    ensures d == TripleBoth && |s| <= 3 ==> r == s
    ensures d == Single && |s| >= 1 ==> r == s[1..]
    ensures d == Single && s == [] ==> r == []
    ensures d == NoDelimiter ==> r == s
  {
    match d
    case TripleBoth => Substring(s, 3, |s| - 3)
    case Single => Substring(s, 1, |s|)
    case NoDelimiter => s
  }

  /** Every stripped text is a slice of the matched text. */
  lemma StripIsSlice(d: Delimiter, s: string)
    ensures IsSlice(Strip(d, s), s)
  {
    match d
    case TripleBoth => SubstringIsSliceOf(s, 3, |s| - 3);
    case Single => SubstringIsSliceOf(s, 1, |s|);
    case NoDelimiter => assert s == s[0..|s|];
  }

  /** Stripping with `d` shortens every text of at least `minLength`
      characters. */
  predicate Shrinks(d: Delimiter, minLength: nat) {
    match d
    case TripleBoth => minLength >= 4
    case Single => minLength >= 1
    case NoDelimiter => false
  }

  lemma StripShortens(d: Delimiter, minLength: nat, s: string)
    requires Shrinks(d, minLength) && |s| >= minLength
    ensures |Strip(d, s)| < |s|
  {
  }

  /** Stripping shortens every text of at least `minLength` characters. */
  ghost predicate ShortensAll(d: Delimiter, minLength: nat) {
    forall s: string :: |s| >= minLength ==> |Strip(d, s)| < |s|
  }

  /** `Shrinks` is exact: when it fails, some text of at least `minLength`
      characters strips to one of the same length. */
  lemma ShrinksExactly(d: Delimiter, minLength: nat)
    ensures Shrinks(d, minLength) <==> ShortensAll(d, minLength)
  {
    if Shrinks(d, minLength) {
      forall s: string | |s| >= minLength
        ensures |Strip(d, s)| < |s|
      {
        StripShortens(d, minLength, s);
      }
    } else {
      var w := Filler(if d == TripleBoth && minLength <= 3 then 3 else minLength);
      assert |w| >= minLength && |Strip(d, w)| == |w|;
    }
  }

  /** A text of `n` spaces. */
  function Filler(n: nat): (r: string)
    ensures |r| == n
  {
    seq(n, _ => ' ')
  }
}
