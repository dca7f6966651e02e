/** Matches and the `RegexPatternMatcher` collection loop
    (src/index.ts:41-53, 75-92; public/index.js:129-141, 159-175).

    The regular expressions themselves are not re-implemented.  A regex
    engine is a parameter: given a pattern, the text and `lastIndex`, it
    returns the next match at or after `lastIndex`, or nothing.  What the
    parser relies on is only the contract `EngineOk`: a match lies inside the
    text, starts at or after `lastIndex`, and is at least as long as the
    shortest text its pattern can match. */
module Matches {
  import opened Delimiters

  datatype Option<T> = None | Some(value: T)

  /** `new Match(start, end, inputText)`. */
  datatype Match = Match(start: nat, end: nat, inputText: string) {
    /** `result()`: the matched text. */
    function Result(): (r: string)
      ensures start <= end <= |inputText| ==> r == inputText[start..end] && |r| == end - start
      ensures IsSlice(r, inputText)
    {
      SubstringIsSliceOf(inputText, start, end);
      Substring(inputText, start, end)
    }
  }

  /** The regular expressions of the rule tables. */
  datatype Pattern =
    | RawBold        // three `*`, any text, three `*`
    | RawItalic      // three `/`, any text, three `/`
    | RawUnderline   // three `_`, any text, three `_`
    | RawHeader      // three `#`, any text, three `#`
    | RawCode        // three `"`, any text, three `"` (public/index.js only)
    | RawHashtag     // `#` and one or more word characters
    | RawMention     // `@` and one or more word characters
    | RawQuote       // a line starting with `>|` and a white-space character
    | RawHyperLink   // `[`, text, `](`, text, `)`

  /** The length of the shortest text each pattern matches. */
  function MinLength(p: Pattern): (n: nat)
    ensures n >= 2
  {
    match p
    case RawBold => 6
    case RawItalic => 6
    case RawUnderline => 6
    case RawHeader => 6
    case RawCode => 6
    case RawHashtag => 2
    case RawMention => 2
    case RawQuote => 3
    case RawHyperLink => 6
  }

  /** What `regex.exec` reports: `matchArray.index` and `matchArray[0].length`. */
  datatype Found = Found(index: nat, length: nat)

  /** `regex.exec(text)` with `regex.lastIndex` set to the third argument. */
  type Engine = (Pattern, string, nat) -> Option<Found>

  /** The engine finds matches inside the text, at or after `lastIndex`, of at
      least the pattern's minimum length. */
  ghost predicate EngineOk(engine: Engine) {
    forall p: Pattern, s: string, lastIndex: nat ::
      engine(p, s, lastIndex).Some? ==>
        lastIndex <= engine(p, s, lastIndex).value.index &&
        engine(p, s, lastIndex).value.index + engine(p, s, lastIndex).value.length <= |s| &&
        engine(p, s, lastIndex).value.length >= MinLength(p)
  }

  /** The matches a matcher may return for `s`: all on `s`, each at least
      `minLength` long and inside `s`, in increasing order without overlap. */
  ghost predicate MatchesOk(ms: seq<Match>, s: string, minLength: nat) {
    (forall i :: 0 <= i < |ms| ==>
      ms[i].inputText == s && ms[i].start + minLength <= ms[i].end <= |s|) &&
    (forall i, j :: 0 <= i < j < |ms| ==> ms[i].end <= ms[j].start)
  }

  /** The matches the `exec` loop collects starting from `lastIndex`: each
      `exec` continues where the previous match ended.  A step that would not
      advance ends the list (JavaScript would repeat it forever; no pattern
      here matches the empty text). */
  function Collect(engine: Engine, p: Pattern, s: string, lastIndex: nat): seq<Match>
    decreases |s| - lastIndex
  {
    match engine(p, s, lastIndex)
    case None => []
    case Some(f) =>
      if lastIndex < f.index + f.length <= |s| then
        [Match(f.index, f.index + f.length, s)] + Collect(engine, p, s, f.index + f.length)
      else
        []
  }

  /** With a well-behaved engine the non-advancing guard never fires:
      collection goes on exactly until `exec` returns `null`. */
  lemma CollectFollowsEngine(engine: Engine, p: Pattern, s: string, lastIndex: nat)
    requires EngineOk(engine)
    ensures engine(p, s, lastIndex).None? ==> Collect(engine, p, s, lastIndex) == []
    ensures engine(p, s, lastIndex).Some? ==>
      var f := engine(p, s, lastIndex).value;
      Collect(engine, p, s, lastIndex) ==
        [Match(f.index, f.index + f.length, s)] + Collect(engine, p, s, f.index + f.length)
  {
  }

  /** Putting a match in front of matches that start at or after its end
      keeps the matcher contract. */
  lemma ConsMatchesOk(m: Match, rest: seq<Match>, s: string, minLength: nat, lo: nat)
    requires MatchesOk(rest, s, minLength)
    requires forall i :: 0 <= i < |rest| ==> m.end <= rest[i].start
    requires m.inputText == s && lo <= m.start && m.start + minLength <= m.end <= |s|
    ensures MatchesOk([m] + rest, s, minLength)
    ensures forall i :: 0 <= i < |[m] + rest| ==> lo <= ([m] + rest)[i].start
  {
    var ms := [m] + rest;
    forall i, j | 0 <= i < j < |ms|
      ensures ms[i].end <= ms[j].start
    {
      assert ms[j] == rest[j - 1];
      if i > 0 {
        assert ms[i] == rest[i - 1];
      }
    }
    forall i | 0 <= i < |ms|
      ensures ms[i].inputText == s && ms[i].start + minLength <= ms[i].end <= |s| && lo <= ms[i].start
    {
      if i > 0 {
        assert ms[i] == rest[i - 1];
      }
    }
  }

  /** The collected matches satisfy the matcher contract, and all start at or
      after `lastIndex`. */
  lemma {:induction false} CollectOk(engine: Engine, p: Pattern, s: string, lastIndex: nat)
    requires EngineOk(engine)
    ensures MatchesOk(Collect(engine, p, s, lastIndex), s, MinLength(p))
    ensures forall i :: 0 <= i < |Collect(engine, p, s, lastIndex)| ==>
      lastIndex <= Collect(engine, p, s, lastIndex)[i].start
    decreases |s| - lastIndex
  {
    match engine(p, s, lastIndex)
    case None =>
    case Some(f) =>
      if lastIndex < f.index + f.length <= |s| {
        var m := Match(f.index, f.index + f.length, s);
        var rest := Collect(engine, p, s, f.index + f.length);
        CollectOk(engine, p, s, f.index + f.length);
        assert Collect(engine, p, s, lastIndex) == [m] + rest;
        ConsMatchesOk(m, rest, s, MinLength(p), lastIndex);
      }
  }

  /** One turn of the `exec` loop: when the match found at `lastIndex`
      advances, appending it and continuing from its end keeps the
      collected-so-far plus the rest equal to the whole collection. */
  lemma CollectStep(engine: Engine, p: Pattern, s: string, lastIndex: nat,
                    done: seq<Match>, total: seq<Match>)
    requires done + Collect(engine, p, s, lastIndex) == total
    requires engine(p, s, lastIndex).Some?
    requires lastIndex < engine(p, s, lastIndex).value.index + engine(p, s, lastIndex).value.length <= |s|
    ensures var f := engine(p, s, lastIndex).value;
      (done + [Match(f.index, f.index + f.length, s)]) + Collect(engine, p, s, f.index + f.length) == total
  {
    var f := engine(p, s, lastIndex).value;
    var m := Match(f.index, f.index + f.length, s);
    assert Collect(engine, p, s, lastIndex) == [m] + Collect(engine, p, s, f.index + f.length);
  }

  /** The `exec` loop ends when `exec` returns nothing or a match that does
      not advance; nothing is left to collect from there. */
  lemma CollectEnd(engine: Engine, p: Pattern, s: string, lastIndex: nat)
    requires !(engine(p, s, lastIndex).Some? &&
               lastIndex < engine(p, s, lastIndex).value.index + engine(p, s, lastIndex).value.length <= |s|)
    ensures Collect(engine, p, s, lastIndex) == []
  {
  }

  /** The matcher closure of `RegexPatternMatcher`: reset `lastIndex` to 0,
      then push one `Match` per successful `exec`. */
  method CollectMatches(engine: Engine, p: Pattern, s: string) returns (matches: seq<Match>)
    ensures matches == Collect(engine, p, s, 0)
  {
    ghost var total := Collect(engine, p, s, 0);
    matches := [];
    var lastIndex: nat := 0;
    var found := engine(p, s, lastIndex);
    while found.Some? && lastIndex < found.value.index + found.value.length <= |s|
      invariant found == engine(p, s, lastIndex)
      invariant matches + Collect(engine, p, s, lastIndex) == total
      decreases |s| - lastIndex
    {
      CollectStep(engine, p, s, lastIndex, matches, total);
      matches := matches + [Match(found.value.index, found.value.index + found.value.length, s)];
      lastIndex := found.value.index + found.value.length;
      found := engine(p, s, lastIndex);
    }
    CollectEnd(engine, p, s, lastIndex);
    assert matches + [] == matches;
  }

  /** The matcher of a `RegexPatternMatcher` built on pattern `p`. */
  function RegexMatcher(engine: Engine, p: Pattern): string -> seq<Match> {
    s => Collect(engine, p, s, 0)
  }

  /** A regex matcher meets the matcher contract with its pattern's minimum
      length. */
  lemma RegexMatcherOk(engine: Engine, p: Pattern, s: string)
    requires EngineOk(engine)
    ensures MatchesOk(RegexMatcher(engine, p)(s), s, MinLength(p))
  {
    CollectOk(engine, p, s, 0);
  }
}
