/** The recursive span parser `_parseText` (src/index.ts:134-181) and its
    bundled twin `_parseText2` (public/index.js:201-246).

    `Parse`, `Walk` and `MatchParts` define the result; `ParseText` is the
    loop that builds it, proved equal to `Parse`.  Matched text is re-parsed
    only through `lookInwards` rules, whose stripped text is strictly
    shorter (`Terminates`); gaps are strictly shorter than the text they
    come from because every candidate is non-empty. */
module SpanParser {
  import opened Delimiters
  import opened Matches
  import opened Rules
  import opened Sorting

  /** All candidates of all rules for `text`, sorted by start. */
  function Candidates<T>(rules: seq<Rule<T>>, text: string): seq<Candidate> {
    SortByStart(Collected(rules, text, |rules|))
  }

  /** The sorted candidates are all valid and ordered by start, then by rule:
      among equal starts the rule listed first comes first. */
  lemma CandidatesOk<T>(rules: seq<Rule<T>>, text: string)
    requires MatchersOk(rules)
    ensures forall i :: 0 <= i < |Candidates(rules, text)| ==> CandidateOk(rules, text, Candidates(rules, text)[i])
    ensures StrictlyOrdered(Candidates(rules, text))
    ensures SortedByStart(Candidates(rules, text))
    ensures multiset(Candidates(rules, text)) == multiset(Collected(rules, text, |rules|))
  {
    var collected := Collected(rules, text, |rules|);
    CollectedOrder(rules, text, |rules|);
    CollectedTies(rules, text);
    SortStable(collected);
    SortSorted(collected);
    var cs := Candidates(rules, text);
    forall i | 0 <= i < |cs|
      ensures CandidateOk(rules, text, cs[i])
    {
      assert cs[i] in multiset(collected);
      var j :| 0 <= j < |collected| && collected[j] == cs[i];
    }
  }

  /** Sorted candidates with the same start are in table order. */
  lemma TiesInTableOrder<T>(rules: seq<Rule<T>>, text: string)
    requires MatchersOk(rules)
    ensures var cands := Candidates(rules, text);
      forall i, j :: 0 <= i < j < |cands| && cands[i].m.start == cands[j].m.start ==>
        cands[i].rule < cands[j].rule
  {
    CandidatesOk(rules, text);
  }

  /** Every sorted candidate is valid (the first part of `CandidatesOk`). */
  lemma CandidatesValid<T>(rules: seq<Rule<T>>, text: string)
    requires MatchersOk(rules)
    ensures forall i :: 0 <= i < |Candidates(rules, text)| ==> CandidateOk(rules, text, Candidates(rules, text)[i])
  {
    CandidatesOk(rules, text);
  }

  /** The parts `_parseText(part, rules)` returns. */
  function Parse<T, P>(ty: Typing<T, P>, rules: seq<Rule<T>>, part: Part<P>): seq<Part<P>>
    requires CatalogOk(rules)
    decreases |part.text|, 1
  {
    if rules == [] then
      [part]
    else
      CandidatesOk(rules, part.text);
      Walk(ty, rules, part.text, part.types, Candidates(rules, part.text), 0)
  }

  /** The parts the main loop emits from candidate list `cands` on, with the
      cursor at `cur`, followed by the trailing part. */
  function Walk<T, P>(ty: Typing<T, P>, rules: seq<Rule<T>>, text: string, ambient: P,
                      cands: seq<Candidate>, cur: nat): seq<Part<P>>
    requires CatalogOk(rules)
    requires forall i :: 0 <= i < |cands| ==> CandidateOk(rules, text, cands[i])
    requires cur <= |text|
    decreases |text|, 0, |cands|
  {
    if cands == [] then
      if cur < |text| then [Part(text[cur..], ambient)] else []
    else
      var c := cands[0];
      assert CandidateOk(rules, text, c);
      if cur > c.m.start then
        Walk(ty, rules, text, ambient, cands[1..], cur)
      else
        (if cur < c.m.start then Parse(ty, rules, Part(text[cur..c.m.start], ambient)) else [])
        + MatchParts(ty, rules, text, ambient, c)
        + Walk(ty, rules, text, ambient, cands[1..], c.m.end)
  }

  /** The part an accepted candidate strips to, under the ambient type. */
  function MatchPart<T, P>(ty: Typing<T, P>, rules: seq<Rule<T>>, text: string, ambient: P,
                           c: Candidate): (p: Part<P>)
    requires CandidateOk(rules, text, c)
  {
    var r := rules[c.rule];
    Part(Strip(r.delimiter, text[c.m.start..c.m.end]), NewType(ty, r, ambient))
  }

  /** The parts an accepted candidate contributes: its stripped part, parsed
      again when the rule looks inwards. */
  function MatchParts<T, P>(ty: Typing<T, P>, rules: seq<Rule<T>>, text: string, ambient: P,
                            c: Candidate): seq<Part<P>>
    requires CatalogOk(rules)
    requires CandidateOk(rules, text, c)
    decreases |text|, 0, 0
  {
    var r := rules[c.rule];
    var part := MatchPart(ty, rules, text, ambient, c);
    if r.lookInwards then
      StripShortens(r.delimiter, r.minLength, text[c.m.start..c.m.end]);
      Parse(ty, rules, part)
    else
      [part]
  }

  /** One step of the main loop over an accepted candidate: the gap before
      it, then its own parts, then the rest of the walk from its end. */
  lemma WalkAccepts<T, P>(ty: Typing<T, P>, rules: seq<Rule<T>>, text: string, ambient: P,
                          cands: seq<Candidate>, cur: nat)
    requires CatalogOk(rules)
    requires forall i :: 0 <= i < |cands| ==> CandidateOk(rules, text, cands[i])
    requires cur <= |text| && cands != [] && cur <= cands[0].m.start
    ensures Walk(ty, rules, text, ambient, cands, cur) ==
      (if cur < cands[0].m.start then Parse(ty, rules, Part(text[cur..cands[0].m.start], ambient)) else [])
      + MatchParts(ty, rules, text, ambient, cands[0])
      + Walk(ty, rules, text, ambient, cands[1..], cands[0].m.end)
  {
  }

  /** The main loop's step at candidate `k`, in terms of the walk from `k`. */
  lemma WalkStep<T, P>(ty: Typing<T, P>, rules: seq<Rule<T>>, text: string, ambient: P,
                       cands: seq<Candidate>, k: nat, cur: nat)
    requires CatalogOk(rules)
    requires forall i :: 0 <= i < |cands| ==> CandidateOk(rules, text, cands[i])
    requires cur <= |text| && k < |cands|
    ensures cur > cands[k].m.start ==>
      Walk(ty, rules, text, ambient, cands[k..], cur) == Walk(ty, rules, text, ambient, cands[k + 1..], cur)
    ensures cur <= cands[k].m.start ==>
      Walk(ty, rules, text, ambient, cands[k..], cur) ==
        (if cur < cands[k].m.start then Parse(ty, rules, Part(text[cur..cands[k].m.start], ambient)) else [])
        + MatchParts(ty, rules, text, ambient, cands[k])
        + Walk(ty, rules, text, ambient, cands[k + 1..], cands[k].m.end)
  {
    assert cands[k..][1..] == cands[k + 1..];
    if cur <= cands[k].m.start {
      WalkAccepts(ty, rules, text, ambient, cands[k..], cur);
    }
  }

  /** A candidate that starts before the cursor is skipped. */
  lemma SkipStep<T, P>(ty: Typing<T, P>, rules: seq<Rule<T>>, text: string, ambient: P,
                       cands: seq<Candidate>, k: nat, cur: nat, done: seq<Part<P>>)
    requires CatalogOk(rules)
    requires forall i :: 0 <= i < |cands| ==> CandidateOk(rules, text, cands[i])
    requires cur <= |text| && k < |cands| && cur > cands[k].m.start
    requires done + Walk(ty, rules, text, ambient, cands[k..], cur) == Walk(ty, rules, text, ambient, cands, 0)
    ensures done + Walk(ty, rules, text, ambient, cands[k + 1..], cur) == Walk(ty, rules, text, ambient, cands, 0)
  {
    WalkStep(ty, rules, text, ambient, cands, k, cur);
  }

  /** An accepted candidate appends the gap before it and its own parts,
      and the walk goes on from its end. */
  lemma AcceptStep<T, P>(ty: Typing<T, P>, rules: seq<Rule<T>>, text: string, ambient: P,
                         cands: seq<Candidate>, k: nat, cur: nat, done: seq<Part<P>>,
                         gap: seq<Part<P>>, hit: seq<Part<P>>)
    requires CatalogOk(rules)
    requires forall i :: 0 <= i < |cands| ==> CandidateOk(rules, text, cands[i])
    requires cur <= |text| && k < |cands| && cur <= cands[k].m.start
    requires done + Walk(ty, rules, text, ambient, cands[k..], cur) == Walk(ty, rules, text, ambient, cands, 0)
    requires cur < cands[k].m.start ==> gap == Parse(ty, rules, Part(text[cur..cands[k].m.start], ambient))
    requires cur == cands[k].m.start ==> gap == []
    requires hit == MatchParts(ty, rules, text, ambient, cands[k])
    ensures cands[k].m.end <= |text|
    ensures (done + gap + hit) + Walk(ty, rules, text, ambient, cands[k + 1..], cands[k].m.end)
         == Walk(ty, rules, text, ambient, cands, 0)
  {
    WalkStep(ty, rules, text, ambient, cands, k, cur);
    Regroup(done, gap, hit, Walk(ty, rules, text, ambient, cands[k + 1..], cands[k].m.end));
  }

  /** What an accepted candidate contributes: exactly its stripped part for a
      rule that does not look inwards, the parse of that part for one that
      does. */
  lemma HitParts<T, P>(ty: Typing<T, P>, rules: seq<Rule<T>>, text: string, ambient: P, c: Candidate)
    requires CatalogOk(rules) && CandidateOk(rules, text, c)
    ensures !rules[c.rule].lookInwards ==>
      MatchParts(ty, rules, text, ambient, c) == [MatchPart(ty, rules, text, ambient, c)]
    ensures rules[c.rule].lookInwards ==>
      |MatchPart(ty, rules, text, ambient, c).text| < |text| &&
      MatchParts(ty, rules, text, ambient, c) == Parse(ty, rules, MatchPart(ty, rules, text, ambient, c))
  {
    var r := rules[c.rule];
    if r.lookInwards {
      StripShortens(r.delimiter, r.minLength, text[c.m.start..c.m.end]);
    }
  }

  /** `_parseText(inputPart, patternMatchers)`. */
  method ParseText<T, P>(ty: Typing<T, P>, rules: seq<Rule<T>>, inputPart: Part<P>)
    returns (parts: seq<Part<P>>)
    requires CatalogOk(rules)
    ensures parts == Parse(ty, rules, inputPart)
    decreases |inputPart.text|, 1
  {
    if |rules| == 0 {
      return [inputPart];
    }
    var inputText := inputPart.text;
    var currentTypes := inputPart.types;
    var patternMatches: seq<Candidate> := [];
    for i := 0 to |rules|
      invariant patternMatches == Collected(rules, inputText, i)
    {
      patternMatches := patternMatches + Tag(rules[i].matcher(inputText), i);
    }
    patternMatches := SortByStart(patternMatches);
    CandidatesValid(rules, inputText);
    assert patternMatches == Candidates(rules, inputText);
    parts := [];
    var current: nat := 0;
    for k := 0 to |patternMatches|
      invariant current <= |inputText|
      invariant parts + Walk(ty, rules, inputText, currentTypes, patternMatches[k..], current)
             == Walk(ty, rules, inputText, currentTypes, patternMatches, 0)
    {
      var c := patternMatches[k];
      if current > c.m.start {
        SkipStep(ty, rules, inputText, currentTypes, patternMatches, k, current, parts);
        continue;
      }
      var gap: seq<Part<P>> := [];
      if current < c.m.start {
        gap := ParseText(ty, rules, Part(inputText[current..c.m.start], currentTypes));
      }
      var hit := ParseMatch(ty, rules, inputText, currentTypes, c);
      AcceptStep(ty, rules, inputText, currentTypes, patternMatches, k, current, parts, gap, hit);
      parts := parts + gap + hit;
      current := c.m.end;
    }
    if current < |inputText| {
      parts := parts + [Part(inputText[current..], currentTypes)];
    }
  }

  /** The loop body for an accepted match: build the part (stripped text,
      types extended by the rule) and parse it again when the rule looks
      inwards. */
  method ParseMatch<T, P>(ty: Typing<T, P>, rules: seq<Rule<T>>, text: string, ambient: P, c: Candidate)
    returns (hit: seq<Part<P>>)
    requires CatalogOk(rules) && CandidateOk(rules, text, c)
    ensures hit == MatchParts(ty, rules, text, ambient, c)
    decreases |text|, 0
  {
    var part := MatchPart(ty, rules, text, ambient, c);
    HitParts(ty, rules, text, ambient, c);
    if rules[c.rule].lookInwards {
      hit := ParseText(ty, rules, part);
    } else {
      hit := [part];
    }
  }

  /** With no rules, the input part is the whole result. */
  lemma EmptyCatalog<T, P>(ty: Typing<T, P>, part: Part<P>)
    ensures Parse(ty, [], part) == [part]
  {
  }

  /** With at least one rule, the empty text gives no parts: no candidate
      fits in it and there is no trailing text. */
  lemma EmptyText<T, P>(ty: Typing<T, P>, rules: seq<Rule<T>>, types: P)
    requires CatalogOk(rules) && rules != []
    ensures Parse(ty, rules, Part([], types)) == []
  {
    CandidatesOk(rules, []);
    FirstCandidateInside(rules, [], Candidates(rules, []));
  }

  lemma Regroup<X>(a: seq<X>, b: seq<X>, c: seq<X>, d: seq<X>)
    ensures a + b + c + d == a + (b + c + d)
  {
    assert a + b + c + d == a + (b + c) + d;
  }

  /** A valid candidate starts inside the text. */
  lemma FirstCandidateInside<T>(rules: seq<Rule<T>>, text: string, cs: seq<Candidate>)
    requires forall i :: 0 <= i < |cs| ==> CandidateOk(rules, text, cs[i])
    ensures cs != [] ==> cs[0].m.start < |text|
  {
    if cs != [] {
      assert CandidateOk(rules, text, cs[0]);
    }
  }
}
