/** Pattern rules, parts and candidate matches, shared by both parser
    variants (src/index.ts:57-73, 108-127, 140-143; public/index.js:142-158,
    208-210).

    The two variants differ only in what a part's type is: a list of rule
    names in src/index.ts, a bit mask in public/index.js.  The parser is
    therefore written once, over a rule tag `T` (what `matchType` holds) and
    a part type `P`, with a `Typing` that says how a rule's type is formed. */
module Rules {
  import opened Delimiters
  import opened Matches

  /** `PatternMatcher`: a matcher, how it strips delimiters, its type and its
      two flags.  `minLength` is the length of the shortest match the matcher
      can report (the shortest text its regular expression matches). */
  datatype Rule<T> = Rule(
    matcher: string -> seq<Match>,
    delimiter: Delimiter,
    matchType: T,
    lookInwards: bool,
    singleType: bool,
    minLength: nat)

  /** `PatternMatchPart` / an `Element`: a piece of text and its type. */
  datatype Part<P> = Part(text: string, types: P)

  /** How a matched part's type is built: from the rule's type alone
      (`singleType`), or by adding the rule's type to the ambient type. */
  datatype Typing<!T, !P> = Typing(single: T -> P, extend: (P, T) -> P)

  /** The type of a part produced by rule `r` under the ambient type. */
  function NewType<T, P>(ty: Typing<T, P>, r: Rule<T>, ambient: P): P {
    if r.singleType then ty.single(r.matchType) else ty.extend(ambient, r.matchType)
  }

  /** The rules' types, in catalog order. */
  function MatchTypes<T>(rules: seq<Rule<T>>): (ts: seq<T>)
    ensures |ts| == |rules| && forall i :: 0 <= i < |rules| ==> ts[i] == rules[i].matchType
  {
    if rules == [] then [] else [rules[0].matchType] + MatchTypes(rules[1..])
  }

  /** Every matcher satisfies the matcher contract, with a minimum length of
      at least one character. */
  ghost predicate MatchersOk<T>(rules: seq<Rule<T>>) {
    forall i, s :: 0 <= i < |rules| ==>
      rules[i].minLength >= 1 && MatchesOk(rules[i].matcher(s), s, rules[i].minLength)
  }

  /** Every `lookInwards` rule strips a strictly shorter text from any text
      its matcher can report, so re-parsing it makes progress. */
  predicate Terminates<T>(rules: seq<Rule<T>>) {
    forall i :: 0 <= i < |rules| && rules[i].lookInwards ==>
      Shrinks(rules[i].delimiter, rules[i].minLength)
  }

  ghost predicate CatalogOk<T>(rules: seq<Rule<T>>) {
    MatchersOk(rules) && Terminates(rules)
  }

  /** `{ a: match, b: patternMatcher }`, with the matcher given by its
      position in the rule list. */
  datatype Candidate = Candidate(m: Match, rule: nat)

  /** A candidate of rule `c.rule` lying inside `text`, at least as long as
      the rule's minimum length and not empty. */
  predicate CandidateOk<T>(rules: seq<Rule<T>>, text: string, c: Candidate) {
    c.rule < |rules| &&
    c.m.start < c.m.end <= |text| &&
    c.m.start + rules[c.rule].minLength <= c.m.end
  }

  /** The matches of one rule, paired with that rule. */
  function Tag(ms: seq<Match>, rule: nat): (cs: seq<Candidate>)
    ensures |cs| == |ms|
    ensures forall j :: 0 <= j < |ms| ==> cs[j] == Candidate(ms[j], rule)
  {
    seq(|ms|, j requires 0 <= j < |ms| => Candidate(ms[j], rule))
  }

  /** The candidates pushed by the first `k` rules, rule by rule. */
  function Collected<T>(rules: seq<Rule<T>>, text: string, k: nat): seq<Candidate>
    requires k <= |rules|
  {
    if k == 0 then [] else Collected(rules, text, k - 1) + Tag(rules[k - 1].matcher(text), k - 1)
  }

  /** Collected candidates are valid, come rule by rule in catalog order and,
      within a rule, in the matcher's increasing, non-overlapping order. */
  lemma {:induction false} CollectedOrder<T>(rules: seq<Rule<T>>, text: string, k: nat)
    requires MatchersOk(rules) && k <= |rules|
    ensures forall i :: 0 <= i < |Collected(rules, text, k)| ==>
      CandidateOk(rules, text, Collected(rules, text, k)[i]) && Collected(rules, text, k)[i].rule < k
    ensures forall i, j :: 0 <= i < j < |Collected(rules, text, k)| ==>
      Collected(rules, text, k)[i].rule < Collected(rules, text, k)[j].rule ||
      (Collected(rules, text, k)[i].rule == Collected(rules, text, k)[j].rule &&
       Collected(rules, text, k)[i].m.end <= Collected(rules, text, k)[j].m.start)
  {
    if k > 0 {
      CollectedOrder(rules, text, k - 1);
      var front := Collected(rules, text, k - 1);
      var ms := rules[k - 1].matcher(text);
      var back := Tag(ms, k - 1);
      assert MatchesOk(ms, text, rules[k - 1].minLength);
      assert rules[k - 1].minLength >= 1;
      assert Collected(rules, text, k) == front + back;
      forall i | 0 <= i < |front + back|
        ensures CandidateOk(rules, text, (front + back)[i]) && (front + back)[i].rule < k
      {
        if i >= |front| {
          assert (front + back)[i] == Candidate(ms[i - |front|], k - 1);
        }
      }
      forall i, j | 0 <= i < j < |front + back|
        ensures (front + back)[i].rule < (front + back)[j].rule ||
          ((front + back)[i].rule == (front + back)[j].rule &&
           (front + back)[i].m.end <= (front + back)[j].m.start)
      {
        if j >= |front| {
          assert (front + back)[j] == Candidate(ms[j - |front|], k - 1);
          if i >= |front| {
            assert (front + back)[i] == Candidate(ms[i - |front|], k - 1);
          }
        }
      }
    }
  }

  /** Two collected candidates with the same start come from different
      rules, the earlier from the rule listed first. */
  lemma CollectedTies<T>(rules: seq<Rule<T>>, text: string)
    requires MatchersOk(rules)
    ensures var cs := Collected(rules, text, |rules|);
      forall i, j :: 0 <= i < j < |cs| && cs[i].m.start == cs[j].m.start ==> cs[i].rule < cs[j].rule
  {
    CollectedOrder(rules, text, |rules|);
  }
}
