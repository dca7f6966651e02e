/** The bundled parser of public/index.js, whose part types are element-type
    bit masks: its `iterateTypes` (which starts at 8192), its rule table, and
    the bitmask type-building step of `_parseText2`. */
module MaskParser {
  import opened TypeBits
  import opened Delimiters
  import opened Matches
  import opened Rules
  import opened SpanParser
  import opened Layouts
  import opened PartInvariants

  /** `MAX_ELEMENT_TYPE = 8192 /* CustomStyle */`. */
  const MaxElementType: nat := 8192

  /** `iterateTypes(type)` of the bundle: the set flags of `type` from 8192
      down to 1, each once. */
  method IterateTypes(t: nat) returns (types: seq<nat>)
    ensures forall i :: 0 <= i < |types| ==> FlagOf(t, 13, types[i])
    ensures forall i, j :: 0 <= i < j < |types| ==> types[i] > types[j]
    ensures forall j: nat :: j <= 13 ==> (Pow2(j) in types <==> Bit(t, j))
    ensures Union(types) == And(t, 16383)
    ensures |types| <= 14
    ensures t == 0 ==> types == []
  {
    assert Pow2(13) == MaxElementType by {
      assert Pow2(4) == 16;
      assert Pow2(8) == 256;
    }
    types := IterateTypesFrom(t, 13);
    assert Ones(14) == 16383 by {
      assert Ones(4) == 15;
      assert Ones(8) == 255;
    }
    DescendNone(Pow2(13));
  }

  /** `match.b.singleType ? match.b.matchType : currentTypes | match.b.matchType`. */
  function MaskTyping(): Typing<nat, nat> {
    Typing(m => m, (a, m) => Or(a, m))
  }

  /** A single-type rule's part has exactly the rule's type; any other
      rule's part has every ambient bit and the rule's bits, and no others. */
  lemma MaskTypeShape(r: Rule<nat>, ambient: nat)
    ensures r.singleType ==> NewType(MaskTyping(), r, ambient) == r.matchType
    ensures !r.singleType ==>
      HasType(NewType(MaskTyping(), r, ambient), ambient) &&
      HasType(NewType(MaskTyping(), r, ambient), r.matchType) &&
      forall k: nat :: Bit(NewType(MaskTyping(), r, ambient), k) ==> Bit(ambient, k) || Bit(r.matchType, k)
  {
    if !r.singleType {
      OrHasBoth(ambient, r.matchType);
      forall k: nat
        ensures Bit(Or(ambient, r.matchType), k) == (Bit(ambient, k) || Bit(r.matchType, k))
      {
        BitOfOr(ambient, r.matchType, k);
      }
    }
  }

  /** `defaultMatchers()` as bundled: bold, header, hashtag, italic,
      username, hyperlink, quote, underline, code.  The quote rule strips
      three characters from each end and looks inwards. */
  function DefaultMatchers(engine: Engine): seq<Rule<nat>> {
    [ Rule(RegexMatcher(engine, RawBold), TripleBoth, 1, true, false, MinLength(RawBold)),
      Rule(RegexMatcher(engine, RawHeader), TripleBoth, 4, true, false, MinLength(RawHeader)),
      Rule(RegexMatcher(engine, RawHashtag), Single, 512, false, true, MinLength(RawHashtag)),
      Rule(RegexMatcher(engine, RawItalic), TripleBoth, 2, true, false, MinLength(RawItalic)),
      Rule(RegexMatcher(engine, RawMention), Single, 256, false, true, MinLength(RawMention)),
      Rule(RegexMatcher(engine, RawHyperLink), NoDelimiter, 128, false, true, MinLength(RawHyperLink)),
      Rule(RegexMatcher(engine, RawQuote), TripleBoth, 32, true, true, MinLength(RawQuote)),
      Rule(RegexMatcher(engine, RawUnderline), TripleBoth, 8, true, false, MinLength(RawUnderline)),
      Rule(RegexMatcher(engine, RawCode), TripleBoth, 16, true, false, MinLength(RawCode)) ]
  }

  /** The patterns of the table, in order. */
  function Patterns(): seq<Pattern> {
    [RawBold, RawHeader, RawHashtag, RawItalic, RawMention, RawHyperLink, RawQuote, RawUnderline, RawCode]
  }

  /** The table with the quote rule terminal and not stripped, like
      hyperlink, the other single-type rule that uses `noDelimiter`: a
      quote line is emitted as one part. */
  function FixedMatchers(engine: Engine): seq<Rule<nat>> {
    DefaultMatchers(engine)[6 := Rule(RegexMatcher(engine, RawQuote), NoDelimiter, 32, false, true, MinLength(RawQuote))]
  }

  lemma MatchersOfPatterns(engine: Engine, rules: seq<Rule<nat>>)
    requires EngineOk(engine)
    requires |rules| == |Patterns()|
    requires forall i :: 0 <= i < |rules| ==>
      rules[i].matcher == RegexMatcher(engine, Patterns()[i]) && rules[i].minLength == MinLength(Patterns()[i])
    ensures MatchersOk(rules)
  {
    forall i, s | 0 <= i < |rules|
      ensures rules[i].minLength >= 1 && MatchesOk(rules[i].matcher(s), s, rules[i].minLength)
    {
      RegexMatcherOk(engine, Patterns()[i], s);
    }
  }

  /** The bundled table's matchers are well behaved, but its quote rule
      breaks the termination condition: a three-character match stripped by
      `tripleDelimiterBoth` need not get shorter. */
  lemma DefaultMatchersFail(engine: Engine)
    requires EngineOk(engine)
    ensures MatchersOk(DefaultMatchers(engine))
    ensures !Terminates(DefaultMatchers(engine))
    ensures DefaultMatchers(engine)[6].lookInwards && !Shrinks(DefaultMatchers(engine)[6].delimiter, 3)
  {
    MatchersOfPatterns(engine, DefaultMatchers(engine));
    assert DefaultMatchers(engine)[6].lookInwards;
  }

  lemma FixedMatchersOk(engine: Engine)
    requires EngineOk(engine)
    ensures CatalogOk(FixedMatchers(engine))
  {
    MatchersOfPatterns(engine, FixedMatchers(engine));
  }

  /** Candidates with the same start are taken in the table's order: bold,
      header, hashtag, italic, mention, hyperlink, quote, underline, code. */
  lemma DefaultTieOrder(engine: Engine, text: string)
    requires EngineOk(engine)
    ensures MatchTypes(DefaultMatchers(engine)) == [1, 4, 512, 2, 256, 128, 32, 8, 16]
    ensures var cands := Candidates(DefaultMatchers(engine), text);
      forall i, j :: 0 <= i < j < |cands| && cands[i].m.start == cands[j].m.start ==>
        cands[i].rule < cands[j].rule
  {
    DefaultTypes(engine);
    MatchersOfPatterns(engine, DefaultMatchers(engine));
    TiesInTableOrder(DefaultMatchers(engine), text);
  }

  lemma DefaultTypes(engine: Engine)
    ensures MatchTypes(DefaultMatchers(engine)) == [1, 4, 512, 2, 256, 128, 32, 8, 16]
  {
    var ts := MatchTypes(DefaultMatchers(engine));
    var want: seq<nat> := [1, 4, 512, 2, 256, 128, 32, 8, 16];
    assert |ts| == |want|;
    forall i | 0 <= i < |ts|
      ensures ts[i] == want[i]
    {
      assert ts[i] == DefaultMatchers(engine)[i].matchType;
    }
  }

  /** The quote line `>| `. */
  const QuoteLine: string := ">| "

  /** What a regex engine reports for `>| `: the quote pattern matches the
      whole line, and there is no `#` or `@` to start a hashtag or mention.
      Every other pattern needs at least six characters. */
  predicate SeesQuoteLine(engine: Engine) {
    engine(RawQuote, QuoteLine, 0) == Some(Found(0, 3)) &&
    engine(RawHashtag, QuoteLine, 0) == None &&
    engine(RawMention, QuoteLine, 0) == None
  }

  /** A well-behaved engine finds nothing where the pattern's shortest
      match no longer fits. */
  lemma NoRoom(engine: Engine, p: Pattern, s: string, lastIndex: nat)
    requires EngineOk(engine) && |s| < lastIndex + MinLength(p)
    ensures engine(p, s, lastIndex) == None
  {
  }

  /** On `>| ` only the quote pattern matches, over the whole line. */
  lemma QuoteLineMatches(engine: Engine, p: Pattern)
    requires EngineOk(engine) && SeesQuoteLine(engine)
    ensures p != RawQuote ==> Collect(engine, p, QuoteLine, 0) == []
    ensures p == RawQuote ==> Collect(engine, p, QuoteLine, 0) == [Match(0, 3, QuoteLine)]
  {
    if p == RawQuote {
      NoRoom(engine, RawQuote, QuoteLine, 3);
    } else if p != RawHashtag && p != RawMention {
      NoRoom(engine, p, QuoteLine, 0);
    }
  }

  /** The only candidate in `>| ` is the quote match over the whole line. */
  lemma QuoteLineCandidates(engine: Engine, rules: seq<Rule<nat>>)
    requires EngineOk(engine) && SeesQuoteLine(engine)
    requires |rules| == |Patterns()|
    requires forall i :: 0 <= i < |rules| ==>
      rules[i].matcher == RegexMatcher(engine, Patterns()[i]) && rules[i].minLength == MinLength(Patterns()[i])
    ensures Candidates(rules, QuoteLine) == [Candidate(Match(0, 3, QuoteLine), 6)]
  {
    var s := QuoteLine;
    forall i | 0 <= i < |rules|
      ensures rules[i].matcher(s) == if i == 6 then [Match(0, 3, s)] else []
    {
      QuoteLineMatches(engine, Patterns()[i]);
    }
    var c := Candidate(Match(0, 3, s), 6);
    NothingCollected(rules, s, 6);
    assert Collected(rules, s, 7) == [c];
    assert Collected(rules, s, 8) == [c];
    assert Collected(rules, s, 9) == [c];
  }

  lemma {:induction false} NothingCollected(rules: seq<Rule<nat>>, s: string, k: nat)
    requires k <= |rules|
    requires forall i :: 0 <= i < k ==> rules[i].matcher(s) == []
    ensures Collected(rules, s, k) == []
  {
    if k > 0 {
      NothingCollected(rules, s, k - 1);
      assert Tag(rules[k - 1].matcher(s), k - 1) == [];
    }
  }

  /** Finding: with the bundled table, parsing `>| ` under any type calls the
      parser on `>| ` with type `Quote`, and that call calls it on exactly
      the same part again: the recursion never ends. */
  lemma BundledQuoteRecursesOnItself(engine: Engine, t: nat)
    requires EngineOk(engine) && SeesQuoteLine(engine)
    ensures MatchersOk(DefaultMatchers(engine))
    ensures InnerCalls(MaskTyping(), DefaultMatchers(engine), Part(QuoteLine, t)) == [Part(QuoteLine, 32)]
  {
    var rules := DefaultMatchers(engine);
    DefaultMatchersFail(engine);
    QuoteLineCandidates(engine, rules);
    var c := Candidate(Match(0, 3, QuoteLine), 6);
    assert Accepted([c], 0) == [c];
    assert QuoteLine[0..3] == QuoteLine;
    assert Strip(TripleBoth, QuoteLine) == QuoteLine;
    var part := MatchPart(MaskTyping(), rules, QuoteLine, t, c);
    assert part == Part(QuoteLine, 32);
    assert Calls(MaskTyping(), rules, QuoteLine, t, [c], 0) == [] + [part] + [];
  }

  /** A quote line inside bold: `***>| ***`. */
  const BoldQuoteLine: string := "***>| ***"

  /** What a regex engine reports for `***>| ***`: bold matches the whole
      text, and no other pattern matches (the quote pattern needs `>|` at the
      start of a line, and there is no `#` or `@`). */
  predicate SeesBoldQuoteLine(engine: Engine) {
    engine(RawBold, BoldQuoteLine, 0) == Some(Found(0, 9)) &&
    forall p :: p != RawBold ==> engine(p, BoldQuoteLine, 0) == None
  }

  lemma BoldQuoteCandidates(engine: Engine)
    requires EngineOk(engine) && SeesBoldQuoteLine(engine)
    ensures Candidates(DefaultMatchers(engine), BoldQuoteLine) == [Candidate(Match(0, 9, BoldQuoteLine), 0)]
  {
    var rules := DefaultMatchers(engine);
    var s := BoldQuoteLine;
    NoRoom(engine, RawBold, s, 9);
    forall i | 0 <= i < |rules|
      ensures rules[i].matcher(s) == if i == 0 then [Match(0, 9, s)] else []
    {
      assert rules[i].matcher == RegexMatcher(engine, Patterns()[i]);
    }
    var c := Candidate(Match(0, 9, s), 0);
    assert Collected(rules, s, 1) == [c];
    assert Collected(rules, s, 2) == [c];
    assert Collected(rules, s, 3) == [c];
    assert Collected(rules, s, 4) == [c];
    assert Collected(rules, s, 5) == [c];
    assert Collected(rules, s, 6) == [c];
    assert Collected(rules, s, 7) == [c];
    assert Collected(rules, s, 8) == [c];
    assert Collected(rules, s, 9) == [c];
  }

  /** The failure need not be at the top level: with the bundled table,
      bold around a quote line strips to `>| ` and parses it again, under
      the ambient type with the bold bit added, which is the self-call of
      `BundledQuoteRecursesOnItself`. */
  lemma BundledNestedQuoteRecurses(engine: Engine, t: nat)
    requires EngineOk(engine) && SeesBoldQuoteLine(engine)
    ensures MatchersOk(DefaultMatchers(engine))
    ensures InnerCalls(MaskTyping(), DefaultMatchers(engine), Part(BoldQuoteLine, t)) == [Part(QuoteLine, Or(t, 1))]
  {
    var rules := DefaultMatchers(engine);
    var s := BoldQuoteLine;
    DefaultMatchersFail(engine);
    BoldQuoteCandidates(engine);
    var c := Candidate(Match(0, 9, s), 0);
    assert Accepted([c], 0) == [c];
    assert s[0..9] == s;
    assert s[3..6] == QuoteLine;
    assert Strip(TripleBoth, s) == QuoteLine;
    var part := MatchPart(MaskTyping(), rules, s, t, c);
    assert part == Part(QuoteLine, Or(t, 1));
    assert Calls(MaskTyping(), rules, s, t, [c], 0) == [] + [part] + [];
  }

  /** The corrected table parses `>| ` into the single part `>| ` of type
      `Quote`, whatever the ambient type, and calls itself on nothing. */
  lemma FixedQuoteLine(engine: Engine, t: nat)
    requires EngineOk(engine) && SeesQuoteLine(engine)
    ensures CatalogOk(FixedMatchers(engine))
    ensures InnerCalls(MaskTyping(), FixedMatchers(engine), Part(QuoteLine, t)) == []
    ensures Parse(MaskTyping(), FixedMatchers(engine), Part(QuoteLine, t)) == [Part(QuoteLine, 32)]
  {
    FixedMatchersOk(engine);
    FixedQuoteCalls(engine, t);
    FixedQuoteParts(engine, t);
  }

  lemma FixedQuoteCalls(engine: Engine, t: nat)
    requires EngineOk(engine) && SeesQuoteLine(engine)
    ensures MatchersOk(FixedMatchers(engine))
    ensures InnerCalls(MaskTyping(), FixedMatchers(engine), Part(QuoteLine, t)) == []
  {
    var rules := FixedMatchers(engine);
    FixedMatchersOk(engine);
    QuoteLineCandidates(engine, rules);
    var c := Candidate(Match(0, 3, QuoteLine), 6);
    assert Accepted([c], 0) == [c];
    assert !rules[6].lookInwards;
    assert Calls(MaskTyping(), rules, QuoteLine, t, [c], 0) == [] + [] + [];
  }

  lemma FixedQuoteParts(engine: Engine, t: nat)
    requires EngineOk(engine) && SeesQuoteLine(engine)
    ensures CatalogOk(FixedMatchers(engine))
    ensures Parse(MaskTyping(), FixedMatchers(engine), Part(QuoteLine, t)) == [Part(QuoteLine, 32)]
  {
    var rules := FixedMatchers(engine);
    FixedMatchersOk(engine);
    QuoteLineCandidates(engine, rules);
    var c := Candidate(Match(0, 3, QuoteLine), 6);
    assert QuoteLine[0..3] == QuoteLine;
    var part := MatchPart(MaskTyping(), rules, QuoteLine, t, c);
    assert part == Part(QuoteLine, 32);
    assert MatchParts(MaskTyping(), rules, QuoteLine, t, c) == [part];
    assert Walk(MaskTyping(), rules, QuoteLine, t, [c], 0) == [] + [part] + Walk(MaskTyping(), rules, QuoteLine, t, [], 3);
  }

  /** The OR of the table's types. */
  function CatalogMask(rules: seq<Rule<nat>>): (m: nat)
    ensures forall i :: 0 <= i < |rules| ==> HasType(m, rules[i].matchType)
  {
    if rules == [] then 0
    else
      var rest := CatalogMask(rules[1..]);
      OrHasBoth(rules[0].matchType, rest);
      forall i | 0 < i < |rules|
        ensures HasType(Or(rules[0].matchType, rest), rules[i].matchType)
      {
        assert rules[i] == rules[1..][i - 1];
        HasTypeTransitive(Or(rules[0].matchType, rest), rest, rules[i].matchType);
      }
      Or(rules[0].matchType, rest)
  }

  /** Every part's type is made of ambient bits and bits of the table's
      types. */
  lemma BitsFromCatalog(rules: seq<Rule<nat>>, part: Part<nat>)
    requires CatalogOk(rules)
    ensures forall p :: p in Parse(MaskTyping(), rules, part) ==>
      HasType(Or(part.types, CatalogMask(rules)), p.types)
  {
    var limit := Or(part.types, CatalogMask(rules));
    var Q := (m: nat) => HasType(limit, m);
    OrHasBoth(part.types, CatalogMask(rules));
    forall i, q | 0 <= i < |rules| && Q(q)
      ensures Q(NewType(MaskTyping(), rules[i], q))
    {
      HasTypeTransitive(limit, CatalogMask(rules), rules[i].matchType);
      if !rules[i].singleType {
        OrWithin(limit, q, rules[i].matchType);
      }
    }
    PartsInherit(MaskTyping(), rules, Q, part);
  }

  /** Without single-type rules, every part keeps every ambient bit. */
  lemma AmbientBitsKept(rules: seq<Rule<nat>>, part: Part<nat>)
    requires CatalogOk(rules)
    requires forall i :: 0 <= i < |rules| ==> !rules[i].singleType
    ensures forall p :: p in Parse(MaskTyping(), rules, part) ==> HasType(p.types, part.types)
  {
    var Q := (m: nat) => HasType(m, part.types);
    forall i, q | 0 <= i < |rules| && Q(q)
      ensures Q(NewType(MaskTyping(), rules[i], q))
    {
      OrHasBoth(q, rules[i].matchType);
      HasTypeTransitive(Or(q, rules[i].matchType), q, part.types);
    }
    HasTypeIsInclusion(part.types, part.types);
    PartsInherit(MaskTyping(), rules, Q, part);
  }

  /** Some single-type rule's bits are all bits of `m`. */
  ghost predicate HasSingleBits(rules: seq<Rule<nat>>, m: nat) {
    exists i :: 0 <= i < |rules| && rules[i].singleType && HasType(m, rules[i].matchType)
  }

  /** In any table, every part keeps every ambient bit, or has all the bits
      of some single-type rule: a single-type rule replaces the mask and
      every other rule only adds bits. */
  lemma AmbientBitsOrSingle(rules: seq<Rule<nat>>, part: Part<nat>)
    requires CatalogOk(rules)
    ensures forall p :: p in Parse(MaskTyping(), rules, part) ==>
      HasType(p.types, part.types) || HasSingleBits(rules, p.types)
  {
    var Q := (m: nat) => HasType(m, part.types) || HasSingleBits(rules, m);
    forall i, q | 0 <= i < |rules| && Q(q)
      ensures Q(NewType(MaskTyping(), rules[i], q))
    {
      var r := rules[i];
      if r.singleType {
        HasTypeIsInclusion(r.matchType, r.matchType);
      } else {
        OrHasBoth(q, r.matchType);
        if HasType(q, part.types) {
          HasTypeTransitive(Or(q, r.matchType), q, part.types);
        } else {
          var j :| 0 <= j < |rules| && rules[j].singleType && HasType(q, rules[j].matchType);
          HasTypeTransitive(Or(q, r.matchType), q, rules[j].matchType);
        }
      }
    }
    HasTypeIsInclusion(part.types, part.types);
    PartsInherit(MaskTyping(), rules, Q, part);
  }

  /** The single-type rules of the corrected table are hashtag, mention,
      hyperlink and quote. */
  lemma FixedSingles(engine: Engine, i: nat)
    requires i < |FixedMatchers(engine)| && FixedMatchers(engine)[i].singleType
    ensures FixedMatchers(engine)[i].matchType in {512, 256, 128, 32}
  {
    var rules := FixedMatchers(engine);
    assert MatchTypes(rules) == [1, 4, 512, 2, 256, 128, 32, 8, 16];
    assert rules[i].matchType == MatchTypes(rules)[i];
  }

  /** With the corrected table, every part keeps every ambient bit, or is a
      hashtag, a mention, a hyperlink or a quote. */
  lemma FixedAmbientKept(engine: Engine, part: Part<nat>)
    requires EngineOk(engine)
    ensures CatalogOk(FixedMatchers(engine))
    ensures forall p :: p in Parse(MaskTyping(), FixedMatchers(engine), part) ==>
      HasType(p.types, part.types) || HasType(p.types, 512) || HasType(p.types, 256) ||
      HasType(p.types, 128) || HasType(p.types, 32)
  {
    var rules := FixedMatchers(engine);
    FixedMatchersOk(engine);
    AmbientBitsOrSingle(rules, part);
    forall p | p in Parse(MaskTyping(), rules, part) && !HasType(p.types, part.types)
      ensures HasType(p.types, 512) || HasType(p.types, 256) || HasType(p.types, 128) || HasType(p.types, 32)
    {
      var i :| 0 <= i < |rules| && rules[i].singleType && HasType(p.types, rules[i].matchType);
      FixedSingles(engine, i);
    }
  }
}
