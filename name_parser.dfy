/** The parser of src/index.ts, whose part types are lists of rule names:
    its rule table, its type-building step, and `PatternMatchPart.isEqual`
    with `areListsEqual`. */
module NameParser {
  import opened Delimiters
  import opened Matches
  import opened Rules
  import opened SpanParser
  import opened PartInvariants

  /** `[match.b.matchType]` for a single-type rule,
      `[...currentTypes, match.b.matchType]` otherwise. */
  function NameTyping(): Typing<string, seq<string>> {
    Typing(n => [n], (a: seq<string>, n) => a + [n])
  }

  /** A single-type rule's part has exactly the rule's name; any other
      rule's part has the ambient names followed by the rule's name. */
  lemma NameTypeShape(r: Rule<string>, ambient: seq<string>)
    ensures r.singleType ==> NewType(NameTyping(), r, ambient) == [r.matchType]
    ensures !r.singleType ==>
      |NewType(NameTyping(), r, ambient)| == |ambient| + 1 &&
      ambient <= NewType(NameTyping(), r, ambient) &&
      NewType(NameTyping(), r, ambient)[|ambient|] == r.matchType
  {
  }

  /** `defaultMatchers()`: bold, header, hashtag, italic, username. */
  function DefaultMatchers(engine: Engine): seq<Rule<string>> {
    [ Rule(RegexMatcher(engine, RawBold), TripleBoth, "bold", true, false, MinLength(RawBold)),
      Rule(RegexMatcher(engine, RawHeader), TripleBoth, "header", true, false, MinLength(RawHeader)),
      Rule(RegexMatcher(engine, RawHashtag), Single, "hashtag", false, true, MinLength(RawHashtag)),
      Rule(RegexMatcher(engine, RawItalic), TripleBoth, "italic", true, false, MinLength(RawItalic)),
      Rule(RegexMatcher(engine, RawMention), Single, "username", false, true, MinLength(RawMention)) ]
  }

  /** The default table is well formed: its matchers keep the matcher
      contract and its `lookInwards` rules all strip three characters from
      each end of a match at least six long, so parsing terminates. */
  lemma DefaultMatchersOk(engine: Engine)
    requires EngineOk(engine)
    ensures CatalogOk(DefaultMatchers(engine))
  {
    var rules := DefaultMatchers(engine);
    forall i, s | 0 <= i < |rules|
      ensures rules[i].minLength >= 1 && MatchesOk(rules[i].matcher(s), s, rules[i].minLength)
    {
      var p := [RawBold, RawHeader, RawHashtag, RawItalic, RawMention][i];
      assert rules[i].matcher == RegexMatcher(engine, p);
      RegexMatcherOk(engine, p, s);
    }
  }

  /** Candidates with the same start are taken in the table's order: bold,
      header, hashtag, italic, username. */
  lemma DefaultTieOrder(engine: Engine, text: string)
    requires EngineOk(engine)
    ensures MatchTypes(DefaultMatchers(engine)) == ["bold", "header", "hashtag", "italic", "username"]
    ensures var cands := Candidates(DefaultMatchers(engine), text);
      forall i, j :: 0 <= i < j < |cands| && cands[i].m.start == cands[j].m.start ==>
        cands[i].rule < cands[j].rule
  {
    DefaultNames(engine);
    DefaultMatchersOk(engine);
    TiesInTableOrder(DefaultMatchers(engine), text);
  }

  lemma DefaultNames(engine: Engine)
    ensures MatchTypes(DefaultMatchers(engine)) == ["bold", "header", "hashtag", "italic", "username"]
  {
    var ts := MatchTypes(DefaultMatchers(engine));
    var want := ["bold", "header", "hashtag", "italic", "username"];
    assert |ts| == |want|;
    forall i | 0 <= i < |ts|
      ensures ts[i] == want[i]
    {
      assert ts[i] == DefaultMatchers(engine)[i].matchType;
    }
  }

  /** Every name on a part is an ambient name or the name of a rule. */
  lemma NamesFromCatalog(rules: seq<Rule<string>>, part: Part<seq<string>>)
    requires CatalogOk(rules)
    ensures forall p :: p in Parse(NameTyping(), rules, part) ==>
      forall x :: x in p.types ==> x in part.types || x in MatchTypes(rules)
  {
    var Q := (l: seq<string>) => forall x :: x in l ==> x in part.types || x in MatchTypes(rules);
    forall i, q | 0 <= i < |rules| && Q(q)
      ensures Q(NewType(NameTyping(), rules[i], q))
    {
      assert rules[i].matchType == MatchTypes(rules)[i];
    }
    PartsInherit(NameTyping(), rules, Q, part);
  }

  /** Without single-type rules, every part's names start with the input's
      names: nesting only appends. */
  lemma AmbientPrefixKept(rules: seq<Rule<string>>, part: Part<seq<string>>)
    requires CatalogOk(rules)
    requires forall i :: 0 <= i < |rules| ==> !rules[i].singleType
    ensures forall p :: p in Parse(NameTyping(), rules, part) ==> part.types <= p.types
  {
    var Q := (l: seq<string>) => part.types <= l;
    forall i, q | 0 <= i < |rules| && Q(q)
      ensures Q(NewType(NameTyping(), rules[i], q))
    {
      assert q <= q + [rules[i].matchType];
    }
    PartsInherit(NameTyping(), rules, Q, part);
  }

  /** `l` starts with the name of a single-type rule. */
  ghost predicate StartsWithSingleName(rules: seq<Rule<string>>, l: seq<string>) {
    |l| > 0 && exists i :: 0 <= i < |rules| && rules[i].singleType && rules[i].matchType == l[0]
  }

  /** In any table, every part's names either start with the input's names
      or start afresh with the name of a single-type rule: a single-type rule
      replaces the names and every other rule only appends. */
  lemma AmbientPrefixOrSingle(rules: seq<Rule<string>>, part: Part<seq<string>>)
    requires CatalogOk(rules)
    ensures forall p :: p in Parse(NameTyping(), rules, part) ==>
      part.types <= p.types || StartsWithSingleName(rules, p.types)
  {
    var Q := (l: seq<string>) => part.types <= l || StartsWithSingleName(rules, l);
    forall i, q | 0 <= i < |rules| && Q(q)
      ensures Q(NewType(NameTyping(), rules[i], q))
    {
      var r := rules[i];
      if r.singleType {
        assert [r.matchType][0] == r.matchType;
      } else {
        assert q <= q + [r.matchType];
        if q != [] {
          assert (q + [r.matchType])[0] == q[0];
        }
      }
    }
    PartsInherit(NameTyping(), rules, Q, part);
  }

  /** With the default table, every part's names start with the input's
      names, or the part is a hashtag or a username. */
  lemma DefaultAmbientKept(engine: Engine, part: Part<seq<string>>)
    requires EngineOk(engine)
    ensures CatalogOk(DefaultMatchers(engine))
    ensures forall p :: p in Parse(NameTyping(), DefaultMatchers(engine), part) ==>
      part.types <= p.types || (p.types != [] && (p.types[0] == "hashtag" || p.types[0] == "username"))
  {
    var rules := DefaultMatchers(engine);
    DefaultMatchersOk(engine);
    AmbientPrefixOrSingle(rules, part);
    forall p | p in Parse(NameTyping(), rules, part) && !(part.types <= p.types)
      ensures p.types != [] && (p.types[0] == "hashtag" || p.types[0] == "username")
    {
      var i :| 0 <= i < |rules| && rules[i].singleType && rules[i].matchType == p.types[0];
      assert i == 2 || i == 4;
    }
  }

  /** `areListsEqual(a, b)`: same length and equal at every index.  (The
      source's first test, whether `a` and `b` are the same array object,
      only returns early with the answer the comparison would give.) */
  method AreListsEqual<X(==)>(a: seq<X>, b: seq<X>) returns (eq: bool)
    ensures eq <==> a == b
  {
    if |a| != |b| {
      return false;
    }
    for i := 0 to |a|
      invariant a[..i] == b[..i]
    {
      if a[i] != b[i] {
        return false;
      }
    }
    assert a == a[..|a|] && b == b[..|b|];
    return true;
  }

  /** `PatternMatchPart.isEqual(other)`: same text and equal name lists. */
  method IsEqual(self: Part<seq<string>>, other: Part<seq<string>>) returns (eq: bool)
    ensures eq <==> self == other
  {
    if other.text != self.text {
      return false;
    }
    eq := AreListsEqual(other.types, self.types);
  }
}
