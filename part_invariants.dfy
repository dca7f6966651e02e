/** Properties every part of a parse inherits (src/index.ts:155-178,
    public/index.js:218-244): its text is a contiguous slice of the parsed
    text, and its type keeps any property of types that the input's type has
    and that every rule's type-building step preserves. */
module PartInvariants {
  import opened Delimiters
  import opened Matches
  import opened Rules
  import opened SpanParser

  /** Every rule preserves `Q` when it builds a part's type. */
  ghost predicate Closed<T, P(!new)>(ty: Typing<T, P>, rules: seq<Rule<T>>, Q: P -> bool) {
    forall i, q :: 0 <= i < |rules| && Q(q) ==> Q(NewType(ty, rules[i], q))
  }

  /** Each part's type has `Q` and its text is a slice of `text`. */
  ghost predicate PartsOk<P>(parts: seq<Part<P>>, text: string, Q: P -> bool) {
    forall i :: 0 <= i < |parts| ==> Q(parts[i].types) && IsSlice(parts[i].text, text)
  }

  lemma PartsAppend<P>(a: seq<Part<P>>, b: seq<Part<P>>, text: string, Q: P -> bool)
    requires PartsOk(a, text, Q) && PartsOk(b, text, Q)
    ensures PartsOk(a + b, text, Q)
  {
    forall i | 0 <= i < |a + b|
      ensures Q((a + b)[i].types) && IsSlice((a + b)[i].text, text)
    {
      if i >= |a| {
        assert (a + b)[i] == b[i - |a|];
      }
    }
  }

  /** Parts of a slice are parts of the whole. */
  lemma PartsWiden<P>(parts: seq<Part<P>>, piece: string, text: string, Q: P -> bool)
    requires PartsOk(parts, piece, Q) && IsSlice(piece, text)
    ensures PartsOk(parts, text, Q)
  {
    forall i | 0 <= i < |parts|
      ensures IsSlice(parts[i].text, text)
    {
      SliceOfSlice(parts[i].text, piece, text);
    }
  }

  lemma {:induction false} ParseKeeps<T, P(!new)>(ty: Typing<T, P>, rules: seq<Rule<T>>, Q: P -> bool, part: Part<P>)
    requires CatalogOk(rules) && Closed(ty, rules, Q) && Q(part.types)
    ensures PartsOk(Parse(ty, rules, part), part.text, Q)
    decreases |part.text|, 1
  {
    if rules == [] {
      assert part.text == part.text[0..|part.text|];
    } else {
      CandidatesOk(rules, part.text);
      WalkKeeps(ty, rules, Q, part.text, part.types, Candidates(rules, part.text), 0);
    }
  }

  lemma {:induction false} WalkKeeps<T, P(!new)>(ty: Typing<T, P>, rules: seq<Rule<T>>, Q: P -> bool,
                                           text: string, ambient: P, cands: seq<Candidate>, cur: nat)
    requires CatalogOk(rules) && Closed(ty, rules, Q) && Q(ambient)
    requires forall i :: 0 <= i < |cands| ==> CandidateOk(rules, text, cands[i])
    requires cur <= |text|
    ensures PartsOk(Walk(ty, rules, text, ambient, cands, cur), text, Q)
    decreases |text|, 0, |cands|
  {
    if cands == [] {
      if cur < |text| {
        assert text[cur..] == text[cur..|text|];
      }
    } else {
      var c := cands[0];
      assert CandidateOk(rules, text, c);
      assert forall i :: 0 <= i < |cands[1..]| ==> cands[1..][i] == cands[i + 1];
      if cur > c.m.start {
        WalkKeeps(ty, rules, Q, text, ambient, cands[1..], cur);
      } else {
        var gap: seq<Part<P>> := [];
        if cur < c.m.start {
          var piece := text[cur..c.m.start];
          gap := Parse(ty, rules, Part(piece, ambient));
          ParseKeeps(ty, rules, Q, Part(piece, ambient));
          PartsWiden(gap, piece, text, Q);
        }
        MatchKeeps(ty, rules, Q, text, ambient, c);
        var hit := MatchParts(ty, rules, text, ambient, c);
        WalkKeeps(ty, rules, Q, text, ambient, cands[1..], c.m.end);
        var rest := Walk(ty, rules, text, ambient, cands[1..], c.m.end);
        PartsAppend(gap, hit, text, Q);
        PartsAppend(gap + hit, rest, text, Q);
      }
    }
  }

  lemma {:induction false} MatchKeeps<T, P(!new)>(ty: Typing<T, P>, rules: seq<Rule<T>>, Q: P -> bool,
                                            text: string, ambient: P, c: Candidate)
    requires CatalogOk(rules) && Closed(ty, rules, Q) && Q(ambient)
    requires CandidateOk(rules, text, c)
    ensures PartsOk(MatchParts(ty, rules, text, ambient, c), text, Q)
    decreases |text|, 0, 0
  {
    var r := rules[c.rule];
    var matched := text[c.m.start..c.m.end];
    var part := MatchPart(ty, rules, text, ambient, c);
    assert Q(part.types);
    StripIsSlice(r.delimiter, matched);
    assert IsSlice(matched, text);
    SliceOfSlice(part.text, matched, text);
    if r.lookInwards {
      StripShortens(r.delimiter, r.minLength, matched);
      ParseKeeps(ty, rules, Q, part);
      PartsWiden(Parse(ty, rules, part), part.text, text, Q);
    }
  }

  /** Every part's text is a slice of the input text, and its type has every
      property of the input's type that the rules preserve. */
  lemma PartsInherit<T, P(!new)>(ty: Typing<T, P>, rules: seq<Rule<T>>, Q: P -> bool, part: Part<P>)
    requires CatalogOk(rules) && Closed(ty, rules, Q) && Q(part.types)
    ensures forall p :: p in Parse(ty, rules, part) ==> Q(p.types) && IsSlice(p.text, part.text)
  {
    ParseKeeps(ty, rules, Q, part);
  }
}
