/** What the main loop of `_parseText` / `_parseText2` does, stated without
    the loop (src/index.ts:147-180, public/index.js:212-245).

    The loop accepts a candidate exactly when it starts at or after the
    cursor (`Accepted`).  The accepted candidates cut the text into
    segments: a gap before each accepted candidate that does not start at
    the cursor, the candidate itself, and the rest of the text after the
    last one (`Layout`).  Each segment then becomes parts on its own
    (`Render`): a gap is parsed again under the ambient type, a candidate
    yields its stripped part (parsed again when its rule looks inwards),
    and the rest is one part under the ambient type. */
module Layouts {
  import opened Delimiters
  import opened Matches
  import opened Rules
  import opened Sorting
  import opened SpanParser

  /** The candidates the loop accepts, in order, with the cursor starting
      at `cur`: a candidate is skipped if it starts before the cursor, and
      otherwise accepted and the cursor moved to its end. */
  function Accepted(cands: seq<Candidate>, cur: nat): seq<Candidate> {
    if cands == [] then []
    else if cur > cands[0].m.start then Accepted(cands[1..], cur)
    else [cands[0]] + Accepted(cands[1..], cands[0].m.end)
  }

  /** Candidates laid end to end from `cur`: each starts at or after the end
      of the previous one, is non-empty and ends by `n`. */
  predicate Chain(acc: seq<Candidate>, cur: nat, n: nat) {
    if acc == [] then cur <= n
    else cur <= acc[0].m.start < acc[0].m.end <= n && Chain(acc[1..], acc[0].m.end, n)
  }

  /** Accepted candidates come from the candidate list, lie end to end from
      the cursor inside the text, and so never overlap. */
  lemma {:induction false} AcceptedChain<T>(rules: seq<Rule<T>>, text: string, cands: seq<Candidate>, cur: nat)
    requires forall i :: 0 <= i < |cands| ==> CandidateOk(rules, text, cands[i])
    requires cur <= |text|
    ensures Chain(Accepted(cands, cur), cur, |text|)
    ensures forall a :: a in Accepted(cands, cur) ==> a in cands
  {
    if cands != [] {
      assert CandidateOk(rules, text, cands[0]);
      assert forall i :: 0 <= i < |cands[1..]| ==> cands[1..][i] == cands[i + 1];
      if cur > cands[0].m.start {
        AcceptedChain(rules, text, cands[1..], cur);
      } else {
        AcceptedChain(rules, text, cands[1..], cands[0].m.end);
      }
    }
  }

  /** In a chain, every candidate starts at or after `cur` and each ends no
      later than any later one starts. */
  lemma {:induction false} ChainOrdered(acc: seq<Candidate>, cur: nat, n: nat)
    requires Chain(acc, cur, n)
    ensures forall i :: 0 <= i < |acc| ==> cur <= acc[i].m.start < acc[i].m.end <= n
    ensures forall i, j :: 0 <= i < j < |acc| ==> acc[i].m.end <= acc[j].m.start
  {
    if acc != [] {
      ChainOrdered(acc[1..], acc[0].m.end, n);
      forall i, j | 0 <= i < j < |acc|
        ensures acc[i].m.end <= acc[j].m.start
      {
        assert acc[j] == acc[1..][j - 1];
        if i > 0 {
          assert acc[i] == acc[1..][i - 1];
        }
      }
      forall i | 0 <= i < |acc|
        ensures cur <= acc[i].m.start < acc[i].m.end <= n
      {
        if i > 0 {
          assert acc[i] == acc[1..][i - 1];
        }
      }
    }
  }

  /** `c` starts inside one of the candidates `acc`, which starts no later. */
  ghost predicate StartsInside(c: Candidate, acc: seq<Candidate>) {
    exists a :: a in acc && a.m.start <= c.m.start < a.m.end
  }

  /** Why `c` was not accepted with the cursor starting at `cur`. */
  ghost predicate Explained(c: Candidate, acc: seq<Candidate>, cur: nat) {
    c in acc || c.m.start < cur || StartsInside(c, acc)
  }

  lemma ExplainedCons(c: Candidate, a: Candidate, acc: seq<Candidate>, cur: nat, cur': nat)
    requires Explained(c, acc, cur')
    requires cur' == a.m.end && a.m.start <= c.m.start
    ensures Explained(c, [a] + acc, cur)
  {
    if c in acc {
      assert c in [a] + acc;
    } else if c.m.start < cur' {
      assert a in [a] + acc;
    } else {
      var b :| b in acc && b.m.start <= c.m.start < b.m.end;
      assert b in [a] + acc;
    }
  }

  /** The acceptance is greedy: over candidates sorted by start, every
      candidate that is not accepted starts before the initial cursor or
      inside an accepted candidate that starts no later. */
  lemma {:induction false} SkippedOverlapAccepted<T>(rules: seq<Rule<T>>, text: string,
                                                      cands: seq<Candidate>, cur: nat)
    requires forall i :: 0 <= i < |cands| ==> CandidateOk(rules, text, cands[i])
    requires SortedByStart(cands)
    ensures forall c :: c in cands ==> Explained(c, Accepted(cands, cur), cur)
  {
    if cands != [] {
      var c0 := cands[0];
      var rest := cands[1..];
      assert forall i :: 0 <= i < |rest| ==> rest[i] == cands[i + 1];
      assert SortedByStart(rest);
      var acc := Accepted(cands, cur);
      if cur > c0.m.start {
        SkippedOverlapAccepted(rules, text, rest, cur);
        assert acc == Accepted(rest, cur);
      } else {
        SkippedOverlapAccepted(rules, text, rest, c0.m.end);
        assert acc == [c0] + Accepted(rest, c0.m.end);
        forall c | c in rest
          ensures Explained(c, acc, cur)
        {
          var i :| 0 <= i < |rest| && rest[i] == c;
          assert c0.m.start <= cands[i + 1].m.start;
          ExplainedCons(c, c0, Accepted(rest, c0.m.end), cur, c0.m.end);
        }
        assert c0 in acc;
      }
      forall c | c in cands
        ensures Explained(c, acc, cur)
      {
        if c != c0 {
          assert c in rest;
        }
      }
    }
  }

  /** A piece of the text between the cursor and its end. */
  datatype Segment =
    | Gap(lo: nat, hi: nat)
    | Hit(c: Candidate)
    | Rest(lo: nat, hi: nat)

  function Start(s: Segment): nat {
    match s
    case Gap(lo, _) => lo
    case Hit(c) => c.m.start
    case Rest(lo, _) => lo
  }

  function End(s: Segment): nat {
    match s
    case Gap(_, hi) => hi
    case Hit(c) => c.m.end
    case Rest(_, hi) => hi
  }

  /** How accepted candidates, laid end to end from `cur`, cut the text up to
      `n` into segments. */
  function Layout(acc: seq<Candidate>, cur: nat, n: nat): seq<Segment>
    requires Chain(acc, cur, n)
  {
    if acc == [] then
      if cur < n then [Rest(cur, n)] else []
    else
      (if cur < acc[0].m.start then [Gap(cur, acc[0].m.start)] else [])
      + [Hit(acc[0])]
      + Layout(acc[1..], acc[0].m.end, n)
  }

  /** The text each segment covers, concatenated. */
  function Covered(text: string, segs: seq<Segment>): string
    requires forall i :: 0 <= i < |segs| ==> Start(segs[i]) <= End(segs[i]) <= |text|
  {
    if segs == [] then [] else text[Start(segs[0])..End(segs[0])] + Covered(text, segs[1..])
  }

  /** The candidates among the segments. */
  function Hits(segs: seq<Segment>): seq<Candidate> {
    if segs == [] then []
    else (if segs[0].Hit? then [segs[0].c] else []) + Hits(segs[1..])
  }

  /** The segments are non-empty and laid end to end from `cur` to `n`. */
  predicate Tiling(segs: seq<Segment>, cur: nat, n: nat) {
    if segs == [] then cur == n
    else Start(segs[0]) == cur < End(segs[0]) <= n && Tiling(segs[1..], End(segs[0]), n)
  }

  /** A tiling covers exactly the text between its ends. */
  lemma {:induction false} TilingCovers(text: string, segs: seq<Segment>, cur: nat)
    requires Tiling(segs, cur, |text|)
    ensures forall i :: 0 <= i < |segs| ==> cur <= Start(segs[i]) < End(segs[i]) <= |text|
    ensures Covered(text, segs) == text[cur..]
  {
    if segs != [] {
      TilingCovers(text, segs[1..], End(segs[0]));
      forall i | 0 <= i < |segs|
        ensures cur <= Start(segs[i]) < End(segs[i]) <= |text|
      {
        if i > 0 {
          assert segs[i] == segs[1..][i - 1];
        }
      }
      assert text[cur..End(segs[0])] + text[End(segs[0])..] == text[cur..];
    }
  }

  /** A non-empty segment in front of a tiling from its end. */
  lemma TilingCons(seg: Segment, segs: seq<Segment>, cur: nat, n: nat)
    requires Start(seg) == cur < End(seg) <= n && Tiling(segs, End(seg), n)
    ensures Tiling([seg] + segs, cur, n)
  {
    assert ([seg] + segs)[1..] == segs;
  }

  /** The layout tiles the text from `cur` to its end. */
  lemma {:induction false} LayoutTiling(text: string, acc: seq<Candidate>, cur: nat)
    requires Chain(acc, cur, |text|)
    ensures Tiling(Layout(acc, cur, |text|), cur, |text|)
  {
    if acc != [] {
      var a := acc[0];
      var tail := Layout(acc[1..], a.m.end, |text|);
      LayoutTiling(text, acc[1..], a.m.end);
      TilingCons(Hit(a), tail, a.m.start, |text|);
      if cur < a.m.start {
        TilingCons(Gap(cur, a.m.start), [Hit(a)] + tail, cur, |text|);
        assert Layout(acc, cur, |text|) == [Gap(cur, a.m.start)] + ([Hit(a)] + tail);
      } else {
        assert Layout(acc, cur, |text|) == [Hit(a)] + tail;
      }
    }
  }

  /** Together the segments cover exactly the text from `cur` on. */
  lemma LayoutCovers(text: string, acc: seq<Candidate>, cur: nat)
    requires Chain(acc, cur, |text|)
    ensures forall i :: 0 <= i < |Layout(acc, cur, |text|)| ==>
      cur <= Start(Layout(acc, cur, |text|)[i]) < End(Layout(acc, cur, |text|)[i]) <= |text|
    ensures Covered(text, Layout(acc, cur, |text|)) == text[cur..]
  {
    LayoutTiling(text, acc, cur);
    TilingCovers(text, Layout(acc, cur, |text|), cur);
  }

  /** The candidates among the segments are exactly the accepted ones. */
  lemma {:induction false} LayoutHits(text: string, acc: seq<Candidate>, cur: nat)
    requires Chain(acc, cur, |text|)
    ensures Hits(Layout(acc, cur, |text|)) == acc
  {
    if acc != [] {
      var a := acc[0];
      var tail := Layout(acc[1..], a.m.end, |text|);
      LayoutHits(text, acc[1..], a.m.end);
      var hit := [Hit(a)] + tail;
      assert hit[1..] == tail;
      assert Hits(hit) == [a] + acc[1..];
      if cur < a.m.start {
        var segs := [Gap(cur, a.m.start)] + hit;
        assert segs[1..] == hit;
        assert Layout(acc, cur, |text|) == segs;
      } else {
        assert Layout(acc, cur, |text|) == hit;
      }
    }
  }

  /** A gap is always followed by a candidate, and the rest of the text can
      only come last. */
  predicate Shaped(segs: seq<Segment>) {
    segs == [] ||
    ((segs[0].Gap? ==> |segs| > 1 && segs[1].Hit?) &&
     (segs[0].Rest? ==> |segs| == 1) &&
     Shaped(segs[1..]))
  }

  lemma {:induction false} LayoutShaped(text: string, acc: seq<Candidate>, cur: nat)
    requires Chain(acc, cur, |text|)
    ensures Shaped(Layout(acc, cur, |text|))
  {
    if acc != [] {
      var a := acc[0];
      var tail := Layout(acc[1..], a.m.end, |text|);
      LayoutShaped(text, acc[1..], a.m.end);
      var hit := [Hit(a)] + tail;
      assert hit[1..] == tail;
      if cur < a.m.start {
        var segs := [Gap(cur, a.m.start)] + hit;
        assert segs[1..] == hit;
        assert Layout(acc, cur, |text|) == segs;
      } else {
        assert Layout(acc, cur, |text|) == hit;
      }
    }
  }

  /** The same shape, position by position. */
  lemma {:induction false} ShapedAt(segs: seq<Segment>)
    requires Shaped(segs)
    ensures forall i :: 0 <= i < |segs| && segs[i].Gap? ==> i + 1 < |segs| && segs[i + 1].Hit?
    ensures forall i :: 0 <= i < |segs| && segs[i].Rest? ==> i == |segs| - 1
  {
    if segs != [] {
      ShapedAt(segs[1..]);
      forall i | 0 < i < |segs|
        ensures segs[i] == segs[1..][i - 1]
      {
      }
    }
  }

  // ---------------------------------------------------------------------
  // From segments to parts

  predicate SegmentOk<T>(rules: seq<Rule<T>>, text: string, seg: Segment) {
    match seg
    case Gap(lo, hi) => lo <= hi <= |text|
    case Hit(c) => CandidateOk(rules, text, c)
    case Rest(lo, hi) => lo <= hi <= |text|
  }

  /** The parts one segment becomes. */
  function Render<T, P>(ty: Typing<T, P>, rules: seq<Rule<T>>, text: string, ambient: P,
                        seg: Segment): seq<Part<P>>
    requires CatalogOk(rules) && SegmentOk(rules, text, seg)
  {
    match seg
    case Gap(lo, hi) => Parse(ty, rules, Part(text[lo..hi], ambient))
    case Hit(c) => MatchParts(ty, rules, text, ambient, c)
    case Rest(lo, hi) => [Part(text[lo..hi], ambient)]
  }

  predicate SegmentsOk<T>(rules: seq<Rule<T>>, text: string, segs: seq<Segment>) {
    segs == [] || (SegmentOk(rules, text, segs[0]) && SegmentsOk(rules, text, segs[1..]))
  }

  function RenderAll<T, P>(ty: Typing<T, P>, rules: seq<Rule<T>>, text: string, ambient: P,
                           segs: seq<Segment>): seq<Part<P>>
    requires CatalogOk(rules) && SegmentsOk(rules, text, segs)
  {
    if segs == [] then []
    else Render(ty, rules, text, ambient, segs[0]) + RenderAll(ty, rules, text, ambient, segs[1..])
  }

  lemma {:induction false} SegmentsOkAppend<T>(rules: seq<Rule<T>>, text: string, a: seq<Segment>, b: seq<Segment>)
    requires SegmentsOk(rules, text, a) && SegmentsOk(rules, text, b)
    ensures SegmentsOk(rules, text, a + b)
  {
    if a != [] {
      assert (a + b)[0] == a[0] && (a + b)[1..] == a[1..] + b;
      SegmentsOkAppend(rules, text, a[1..], b);
    } else {
      assert a + b == b;
    }
  }

  lemma {:induction false} RenderAllAppend<T, P>(ty: Typing<T, P>, rules: seq<Rule<T>>, text: string, ambient: P,
                                                 a: seq<Segment>, b: seq<Segment>)
    requires CatalogOk(rules) && SegmentsOk(rules, text, a) && SegmentsOk(rules, text, b)
    ensures SegmentsOk(rules, text, a + b)
    ensures RenderAll(ty, rules, text, ambient, a + b) ==
      RenderAll(ty, rules, text, ambient, a) + RenderAll(ty, rules, text, ambient, b)
  {
    SegmentsOkAppend(rules, text, a, b);
    if a != [] {
      var ab := a + b;
      assert ab[0] == a[0] && ab[1..] == a[1..] + b;
      SegmentsOkAppend(rules, text, a[1..], b);
      RenderAllAppend(ty, rules, text, ambient, a[1..], b);
    } else {
      assert a + b == b;
    }
  }

  /** Every segment of a layout of valid candidates is valid. */
  lemma {:induction false} LayoutSegmentsOk<T>(rules: seq<Rule<T>>, text: string, acc: seq<Candidate>, cur: nat)
    requires Chain(acc, cur, |text|)
    requires forall i :: 0 <= i < |acc| ==> CandidateOk(rules, text, acc[i])
    ensures SegmentsOk(rules, text, Layout(acc, cur, |text|))
  {
    if acc != [] {
      var a := acc[0];
      assert CandidateOk(rules, text, a);
      assert forall i :: 0 <= i < |acc[1..]| ==> acc[1..][i] == acc[i + 1];
      var tail := Layout(acc[1..], a.m.end, |text|);
      LayoutSegmentsOk(rules, text, acc[1..], a.m.end);
      var hit := [Hit(a)] + tail;
      assert hit[1..] == tail;
      if cur < a.m.start {
        var segs := [Gap(cur, a.m.start)] + hit;
        assert segs[1..] == hit;
        assert Layout(acc, cur, |text|) == segs;
      } else {
        assert Layout(acc, cur, |text|) == hit;
      }
    }
  }

  /** The segments the loop cuts the text into from candidate list `cands`,
      cursor at `cur`. */
  function Segments<T>(rules: seq<Rule<T>>, text: string, cands: seq<Candidate>, cur: nat): (segs: seq<Segment>)
    requires forall i :: 0 <= i < |cands| ==> CandidateOk(rules, text, cands[i])
    requires cur <= |text|
    ensures SegmentsOk(rules, text, segs)
  {
    AcceptedChain(rules, text, cands, cur);
    var acc := Accepted(cands, cur);
    forall i | 0 <= i < |acc|
      ensures CandidateOk(rules, text, acc[i])
    {
      assert acc[i] in cands;
    }
    LayoutSegmentsOk(rules, text, acc, cur);
    Layout(acc, cur, |text|)
  }

  /** The segments for an accepted first candidate: the gap before it, the
      candidate, then the segments from its end. */
  lemma SegmentsAccept<T>(rules: seq<Rule<T>>, text: string, cands: seq<Candidate>, cur: nat)
    requires forall i :: 0 <= i < |cands| ==> CandidateOk(rules, text, cands[i])
    requires cur <= |text| && cands != [] && cur <= cands[0].m.start
    ensures cands[0].m.end <= |text|
    ensures forall i :: 0 <= i < |cands[1..]| ==> CandidateOk(rules, text, cands[1..][i])
    ensures Segments(rules, text, cands, cur) ==
      (if cur < cands[0].m.start then [Gap(cur, cands[0].m.start)] else []) + [Hit(cands[0])]
      + Segments(rules, text, cands[1..], cands[0].m.end)
  {
    assert CandidateOk(rules, text, cands[0]);
    assert forall i :: 0 <= i < |cands[1..]| ==> cands[1..][i] == cands[i + 1];
  }

  /** What the gap and the candidate of an accepted step render to. */
  lemma RenderHead<T, P>(ty: Typing<T, P>, rules: seq<Rule<T>>, text: string, ambient: P,
                         c: Candidate, cur: nat)
    requires CatalogOk(rules) && CandidateOk(rules, text, c) && cur <= c.m.start
    ensures var head := (if cur < c.m.start then [Gap(cur, c.m.start)] else []) + [Hit(c)];
      SegmentsOk(rules, text, head) &&
      RenderAll(ty, rules, text, ambient, head) ==
        (if cur < c.m.start then Parse(ty, rules, Part(text[cur..c.m.start], ambient)) else [])
        + MatchParts(ty, rules, text, ambient, c)
  {
    var head := (if cur < c.m.start then [Gap(cur, c.m.start)] else []) + [Hit(c)];
    if cur < c.m.start {
      assert head[1..] == [Hit(c)];
      assert RenderAll(ty, rules, text, ambient, [Hit(c)]) == MatchParts(ty, rules, text, ambient, c) + [];
    } else {
      assert RenderAll(ty, rules, text, ambient, head) == MatchParts(ty, rules, text, ambient, c) + [];
    }
  }

  /** The walk is the layout, rendered segment by segment. */
  lemma {:induction false} WalkIsLayout<T, P>(ty: Typing<T, P>, rules: seq<Rule<T>>, text: string, ambient: P,
                                              cands: seq<Candidate>, cur: nat)
    requires CatalogOk(rules)
    requires forall i :: 0 <= i < |cands| ==> CandidateOk(rules, text, cands[i])
    requires cur <= |text|
    ensures Walk(ty, rules, text, ambient, cands, cur) ==
      RenderAll(ty, rules, text, ambient, Segments(rules, text, cands, cur))
    decreases |cands|
  {
    if cands == [] {
      if cur < |text| {
        assert Segments(rules, text, cands, cur) == [Rest(cur, |text|)];
        assert text[cur..|text|] == text[cur..];
      }
    } else {
      var c := cands[0];
      assert forall i :: 0 <= i < |cands[1..]| ==> cands[1..][i] == cands[i + 1];
      assert CandidateOk(rules, text, c);
      if cur > c.m.start {
        WalkIsLayout(ty, rules, text, ambient, cands[1..], cur);
      } else {
        SegmentsAccept(rules, text, cands, cur);
        WalkAccepts(ty, rules, text, ambient, cands, cur);
        WalkIsLayout(ty, rules, text, ambient, cands[1..], c.m.end);
        RenderHead(ty, rules, text, ambient, c, cur);
        var head := (if cur < c.m.start then [Gap(cur, c.m.start)] else []) + [Hit(c)];
        RenderAllAppend(ty, rules, text, ambient, head, Segments(rules, text, cands[1..], c.m.end));
      }
    }
  }

  /** How `_parseText` cuts a text: the accepted candidates never overlap, lie
      in increasing order, and every candidate not accepted starts inside an
      accepted one that starts no later; together with the gaps between them
      and the rest after the last one they tile the whole text; a gap is
      followed by a candidate and the rest comes last. */
  function ParseSegments<T>(rules: seq<Rule<T>>, text: string): (segs: seq<Segment>)
    requires MatchersOk(rules)
    ensures SegmentsOk(rules, text, segs)
    ensures Tiling(segs, 0, |text|)
    ensures forall i :: 0 <= i < |segs| ==> Start(segs[i]) < End(segs[i]) <= |text|
    ensures Covered(text, segs) == text
    ensures Shaped(segs)
    ensures Hits(segs) == Accepted(Candidates(rules, text), 0)
    ensures forall i, j :: 0 <= i < j < |Hits(segs)| ==> Hits(segs)[i].m.end <= Hits(segs)[j].m.start
    ensures forall c :: c in Candidates(rules, text) ==> c in Hits(segs) || StartsInside(c, Hits(segs))
  {
    CandidatesOk(rules, text);
    var cands := Candidates(rules, text);
    var acc := Accepted(cands, 0);
    AcceptedChain(rules, text, cands, 0);
    ChainOrdered(acc, 0, |text|);
    LayoutTiling(text, acc, 0);
    LayoutCovers(text, acc, 0);
    LayoutShaped(text, acc, 0);
    LayoutHits(text, acc, 0);
    SkippedOverlapAccepted(rules, text, cands, 0);
    Segments(rules, text, cands, 0)
  }

  /** For a non-empty catalog, the parts of `_parseText` are those of the
      segments in order: each gap parsed again under the ambient type, each
      accepted candidate's parts, and the rest as one part. */
  lemma ParseIsLayout<T, P>(ty: Typing<T, P>, rules: seq<Rule<T>>, part: Part<P>)
    requires CatalogOk(rules) && rules != []
    ensures Parse(ty, rules, part) == RenderAll(ty, rules, part.text, part.types, ParseSegments(rules, part.text))
  {
    CandidatesOk(rules, part.text);
    WalkIsLayout(ty, rules, part.text, part.types, Candidates(rules, part.text), 0);
  }

  /** When no candidate is accepted the result is the whole text as one part
      with the input's type, or nothing for the empty text. */
  lemma NoAcceptedMatches<T, P>(ty: Typing<T, P>, rules: seq<Rule<T>>, part: Part<P>)
    requires CatalogOk(rules) && rules != []
    requires Hits(ParseSegments(rules, part.text)) == []
    ensures part.text == [] ==> Parse(ty, rules, part) == []
    ensures part.text != [] ==> Parse(ty, rules, part) == [part]
  {
    ParseIsLayout(ty, rules, part);
    var segs := ParseSegments(rules, part.text);
    CandidatesOk(rules, part.text);
    assert Accepted(Candidates(rules, part.text), 0) == [];
    assert segs == Layout([], 0, |part.text|);
    assert part.text[0..|part.text|] == part.text;
  }

  // ---------------------------------------------------------------------
  // The recursive calls

  /** The parts `_parseText` calls itself on, in order, for accepted
      candidates `acc` laid end to end from `cur`: each non-empty gap under
      the ambient type, and each stripped part of a rule that looks inwards. */
  function Calls<T, P>(ty: Typing<T, P>, rules: seq<Rule<T>>, text: string, ambient: P,
                       acc: seq<Candidate>, cur: nat): seq<Part<P>>
    requires Chain(acc, cur, |text|)
    requires forall i :: 0 <= i < |acc| ==> CandidateOk(rules, text, acc[i])
  {
    if acc == [] then []
    else
      assert CandidateOk(rules, text, acc[0]);
      assert forall i :: 0 <= i < |acc[1..]| ==> acc[1..][i] == acc[i + 1];
      (if cur < acc[0].m.start then [Part(text[cur..acc[0].m.start], ambient)] else [])
      + (if rules[acc[0].rule].lookInwards then [MatchPart(ty, rules, text, ambient, acc[0])] else [])
      + Calls(ty, rules, text, ambient, acc[1..], acc[0].m.end)
  }

  /** The parts one call of `_parseText` on `part` calls itself on directly.
      It needs only well-behaved matchers, not the termination condition. */
  function InnerCalls<T, P>(ty: Typing<T, P>, rules: seq<Rule<T>>, part: Part<P>): seq<Part<P>>
    requires MatchersOk(rules)
  {
    if rules == [] then []
    else
      CandidatesOk(rules, part.text);
      var cands := Candidates(rules, part.text);
      AcceptedChain(rules, part.text, cands, 0);
      var acc := Accepted(cands, 0);
      assert forall i :: 0 <= i < |acc| ==> acc[i] in cands;
      Calls(ty, rules, part.text, part.types, acc, 0)
  }

  lemma {:induction false} CallsShrink<T, P>(ty: Typing<T, P>, rules: seq<Rule<T>>, text: string, ambient: P,
                                             acc: seq<Candidate>, cur: nat)
    requires Terminates(rules)
    requires Chain(acc, cur, |text|)
    requires forall i :: 0 <= i < |acc| ==> CandidateOk(rules, text, acc[i])
    ensures forall q :: q in Calls(ty, rules, text, ambient, acc, cur) ==> |q.text| < |text|
  {
    if acc != [] {
      var a := acc[0];
      assert CandidateOk(rules, text, a);
      assert forall i :: 0 <= i < |acc[1..]| ==> acc[1..][i] == acc[i + 1];
      CallsShrink(ty, rules, text, ambient, acc[1..], a.m.end);
      var r := rules[a.rule];
      if r.lookInwards {
        StripShortens(r.delimiter, r.minLength, text[a.m.start..a.m.end]);
      }
    }
  }

  /** With the termination condition, every direct recursive call is on a
      strictly shorter text, so the recursion ends. */
  lemma InnerCallsShrink<T, P>(ty: Typing<T, P>, rules: seq<Rule<T>>, part: Part<P>)
    requires CatalogOk(rules)
    ensures forall q :: q in InnerCalls(ty, rules, part) ==> |q.text| < |part.text|
  {
    if rules != [] {
      CandidatesOk(rules, part.text);
      var cands := Candidates(rules, part.text);
      AcceptedChain(rules, part.text, cands, 0);
      var acc := Accepted(cands, 0);
      assert forall i :: 0 <= i < |acc| ==> acc[i] in cands;
      CallsShrink(ty, rules, part.text, part.types, acc, 0);
    }
  }

  // ---------------------------------------------------------------------
  // The calls the parse makes

  /** What one segment does: call the parser again on a part, or emit a
      part as it is. */
  datatype Step<P> = Call(q: Part<P>) | Leaf(p: Part<P>)

  /** A gap is parsed again, as is the stripped part of a rule that looks
      inwards; any other candidate and the rest are emitted as they are. */
  function StepOf<T, P>(ty: Typing<T, P>, rules: seq<Rule<T>>, text: string, ambient: P,
                        seg: Segment): Step<P>
    requires SegmentOk(rules, text, seg)
  {
    match seg
    case Gap(lo, hi) => Call(Part(text[lo..hi], ambient))
    case Hit(c) =>
      if rules[c.rule].lookInwards then Call(MatchPart(ty, rules, text, ambient, c))
      else Leaf(MatchPart(ty, rules, text, ambient, c))
    case Rest(lo, hi) => Leaf(Part(text[lo..hi], ambient))
  }

  function Steps<T, P>(ty: Typing<T, P>, rules: seq<Rule<T>>, text: string, ambient: P,
                       segs: seq<Segment>): seq<Step<P>>
    requires SegmentsOk(rules, text, segs)
  {
    if segs == [] then []
    else [StepOf(ty, rules, text, ambient, segs[0])] + Steps(ty, rules, text, ambient, segs[1..])
  }

  /** The parts the steps call the parser on, in order. */
  function CallsOf<P>(steps: seq<Step<P>>): seq<Part<P>> {
    if steps == [] then []
    else (if steps[0].Call? then [steps[0].q] else []) + CallsOf(steps[1..])
  }

  /** The parts the steps produce: each call's parse, each leaf itself. */
  function Expand<T, P>(ty: Typing<T, P>, rules: seq<Rule<T>>, steps: seq<Step<P>>): seq<Part<P>>
    requires CatalogOk(rules)
  {
    if steps == [] then []
    else
      (match steps[0] case Call(q) => Parse(ty, rules, q) case Leaf(p) => [p])
      + Expand(ty, rules, steps[1..])
  }

  lemma {:induction false} StepsAppend<T, P>(ty: Typing<T, P>, rules: seq<Rule<T>>, text: string, ambient: P,
                                             a: seq<Segment>, b: seq<Segment>)
    requires SegmentsOk(rules, text, a) && SegmentsOk(rules, text, b)
    ensures SegmentsOk(rules, text, a + b)
    ensures Steps(ty, rules, text, ambient, a + b) ==
      Steps(ty, rules, text, ambient, a) + Steps(ty, rules, text, ambient, b)
  {
    if a != [] {
      assert (a + b)[1..] == a[1..] + b;
      StepsAppend(ty, rules, text, ambient, a[1..], b);
    } else {
      assert a + b == b;
    }
  }

  lemma {:induction false} CallsOfAppend<P>(a: seq<Step<P>>, b: seq<Step<P>>)
    ensures CallsOf(a + b) == CallsOf(a) + CallsOf(b)
  {
    if a != [] {
      assert (a + b)[1..] == a[1..] + b;
      CallsOfAppend(a[1..], b);
    } else {
      assert a + b == b;
    }
  }

  /** Rendering a segment is expanding its step. */
  lemma {:induction false} RenderIsExpand<T, P>(ty: Typing<T, P>, rules: seq<Rule<T>>, text: string, ambient: P,
                                                segs: seq<Segment>)
    requires CatalogOk(rules) && SegmentsOk(rules, text, segs)
    ensures RenderAll(ty, rules, text, ambient, segs) == Expand(ty, rules, Steps(ty, rules, text, ambient, segs))
  {
    if segs != [] {
      var steps := Steps(ty, rules, text, ambient, segs);
      assert steps[1..] == Steps(ty, rules, text, ambient, segs[1..]);
      RenderIsExpand(ty, rules, text, ambient, segs[1..]);
    }
  }

  /** The calls of an accepted step's segments: the gap, if any, then the
      stripped part when the rule looks inwards. */
  lemma HeadCalls<T, P>(ty: Typing<T, P>, rules: seq<Rule<T>>, text: string, ambient: P,
                        a: Candidate, cur: nat)
    requires CandidateOk(rules, text, a) && cur <= a.m.start
    ensures var head := (if cur < a.m.start then [Gap(cur, a.m.start)] else []) + [Hit(a)];
      SegmentsOk(rules, text, head) &&
      CallsOf(Steps(ty, rules, text, ambient, head)) ==
        (if cur < a.m.start then [Part(text[cur..a.m.start], ambient)] else [])
        + (if rules[a.rule].lookInwards then [MatchPart(ty, rules, text, ambient, a)] else [])
  {
    var hit := [Hit(a)];
    assert hit[0] == Hit(a) && hit[1..] == [];
    assert SegmentsOk(rules, text, hit);
    var hs := Steps(ty, rules, text, ambient, hit);
    assert hs == [StepOf(ty, rules, text, ambient, Hit(a))] + Steps(ty, rules, text, ambient, hit[1..]);
    assert hs == [StepOf(ty, rules, text, ambient, Hit(a))];
    assert CallsOf(hs) == (if rules[a.rule].lookInwards then [MatchPart(ty, rules, text, ambient, a)] else []) + CallsOf(hs[1..]);
    if cur < a.m.start {
      var head := [Gap(cur, a.m.start)] + hit;
      assert head[1..] == hit;
      var steps := Steps(ty, rules, text, ambient, head);
      assert steps[0] == Call(Part(text[cur..a.m.start], ambient)) && steps[1..] == hs;
    } else {
      assert [] + hit == hit;
    }
  }

  /** `Calls` lists exactly the parts the layout's steps call the parser on. */
  lemma {:induction false} LayoutCalls<T, P>(ty: Typing<T, P>, rules: seq<Rule<T>>, text: string, ambient: P,
                                             acc: seq<Candidate>, cur: nat)
    requires Chain(acc, cur, |text|)
    requires forall i :: 0 <= i < |acc| ==> CandidateOk(rules, text, acc[i])
    ensures SegmentsOk(rules, text, Layout(acc, cur, |text|))
    ensures Calls(ty, rules, text, ambient, acc, cur) ==
      CallsOf(Steps(ty, rules, text, ambient, Layout(acc, cur, |text|)))
  {
    LayoutSegmentsOk(rules, text, acc, cur);
    if acc == [] {
      if cur < |text| {
        var rest := [Rest(cur, |text|)];
        assert rest[0] == Rest(cur, |text|) && rest[1..] == [];
        var steps := Steps(ty, rules, text, ambient, rest);
        assert steps == [StepOf(ty, rules, text, ambient, rest[0])] + Steps(ty, rules, text, ambient, rest[1..]);
        assert steps == [Leaf(Part(text[cur..|text|], ambient))];
        assert CallsOf(steps) == [] + CallsOf(steps[1..]);
      }
    } else {
      var a := acc[0];
      assert CandidateOk(rules, text, a);
      assert forall i :: 0 <= i < |acc[1..]| ==> acc[1..][i] == acc[i + 1];
      var tail := Layout(acc[1..], a.m.end, |text|);
      LayoutCalls(ty, rules, text, ambient, acc[1..], a.m.end);
      var head := (if cur < a.m.start then [Gap(cur, a.m.start)] else []) + [Hit(a)];
      HeadCalls(ty, rules, text, ambient, a, cur);
      assert Layout(acc, cur, |text|) == head + tail;
      StepsAppend(ty, rules, text, ambient, head, tail);
      CallsOfAppend(Steps(ty, rules, text, ambient, head), Steps(ty, rules, text, ambient, tail));
    }
  }

  /** For a well-formed table, `_parseText` on `part` is the expansion of
      its segments' steps, and the parts those steps call the parser on are
      exactly `InnerCalls`, in order: `InnerCalls` lists the recursive calls
      the parse makes. */
  lemma ParseCallsAreInnerCalls<T, P>(ty: Typing<T, P>, rules: seq<Rule<T>>, part: Part<P>)
    requires CatalogOk(rules)
    ensures rules == [] ==> Parse(ty, rules, part) == [part] && InnerCalls(ty, rules, part) == []
    ensures rules != [] ==>
      var steps := Steps(ty, rules, part.text, part.types, ParseSegments(rules, part.text));
      Parse(ty, rules, part) == Expand(ty, rules, steps) && InnerCalls(ty, rules, part) == CallsOf(steps)
  {
    if rules != [] {
      var segs := ParseSegments(rules, part.text);
      ParseIsLayout(ty, rules, part);
      RenderIsExpand(ty, rules, part.text, part.types, segs);
      CandidatesOk(rules, part.text);
      var cands := Candidates(rules, part.text);
      AcceptedChain(rules, part.text, cands, 0);
      var acc := Accepted(cands, 0);
      assert forall i :: 0 <= i < |acc| ==> acc[i] in cands;
      LayoutCalls(ty, rules, part.text, part.types, acc, 0);
    }
  }
}

