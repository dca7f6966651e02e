/** `patternMatches.sort((a, b) => a.a.start - b.a.start)`
    (src/index.ts:145, public/index.js:211).

    `Array.prototype.sort` is stable, so the candidates end up ordered by
    start and, among equal starts, in the order they were pushed.  The model
    is an insertion sort with that behaviour: each candidate is placed in
    front of the first later-pushed candidate whose start is not smaller. */
module Sorting {
  import opened Rules

  function InsertByStart(c: Candidate, s: seq<Candidate>): (r: seq<Candidate>)
    ensures multiset(r) == multiset(s) + multiset{c}
    ensures |r| == |s| + 1
  {
    if s == [] || c.m.start <= s[0].m.start then
      [c] + s
    else
      assert s == [s[0]] + s[1..];
      [s[0]] + InsertByStart(c, s[1..])
  }

  function SortByStart(cs: seq<Candidate>): (r: seq<Candidate>)
    ensures multiset(r) == multiset(cs)
    ensures |r| == |cs|
  {
    if cs == [] then []
    else
      assert cs == [cs[0]] + cs[1..];
      InsertByStart(cs[0], SortByStart(cs[1..]))
  }

  predicate SortedByStart(s: seq<Candidate>) {
    forall i, j :: 0 <= i < j < |s| ==> s[i].m.start <= s[j].m.start
  }

  /** Ordered by start, ties by rule position. */
  predicate Before(a: Candidate, b: Candidate) {
    a.m.start < b.m.start || (a.m.start == b.m.start && a.rule < b.rule)
  }

  predicate StrictlyOrdered(s: seq<Candidate>) {
    forall i, j :: 0 <= i < j < |s| ==> Before(s[i], s[j])
  }

  /** Among equal starts, the rule listed first was pushed first. */
  predicate TiesInRuleOrder(s: seq<Candidate>) {
    forall i, j :: 0 <= i < j < |s| && s[i].m.start == s[j].m.start ==> s[i].rule < s[j].rule
  }

  lemma ConsSorted(x: Candidate, s: seq<Candidate>)
    requires SortedByStart(s)
    requires forall e :: e in s ==> x.m.start <= e.m.start
    ensures SortedByStart([x] + s)
  {
    forall i, j | 0 <= i < j < |[x] + s|
      ensures ([x] + s)[i].m.start <= ([x] + s)[j].m.start
    {
      assert ([x] + s)[j] == s[j - 1];
      if i > 0 {
        assert ([x] + s)[i] == s[i - 1];
      }
    }
  }

  lemma ConsOrdered(x: Candidate, s: seq<Candidate>)
    requires StrictlyOrdered(s)
    requires forall e :: e in s ==> Before(x, e)
    ensures StrictlyOrdered([x] + s)
  {
    forall i, j | 0 <= i < j < |[x] + s|
      ensures Before(([x] + s)[i], ([x] + s)[j])
    {
      assert ([x] + s)[j] == s[j - 1];
      if i > 0 {
        assert ([x] + s)[i] == s[i - 1];
      }
    }
  }

  lemma {:induction false} InsertSorted(c: Candidate, s: seq<Candidate>)
    requires SortedByStart(s)
    ensures SortedByStart(InsertByStart(c, s))
  {
    if s == [] || c.m.start <= s[0].m.start {
      forall e | e in s
        ensures c.m.start <= e.m.start
      {
        var i :| 0 <= i < |s| && s[i] == e;
        assert s[0].m.start <= s[i].m.start;
      }
      ConsSorted(c, s);
    } else {
      var r := InsertByStart(c, s[1..]);
      InsertSorted(c, s[1..]);
      forall e | e in r
        ensures s[0].m.start <= e.m.start
      {
        assert e in multiset(r);
        if e != c {
          assert e in multiset(s[1..]);
          var i :| 0 <= i < |s[1..]| && s[1..][i] == e;
          assert s[1..][i] == s[i + 1];
        }
      }
      ConsSorted(s[0], r);
    }
  }

  /** The result is ordered by start, whatever the input. */
  lemma {:induction false} SortSorted(cs: seq<Candidate>)
    ensures SortedByStart(SortByStart(cs))
  {
    if cs != [] {
      SortSorted(cs[1..]);
      InsertSorted(cs[0], SortByStart(cs[1..]));
    }
  }

  lemma {:induction false} InsertOrdered(c: Candidate, s: seq<Candidate>)
    requires StrictlyOrdered(s)
    requires forall e :: e in s && e.m.start == c.m.start ==> c.rule < e.rule
    ensures StrictlyOrdered(InsertByStart(c, s))
  {
    if s == [] || c.m.start <= s[0].m.start {
      forall e | e in s
        ensures Before(c, e)
      {
        var i :| 0 <= i < |s| && s[i] == e;
        if i > 0 {
          assert Before(s[0], s[i]);
        }
      }
      ConsOrdered(c, s);
    } else {
      var r := InsertByStart(c, s[1..]);
      InsertOrdered(c, s[1..]);
      forall e | e in r
        ensures Before(s[0], e)
      {
        assert e in multiset(r);
        if e != c {
          assert e in multiset(s[1..]);
          var i :| 0 <= i < |s[1..]| && s[1..][i] == e;
          assert s[1..][i] == s[i + 1];
        }
      }
      ConsOrdered(s[0], r);
    }
  }

  /** Stability: when equal starts were pushed in rule order, the result is
      ordered by start and then by rule. */
  lemma {:induction false} SortStable(cs: seq<Candidate>)
    requires TiesInRuleOrder(cs)
    ensures StrictlyOrdered(SortByStart(cs))
  {
    if cs != [] {
      var rest := cs[1..];
      assert TiesInRuleOrder(rest) by {
        forall i, j | 0 <= i < j < |rest| && rest[i].m.start == rest[j].m.start
          ensures rest[i].rule < rest[j].rule
        {
          assert rest[i] == cs[i + 1] && rest[j] == cs[j + 1];
        }
      }
      SortStable(rest);
      var sorted := SortByStart(rest);
      forall e | e in sorted && e.m.start == cs[0].m.start
        ensures cs[0].rule < e.rule
      {
        assert e in multiset(sorted);
        assert e in multiset(rest);
        var i :| 0 <= i < |rest| && rest[i] == e;
        assert rest[i] == cs[i + 1];
      }
      InsertOrdered(cs[0], sorted);
    }
  }
}
