/** Element types as bit flags.

    An element type is a bit mask.  JavaScript's `&`, `|` and `>>` act on
    32-bit integers; every mask the parser builds is a non-negative value far
    below 2^31, where those operators agree with the bitwise operations on
    natural numbers written out here (`>> 1` is halving).  `hasType` and
    `iterateTypes` are shared by src/lupydMarkdown.ts and its bundled copy in
    public/index.js; the two differ only in the largest flag they visit. */
module TypeBits {

  /** Bit `k` of `x`. */
  predicate Bit(x: nat, k: nat) {
    if k == 0 then x % 2 == 1 else Bit(x / 2, k - 1)
  }

  /** `a & b` on non-negative integers. */
  function And(a: nat, b: nat): nat
    decreases a
  {
    if a == 0 || b == 0 then 0
    else 2 * And(a / 2, b / 2) + (if a % 2 == 1 && b % 2 == 1 then 1 else 0)
  }

  /** `a | b` on non-negative integers. */
  function Or(a: nat, b: nat): nat
    decreases a + b
  {
    if a == 0 then b
    else if b == 0 then a
    else 2 * Or(a / 2, b / 2) + (if a % 2 == 1 || b % 2 == 1 then 1 else 0)
  }

  function Pow2(k: nat): nat {
    if k == 0 then 1 else 2 * Pow2(k - 1)
  }

  /** The mask of the `n` lowest bits, `2^n - 1`. */
  function Ones(n: nat): nat {
    if n == 0 then 0 else 2 * Ones(n - 1) + 1
  }

  /** `hasType(type, checkType)`: `(type & checkType) === checkType`. */
  predicate HasType(t: nat, c: nat) {
    And(t, c) == c
  }

  /** The OR of a list of masks. */
  function Union(s: seq<nat>): nat {
    if s == [] then 0 else Or(s[0], Union(s[1..]))
  }

  /** The flags of `t` that the `iterateTypes` loop pushes when it starts at
      `c`: `c` itself when `t` has it, then those found from `c >> 1`. */
  function Descend(t: nat, c: nat): seq<nat>
    decreases c
  {
    if c == 0 then [] else (if HasType(t, c) then [c] else []) + Descend(t, c / 2)
  }

  // ---------------------------------------------------------------------
  // Bits of the basic operations

  lemma {:induction false} BitOfZero(k: nat)
    ensures !Bit(0, k)
  {
    if k > 0 {
      BitOfZero(k - 1);
    }
  }

  /** Halving `2x + b` for a bit `b`. */
  lemma Halve(x: nat, b: nat)
    requires b <= 1
    ensures (2 * x + b) / 2 == x && (2 * x + b) % 2 == b
  {
  }

  lemma {:induction false} BitOfAnd(a: nat, b: nat, k: nat)
    ensures Bit(And(a, b), k) == (Bit(a, k) && Bit(b, k))
    decreases a
  {
    if a == 0 || b == 0 {
      BitOfZero(k);
    } else {
      var r := And(a / 2, b / 2);
      var lo := if a % 2 == 1 && b % 2 == 1 then 1 else 0;
      assert And(a, b) == 2 * r + lo;
      Halve(r, lo);
      if k > 0 {
        assert Bit(And(a, b), k) == Bit(r, k - 1);
        BitOfAnd(a / 2, b / 2, k - 1);
      }
    }
  }

  lemma {:induction false} BitOfOr(a: nat, b: nat, k: nat)
    ensures Bit(Or(a, b), k) == (Bit(a, k) || Bit(b, k))
    decreases a + b
  {
    if a == 0 {
      BitOfZero(k);
    } else if b == 0 {
      BitOfZero(k);
    } else {
      var r := Or(a / 2, b / 2);
      var lo := if a % 2 == 1 || b % 2 == 1 then 1 else 0;
      assert Or(a, b) == 2 * r + lo;
      Halve(r, lo);
      if k > 0 {
        assert Bit(Or(a, b), k) == Bit(r, k - 1);
        BitOfOr(a / 2, b / 2, k - 1);
      }
    }
  }

  lemma {:induction false} BitOfPow2(k: nat, j: nat)
    ensures Bit(Pow2(k), j) <==> j == k
  {
    if k == 0 {
      if j > 0 {
        BitOfZero(j - 1);
      }
    } else if j > 0 {
      BitOfPow2(k - 1, j - 1);
    }
  }

  lemma {:induction false} BitOfOnes(n: nat, j: nat)
    ensures Bit(Ones(n), j) <==> j < n
  {
    if n == 0 {
      BitOfZero(j);
    } else if j > 0 {
      BitOfOnes(n - 1, j - 1);
    }
  }

  /** Two numbers with the same bits are equal. */
  lemma {:induction false} SameBits(a: nat, b: nat)
    requires forall k: nat :: Bit(a, k) == Bit(b, k)
    ensures a == b
    decreases a + b
  {
    if a != 0 || b != 0 {
      assert Bit(a, 0) == Bit(b, 0);
      forall k: nat
        ensures Bit(a / 2, k) == Bit(b / 2, k)
      {
        assert Bit(a, k + 1) == Bit(b, k + 1);
      }
      SameBits(a / 2, b / 2);
    }
  }

  /** Every set bit of `c` is a set bit of `t`. */
  ghost predicate BitsWithin(c: nat, t: nat) {
    forall k: nat :: Bit(c, k) ==> Bit(t, k)
  }

  /** `hasType(t, c)` holds exactly when every bit of `c` is a bit of `t`. */
  lemma HasTypeIsInclusion(t: nat, c: nat)
    ensures HasType(t, c) <==> BitsWithin(c, t)
  {
    if HasType(t, c) {
      HasTypeGivesInclusion(t, c);
    }
    if BitsWithin(c, t) {
      InclusionGivesHasType(t, c);
    }
  }

  lemma HasTypeGivesInclusion(t: nat, c: nat)
    requires HasType(t, c)
    ensures forall k: nat :: Bit(c, k) ==> Bit(t, k)
  {
    forall k: nat | Bit(c, k)
      ensures Bit(t, k)
    {
      BitOfAnd(t, c, k);
      assert Bit(And(t, c), k);
    }
  }

  lemma InclusionGivesHasType(t: nat, c: nat)
    requires forall k: nat :: Bit(c, k) ==> Bit(t, k)
    ensures HasType(t, c)
  {
    forall k: nat
      ensures Bit(And(t, c), k) == Bit(c, k)
    {
      BitOfAnd(t, c, k);
    }
    SameBits(And(t, c), c);
  }

  /** `hasType(t, 2^k)` tests bit `k` of `t`. */
  lemma HasFlag(t: nat, k: nat)
    ensures HasType(t, Pow2(k)) <==> Bit(t, k)
  {
    HasTypeIsInclusion(t, Pow2(k));
    BitOfPow2(k, k);
    if Bit(t, k) {
      forall j: nat | Bit(Pow2(k), j)
        ensures Bit(t, j)
      {
        BitOfPow2(k, j);
      }
    }
  }

  /** `a | b` has every bit of `a` and of `b`. */
  lemma OrHasBoth(a: nat, b: nat)
    ensures HasType(Or(a, b), a) && HasType(Or(a, b), b)
  {
    HasTypeIsInclusion(Or(a, b), a);
    HasTypeIsInclusion(Or(a, b), b);
    forall k: nat
      ensures Bit(Or(a, b), k) == (Bit(a, k) || Bit(b, k))
    {
      BitOfOr(a, b, k);
    }
  }

  /** A mask that has all bits of `a` and of `b` has all bits of `a | b`. */
  lemma OrWithin(m: nat, a: nat, b: nat)
    requires HasType(m, a) && HasType(m, b)
    ensures HasType(m, Or(a, b))
  {
    HasTypeIsInclusion(m, a);
    HasTypeIsInclusion(m, b);
    HasTypeIsInclusion(m, Or(a, b));
    forall k: nat | Bit(Or(a, b), k)
      ensures Bit(m, k)
    {
      BitOfOr(a, b, k);
    }
  }

  /** Having all bits of something is transitive. */
  lemma HasTypeTransitive(a: nat, b: nat, c: nat)
    requires HasType(a, b) && HasType(b, c)
    ensures HasType(a, c)
  {
    HasTypeIsInclusion(a, b);
    HasTypeIsInclusion(b, c);
    HasTypeIsInclusion(a, c);
  }

  // ---------------------------------------------------------------------
  // The iterateTypes loop

  lemma HalvePow2(k: nat)
    ensures k > 0 ==> Pow2(k) / 2 == Pow2(k - 1)
    ensures k == 0 ==> Pow2(k) / 2 == 0
    ensures Pow2(k) > 0
  {
    if k > 0 {
      HalvePow2(k - 1);
    }
  }

  lemma {:induction false} Pow2Monotone(j: nat, k: nat)
    requires j < k
    ensures Pow2(j) < Pow2(k)
  {
    HalvePow2(k);
    if j < k - 1 {
      Pow2Monotone(j, k - 1);
    }
  }

  /** `x` is `2^j` for a set bit `j <= k` of `t`. */
  predicate FlagOf(t: nat, k: nat, x: nat) {
    exists j: nat :: j <= k && x == Pow2(j) && Bit(t, j)
  }

  /** Every listed value is positive and at most the starting flag. */
  lemma {:induction false} DescendBounded(t: nat, c: nat)
    ensures forall i :: 0 <= i < |Descend(t, c)| ==> 0 < Descend(t, c)[i] <= c
    decreases c
  {
    if c != 0 {
      var head := if HasType(t, c) then [c] else [];
      var rest := Descend(t, c / 2);
      DescendBounded(t, c / 2);
      assert Descend(t, c) == head + rest;
      forall i | 0 <= i < |head + rest|
        ensures 0 < (head + rest)[i] <= c
      {
        if i >= |head| {
          assert (head + rest)[i] == rest[i - |head|];
        }
      }
    }
  }

  /** The list is strictly decreasing. */
  lemma {:induction false} DescendDecreasing(t: nat, c: nat)
    ensures forall i, j :: 0 <= i < j < |Descend(t, c)| ==> Descend(t, c)[i] > Descend(t, c)[j]
    decreases c
  {
    if c != 0 {
      var head := if HasType(t, c) then [c] else [];
      var rest := Descend(t, c / 2);
      DescendDecreasing(t, c / 2);
      DescendBounded(t, c / 2);
      assert Descend(t, c) == head + rest;
      forall i, j | 0 <= i < j < |head + rest|
        ensures (head + rest)[i] > (head + rest)[j]
      {
        assert (head + rest)[j] == rest[j - |head|];
        if i >= |head| {
          assert (head + rest)[i] == rest[i - |head|];
        }
      }
    }
  }

  /** Every listed value starting from `2^k` is a flag of `t`. */
  lemma {:induction false} DescendFlags(t: nat, k: nat)
    ensures forall i :: 0 <= i < |Descend(t, Pow2(k))| ==> FlagOf(t, k, Descend(t, Pow2(k))[i])
  {
    var c := Pow2(k);
    HalvePow2(k);
    HasFlag(t, k);
    var head := if HasType(t, c) then [c] else [];
    var rest := Descend(t, c / 2);
    assert Descend(t, c) == head + rest;
    if k == 0 {
      assert rest == [];
    } else {
      DescendFlags(t, k - 1);
    }
    forall i | 0 <= i < |head + rest|
      ensures FlagOf(t, k, (head + rest)[i])
    {
      if i < |head| {
        assert (head + rest)[i] == Pow2(k);
      } else {
        var x := rest[i - |head|];
        assert (head + rest)[i] == x;
        assert FlagOf(t, k - 1, x);
        var j: nat :| j <= k - 1 && x == Pow2(j) && Bit(t, j);
        assert j <= k;
      }
    }
  }

  /** Every flag of `t` at or below `2^k` is listed: `2^j` is in the list
      exactly when bit `j` of `t` is set. */
  lemma {:induction false} DescendComplete(t: nat, k: nat, j: nat)
    requires j <= k
    ensures Pow2(j) in Descend(t, Pow2(k)) <==> Bit(t, j)
  {
    var c := Pow2(k);
    HalvePow2(k);
    HasFlag(t, k);
    DescendFlags(t, k);
    if Pow2(j) in Descend(t, c) {
      var i :| 0 <= i < |Descend(t, c)| && Descend(t, c)[i] == Pow2(j);
      assert FlagOf(t, k, Descend(t, c)[i]);
      var j': nat :| j' <= k && Descend(t, c)[i] == Pow2(j') && Bit(t, j');
      if j' < j {
        Pow2Monotone(j', j);
      } else if j < j' {
        Pow2Monotone(j, j');
      }
    }
    if j < k {
      DescendComplete(t, k - 1, j);
      Pow2Monotone(j, k);
    }
  }

  /** OR-ing the list back together gives exactly the bits of `t` at or
      below `2^k`: `t & (2^(k+1) - 1)`. */
  lemma {:induction false} DescendUnion(t: nat, k: nat)
    ensures Union(Descend(t, Pow2(k))) == And(t, Ones(k + 1))
  {
    var c := Pow2(k);
    HalvePow2(k);
    HasFlag(t, k);
    var rest := if k == 0 then [] else Descend(t, Pow2(k - 1));
    assert Descend(t, c / 2) == rest;
    var low := if k == 0 then 0 else Union(rest);
    if k > 0 {
      DescendUnion(t, k - 1);
    } else {
      assert Union(rest) == 0;
    }
    assert Union(rest) == low;
    var d := Descend(t, c);
    var u := if HasType(t, c) then Or(c, low) else low;
    if HasType(t, c) {
      assert d == [c] + rest;
      assert d[1..] == rest;
    } else {
      assert d == rest;
    }
    assert Union(d) == u;
    forall n: nat
      ensures Bit(u, n) == Bit(And(t, Ones(k + 1)), n)
    {
      BitOfAnd(t, Ones(k + 1), n);
      BitOfOnes(k + 1, n);
      BitOfOr(c, low, n);
      BitOfPow2(k, n);
      if k == 0 {
        BitOfZero(n);
      } else {
        BitOfAnd(t, Ones(k), n);
        BitOfOnes(k, n);
      }
    }
    SameBits(u, And(t, Ones(k + 1)));
  }

  /** No flag is listed for the empty mask `Normal`. */
  lemma {:induction false} DescendNone(c: nat)
    ensures Descend(0, c) == []
    decreases c
  {
    if c != 0 {
      DescendNone(c / 2);
    }
  }

  /** The list holds at most one flag per bit position visited. */
  lemma {:induction false} DescendLength(t: nat, k: nat)
    ensures |Descend(t, Pow2(k))| <= k + 1
  {
    HalvePow2(k);
    if k > 0 {
      DescendLength(t, k - 1);
    }
  }

  /** Everything the list of flags from `2^k` promises, gathered. */
  lemma DescendFacts(t: nat, k: nat)
    ensures forall i :: 0 <= i < |Descend(t, Pow2(k))| ==> FlagOf(t, k, Descend(t, Pow2(k))[i])
    ensures forall i, j :: 0 <= i < j < |Descend(t, Pow2(k))| ==> Descend(t, Pow2(k))[i] > Descend(t, Pow2(k))[j]
    ensures forall j: nat :: j <= k ==> (Pow2(j) in Descend(t, Pow2(k)) <==> Bit(t, j))
    ensures Union(Descend(t, Pow2(k))) == And(t, Ones(k + 1))
    ensures |Descend(t, Pow2(k))| <= k + 1
  {
    DescendFlags(t, k);
    DescendDecreasing(t, Pow2(k));
    forall j: nat | j <= k
      ensures Pow2(j) in Descend(t, Pow2(k)) <==> Bit(t, j)
    {
      DescendComplete(t, k, j);
    }
    DescendUnion(t, k);
    DescendLength(t, k);
  }

  /** One turn of the loop: the flags still to come from `c` are `c` itself
      when `t` has it, then those from `c >> 1`. */
  lemma DescendStep(t: nat, c: nat, done: seq<nat>, total: seq<nat>)
    requires c != 0
    requires done + Descend(t, c) == total
    ensures HasType(t, c) ==> (done + [c]) + Descend(t, c / 2) == total
    ensures !HasType(t, c) ==> done + Descend(t, c / 2) == total
  {
    if HasType(t, c) {
      assert Descend(t, c) == [c] + Descend(t, c / 2);
      assert done + ([c] + Descend(t, c / 2)) == (done + [c]) + Descend(t, c / 2);
    } else {
      assert Descend(t, c) == Descend(t, c / 2);
    }
  }

  /** The `iterateTypes` loop, starting at the largest flag `2^k`: test the
      current flag, push it when `t` has it, halve it, stop at 0. */
  method IterateTypesFrom(t: nat, k: nat) returns (types: seq<nat>)
    ensures types == Descend(t, Pow2(k))
    ensures forall i :: 0 <= i < |types| ==> FlagOf(t, k, types[i])
    ensures forall i, j :: 0 <= i < j < |types| ==> types[i] > types[j]
    ensures forall j: nat :: j <= k ==> (Pow2(j) in types <==> Bit(t, j))
    ensures Union(types) == And(t, Ones(k + 1))
    ensures |types| <= k + 1
  {
    ghost var total := Descend(t, Pow2(k));
    types := [];
    var checkType := Pow2(k);
    while checkType != 0
      invariant types + Descend(t, checkType) == total
      decreases checkType
    {
      DescendStep(t, checkType, types, total);
      if HasType(t, checkType) {
        types := types + [checkType];
      }
      checkType := checkType / 2;
    }
    assert types + [] == types;
    DescendFacts(t, k);
  }
}
