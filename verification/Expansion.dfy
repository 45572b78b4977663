/**
 The inner loop of dictScan while a rehash is in progress: the buckets of the larger table
 that expand one bucket of the smaller table are visited by counting up in ordinary order,
 from the cursor on. The cursor itself moves in reversed order. This file says exactly when
 the two orders agree well enough for nothing to be passed over.
 */
module Expansion {
  import opened Words
  import opened Reversal
  import opened Cursor

  /** One step of the loop, (((v | m0) + 1) & ~m0) | (v & m0), for a mask m0 of `a` ones. */
  function NextExpansion(v: nat, a: nat, n: nat): (r: nat)
    requires a <= n && v < Pow2(n)
    ensures r < Pow2(n)
  {
    OrBoundOnes(v, a, n);
    AndBound(Increment(Or(v, Ones(a)), n), a, n);
    OrBound(And(Increment(Or(v, Ones(a)), n), Field(a, n)), And(v, Ones(a)), n);
    Or(And(Increment(Or(v, Ones(a)), n), Field(a, n)), And(v, Ones(a)))
  }

  lemma OrBoundOnes(v: nat, a: nat, n: nat)
    requires a <= n && v < Pow2(n)
    ensures Ones(a) < Pow2(n) && Or(v, Ones(a)) < Pow2(n)
  {
    Pow2Monotone(a, n);
    OrBound(v, Ones(a), n);
  }

  lemma AndBound(x: nat, a: nat, n: nat)
    requires a <= n
    ensures 0 <= Field(a, n) < Pow2(n)
  {
    Pow2Monotone(a, n);
  }

  /** The bits of `v` that the larger mask has and the smaller one has not: v & (m0 ^ m1), shifted down. */
  function FieldOf(v: nat, a: nat, b: nat): (f: nat) {
    Shr(Low(v, b), a)
  }

  lemma {:induction false} FieldIsLow(v: nat, a: nat, b: nat)
    requires a <= b
    ensures FieldOf(v, a, b) == Low(Shr(v, a), b - a)
    decreases a
  {
    hide Low, Shr;
    ShrStep(Low(v, b), a);
    ShrStep(v, a);
    if a > 0 {
      LowStep(v, b);
      FieldIsLow(v / 2, a - 1, b - 1);
    }
  }

  /** The bucket index in the larger table is the field on top of the index in the smaller one. */
  lemma LargerIndex(v: nat, a: nat, b: nat)
    requires a <= b
    ensures Low(v, b) == Shl(FieldOf(v, a, b), a) + Low(v, a)
    ensures FieldOf(v, a, b) < Pow2(b - a)
  {
    hide Low, Shr, Shl;
    Split(Low(v, b), a);
    LowOfLow(v, a, b);
    FieldIsLow(v, a, b);
  }

  lemma IndexOrder(v: nat, h: nat, a: nat, b: nat)
    requires a <= b && Low(h, a) == Low(v, a)
    ensures Low(v, b) <= Low(h, b) <==> FieldOf(v, a, b) <= FieldOf(h, a, b)
  {
    hide *;
    LargerIndex(v, a, b);
    LargerIndex(h, a, b);
    if FieldOf(v, a, b) < FieldOf(h, a, b) {
      ShlMonotone(FieldOf(v, a, b), FieldOf(h, a, b), a);
    } else if FieldOf(h, a, b) < FieldOf(v, a, b) {
      ShlMonotone(FieldOf(h, a, b), FieldOf(v, a, b), a);
    }
  }

  // ---------------------------------------------------------------- reversed order and ordinary order

  /** The set bits are contiguous from the lowest one: f & (f + 1) == 0. */
  predicate LowOnes(f: nat) {
    And(f, f + 1) == 0
  }

  lemma {:induction false} AndSelf(x: nat)
    ensures And(x, x) == x
  {
    hide *;
    AndStep(x, x);
    if x > 0 {
      AndSelf(x / 2);
    }
  }

  lemma LowOnesStep(f: nat)
    ensures LowOnes(f) <==> f == 0 || (f % 2 == 1 && LowOnes(f / 2))
  {
    hide And;
    AndStep(f, f + 1);
    if f % 2 == 0 {
      AndSelf(f / 2);
      assert (f + 1) / 2 == f / 2;
    } else {
      assert (f + 1) / 2 == f / 2 + 1;
    }
  }

  /** Reversed order looks at the lowest bit first. */
  lemma ReverseOrder(f: nat, g: nat, j: nat)
    requires j > 0
    ensures Reverse(f, j) <= Reverse(g, j) <==>
              f % 2 < g % 2 || (f % 2 == g % 2 && Reverse(f / 2, j - 1) <= Reverse(g / 2, j - 1))
  {
    hide *;
    ReverseStep(f, j);
    ReverseStep(g, j);
    if f % 2 < g % 2 {
      ShlMonotone(f % 2, g % 2, j - 1);
    } else if g % 2 < f % 2 {
      ShlMonotone(g % 2, f % 2, j - 1);
    }
  }

  /** From contiguous low ones, whatever comes later in reversed order is also larger. */
  lemma {:induction false} LaterIsLarger(f: nat, g: nat, j: nat)
    requires f < Pow2(j) && LowOnes(f)
    requires Reverse(f, j) <= Reverse(g, j)
    ensures f <= g
    decreases j
  {
    hide *;
    Pow2Step(j);
    LowOnesStep(f);
    if j > 0 && f > 0 {
      ReverseOrder(f, g, j);
      LaterIsLarger(f / 2, g / 2, j - 1);
    }
  }

  /** From any other field, something smaller comes later in reversed order. */
  lemma {:induction false} LaterButSmaller(f: nat, j: nat) returns (g: nat)
    requires f < Pow2(j) && !LowOnes(f)
    ensures g < f && Reverse(f, j) < Reverse(g, j)
    decreases j
  {
    hide *;
    Pow2Step(j);
    LowOnesStep(f);
    assert j > 0;
    if f % 2 == 0 {
      g := 1;
    } else {
      var g' := LaterButSmaller(f / 2, j - 1);
      g := 2 * g' + 1;
      Half(g', 1);
    }
    ReverseOrder(g, f, j);
  }

  // ---------------------------------------------------------------- words

  lemma {:induction false} ReverseConcat(x: nat, a: nat, b: nat)
    requires a <= b
    ensures Reverse(x, b) == Shl(Reverse(x, a), b - a) + Reverse(Shr(x, a), b - a)
    decreases a
  {
    hide *;
    ShrStep(x, a);
    ReverseStep(x, a);
    if a == 0 {
      ShlOfZero(b);
    } else {
      ReverseStep(x, b);
      ReverseConcat(x / 2, a - 1, b - 1);
      ShlShl(x % 2, a - 1, b - a);
      ShlAdd(Shl(x % 2, a - 1), Reverse(x / 2, a - 1), b - a);
    }
  }

  /** Words of one bucket of the smaller table are ordered by their reversed fields. */
  lemma FieldOrder(v: nat, h: nat, a: nat, b: nat)
    requires a <= b && Low(h, a) == Low(v, a)
    ensures Reverse(v, b) <= Reverse(h, b) <==> Reverse(FieldOf(v, a, b), b - a) <= Reverse(FieldOf(h, a, b), b - a)
  {
    hide *;
    ReverseConcat(v, a, b);
    ReverseConcat(h, a, b);
    ReverseIgnoresHighBits(v, a);
    ReverseIgnoresHighBits(h, a);
    FieldIsLow(v, a, b);
    FieldIsLow(h, a, b);
    ReverseIgnoresHighBits(Shr(v, a), b - a);
    ReverseIgnoresHighBits(Shr(h, a), b - a);
  }

  /** Is the word `h` passed over when the cursor `v` advances by one bucket of 2^a? */
  predicate PassedOver(v: nat, h: nat, a: nat, n: nat)
    requires a <= n
  {
    Reverse(v, n) <= Reverse(h, n) && (Advance(v, a, n) == 0 || Reverse(h, n) < Reverse(Advance(v, a, n), n))
  }

  /** Does the inner loop visit the bucket of `h` in the larger table? It starts at the cursor's
      own bucket and counts up through the expansions of the cursor's bucket in the smaller table. */
  predicate Visited(v: nat, h: nat, a: nat, b: nat) {
    Low(h, a) == Low(v, a) && Low(v, b) <= Low(h, b)
  }

  /** With contiguous low ones in the field, nothing is passed over unvisited. */
  lemma NothingMissed(v: nat, h: nat, a: nat, b: nat, n: nat)
    requires a <= b <= n && v < Pow2(n)
    requires LowOnes(FieldOf(v, a, b))
    requires PassedOver(v, h, a, n)
    ensures Visited(v, h, a, b)
  {
    hide Pow2, Low, Shr, Reverse, Advance, LowOnes, FieldOf;
    AdvanceCovers(v, h, a, n);
    ReversePrefix(v, b, n);
    ReversePrefix(h, b, n);
    ShrMonotone(Reverse(v, n), Reverse(h, n), n - b);
    FieldOrder(v, h, a, b);
    LargerIndex(v, a, b);
    LaterIsLarger(FieldOf(v, a, b), FieldOf(h, a, b), b - a);
    IndexOrder(v, h, a, b);
  }

  /** Otherwise some word is passed over and its bucket in the larger table is not visited. */
  lemma SomethingMissed(v: nat, a: nat, b: nat, n: nat) returns (h: nat)
    requires a <= b <= n && v < Pow2(n)
    requires !LowOnes(FieldOf(v, a, b))
    ensures h < Pow2(b) && PassedOver(v, h, a, n) && !Visited(v, h, a, b)
  {
    hide Pow2, Low, Shr, Shl, Reverse, Advance, LowOnes, FieldOf;
    LargerIndex(v, a, b);
    var f := FieldOf(v, a, b);
    var g := LaterButSmaller(f, b - a);
    h := Shl(g, a) + Low(v, a);
    ExpansionOf(g, v, a, b);
    FieldOrder(h, v, a, b);
    IndexOrder(v, h, a, b);
    AdvancePasses(v, h, a, n);
    ReversePrefix(v, b, n);
    ReversePrefix(h, b, n);
    if Reverse(h, n) <= Reverse(v, n) {
      ShrMonotone(Reverse(h, n), Reverse(v, n), n - b);
    }
  }

  lemma ExpansionOf(g: nat, v: nat, a: nat, b: nat)
    requires a <= b && g < Pow2(b - a)
    ensures var h := Shl(g, a) + Low(v, a); h < Pow2(b) && Low(h, a) == Low(v, a) && FieldOf(h, a, b) == g
  {
    hide Pow2, Low, Shr, Shl;
    var h := Shl(g, a) + Low(v, a);
    Join(g, Low(v, a), a);
    ShlMonotone(g, Pow2(b - a), a);
    ShlOfPow2(b - a, a);
    LowOfSmall(h, b);
  }

  /** The exact condition: a call made during a rehash from the cursor `v` visits the bucket of
      every word it passes over if and only if v & (m0 ^ m1) has contiguous low ones. */
  lemma CoverageCondition(v: nat, a: nat, b: nat, n: nat)
    requires a <= b <= n && v < Pow2(n)
    ensures (forall h: nat | h < Pow2(n) && PassedOver(v, h, a, n) :: Visited(v, h, a, b)) <==> LowOnes(FieldOf(v, a, b))
  {
    hide *;
    if LowOnes(FieldOf(v, a, b)) {
      forall h: nat | h < Pow2(n) && PassedOver(v, h, a, n)
        ensures Visited(v, h, a, b)
      {
        NothingMissed(v, h, a, b, n);
      }
    } else {
      var h := SomethingMissed(v, a, b, n);
      Pow2Monotone(b, n);
    }
  }

  /** Two simple cases of the condition: no bits in the field, or sizes that differ by a factor of two. */
  lemma ConditionHolds(v: nat, a: nat, b: nat)
    requires a <= b
    requires v < Pow2(a) || b <= a + 1
    ensures LowOnes(FieldOf(v, a, b))
  {
    hide Pow2, Low, Shr, FieldOf, LowOnes;
    LargerIndex(v, a, b);
    LowOnesStep(FieldOf(v, a, b));
    LowOnesStep(FieldOf(v, a, b) / 2);
    if v < Pow2(a) {
      Pow2Monotone(a, b);
      LowOfSmall(v, a);
      LowOfSmall(v, b);
      FieldIsShr(v, a, b);
    } else {
      Pow2Step(b - a);
      Pow2Step(0);
    }
  }

  lemma FieldIsShr(v: nat, a: nat, b: nat)
    ensures FieldOf(v, a, b) == Shr(Low(v, b), a)
  {
  }

  // ---------------------------------------------------------------- the loop step

  lemma {:induction false} LowOfSuccessor(x: nat, j: nat)
    ensures Low(x + 1, j) == if Low(x, j) == Ones(j) then 0 else Low(x, j) + 1
    decreases j
  {
    hide Low, Pow2;
    LowStep(x, j);
    LowStep(x + 1, j);
    Pow2Step(j);
    if j > 0 {
      if x % 2 == 0 {
        assert (x + 1) / 2 == x / 2;
      } else {
        assert (x + 1) / 2 == x / 2 + 1;
        LowOfSuccessor(x / 2, j - 1);
      }
    }
  }

  lemma {:induction false} LowOfShl(q: nat, a: nat)
    ensures Low(Shl(q, a), a) == 0 && Shr(Shl(q, a), a) == q
  {
    hide *;
    Pow2Step(a);
    Join(q, 0, a);
  }

  /** What the step does to the part of the cursor above the smaller mask. */
  function Wrapped(v: nat, a: nat, n: nat): (q: nat)
    requires a <= n
  {
    if Shr(v, a) + 1 == Pow2(n - a) then 0 else Shr(v, a) + 1
  }

  lemma FilledIncrement(v: nat, a: nat, n: nat)
    requires a <= n && v < Pow2(n)
    ensures Or(v, Ones(a)) < Pow2(n)
    ensures Increment(Or(v, Ones(a)), n) == Shl(Wrapped(v, a, n), a)
  {
    hide Pow2, Low, Shr, Shl, Or;
    OrBoundOnes(v, a, n);
    OrOnes(v, a);
    Split(v, a);
    ShlOfPow2(0, a);
    Pow2Step(0);
    ShlAdd(Shr(v, a), 1, a);
    ShlOfPow2(n - a, a);
    ShlOfZero(a);
    var q := Shr(v, a) + 1;
    if q < Pow2(n - a) {
      ShlMonotone(q, Pow2(n - a), a);
    } else if Pow2(n - a) < q {
      ShlMonotone(Pow2(n - a), q, a);
    }
  }

  lemma NextExpansionIs(v: nat, a: nat, n: nat)
    requires a <= n && v < Pow2(n)
    ensures NextExpansion(v, a, n) == Shl(Wrapped(v, a, n), a) + Low(v, a)
  {
    hide Pow2, Low, Shr, Shl, Or, And, Increment, Wrapped;
    FilledIncrement(v, a, n);
    var x := Increment(Or(v, Ones(a)), n);
    AndField(x, a, n);
    LowOfShl(Wrapped(v, a, n), a);
    LowOfSmall(x, n);
    AndOnes(v, a);
    OrDisjoint(Wrapped(v, a, n), Low(v, a), a);
  }

  /** The loop keeps the bucket of the smaller table and counts the field up, back to zero after its end. */
  lemma NextExpansionField(v: nat, a: nat, b: nat, n: nat)
    requires a <= b <= n && v < Pow2(n)
    ensures var v' := NextExpansion(v, a, n);
      && Low(v', a) == Low(v, a)
      && FieldOf(v', a, b) == if FieldOf(v, a, b) == Ones(b - a) then 0 else FieldOf(v, a, b) + 1
  {
    hide Pow2, Low, Shr, Shl, NextExpansion, FieldOf, Ones;
    var v' := NextExpansion(v, a, n);
    NextExpansionIs(v, a, n);
    Join(Wrapped(v, a, n), Low(v, a), a);
    FieldIsLow(v, a, b);
    FieldIsLow(v', a, b);
    LowOfSuccessor(Shr(v, a), b - a);
    LowOfPow2(n - a, b - a);
    LowOfZero(b - a);
  }

  lemma {:induction false} LowOfZero(j: nat)
    ensures Low(0, j) == 0
  {
    if j > 0 {
      LowOfZero(j - 1);
    }
  }

  lemma {:induction false} LowOfPow2(m: nat, j: nat)
    requires j <= m
    ensures Low(Pow2(m), j) == 0
  {
    hide *;
    ShlOfPow2(m - j, j);
    LowOfShl(Pow2(m - j), j);
  }

  /** The loop test v & (m0 ^ m1) looks at the field. */
  lemma LoopTest(v: nat, a: nat, b: nat)
    requires a <= b
    ensures Xor(Ones(a), Ones(b)) == Field(a, b)
    ensures And(v, Xor(Ones(a), Ones(b))) == 0 <==> FieldOf(v, a, b) == 0
  {
    hide *;
    XorOnes(a, b);
    AndField(v, a, b);
    LargerIndex(v, a, b);
    ShlOfZero(a);
    if FieldOf(v, a, b) > 0 {
      ShlMonotone(0, FieldOf(v, a, b), a);
    }
  }
}
