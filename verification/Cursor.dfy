/**
 The cursor of dictScan, for machine words of `n` bits. The scan counts with the bits of
 the cursor reversed, so the place a scan has reached is the number `Reverse(cursor, n)`,
 its rank.
 */
module Cursor {
  import opened Words
  import opened Reversal

  /** x + 1 on a word of `n` bits. */
  function Increment(x: nat, n: nat): (r: nat)
    requires x < Pow2(n)
    ensures r < Pow2(n)
  {
    if x == Ones(n) then 0 else x + 1
  }

  /** The end of dictScan: v |= ~m0; v = rev(v); v++; v = rev(v), for a mask m0 of `k` ones. */
  function Advance(v: nat, k: nat, n: nat): (r: nat)
    requires k <= n
    ensures r < Pow2(n)
  {
    Pow2Monotone(k, n);
    Reverse(Increment(Reverse(Or(v, Field(k, n)), n), n), n)
  }

  // ---------------------------------------------------------------- one advance

  lemma {:induction false} ReverseOfOnes(n: nat)
    ensures Reverse(Ones(n), n) == Ones(n)
  {
    hide *;
    OnesStep(n);
    ReverseStep(Ones(n), n);
    if n > 0 {
      ReverseOfOnes(n - 1);
      ShlOfPow2(0, n - 1);
      Pow2Step(n);
      OnesAre(n);
      OnesAre(n - 1);
    }
  }

  lemma OnesAre(n: nat)
    ensures Ones(n) == Pow2(n) - 1
  {
  }

  lemma FilledStep(v: nat, k: nat, n: nat)
    requires 0 < k <= n
    ensures Pow2(k) <= Pow2(n) && Pow2(k - 1) <= Pow2(n - 1)
    ensures (Low(v, k) + Field(k, n)) / 2 == Low(v / 2, k - 1) + Field(k - 1, n - 1)
    ensures (Low(v, k) + Field(k, n)) % 2 == v % 2
  {
    hide Words.Pow2, Words.Low;
    Pow2Step(k);
    Pow2Step(n);
    Pow2Monotone(k, n);
    Pow2Monotone(k - 1, n - 1);
    LowStep(v, k);
    Half(Low(v / 2, k - 1) + Field(k - 1, n - 1), v % 2);
  }

  /** Filling the bits above the mask puts the reversed cursor at the end of its block. */
  lemma {:induction false} ReverseOfFilled(v: nat, k: nat, n: nat)
    requires k <= n
    ensures Field(k, n) >= 0
    ensures Reverse(Low(v, k) + Field(k, n), n) == Shl(Reverse(v, k), n - k) + Ones(n - k)
    decreases n
  {
    hide *;
    FieldStep(k, n);
    LowStep(v, k);
    ReverseStep(v, k);
    if k == 0 {
      ReverseOfOnes(n);
      ShlOfZero(n);
    } else {
      FilledStep(v, k, n);
      ReverseStep(Low(v, k) + Field(k, n), n);
      ReverseOfFilled(v / 2, k - 1, n - 1);
      ShlShl(v % 2, k - 1, n - k);
      ShlAdd(Shl(v % 2, k - 1), Reverse(v / 2, k - 1), n - k);
    }
  }

  lemma {:induction false} ShlShl(x: nat, a: nat, b: nat)
    ensures Shl(Shl(x, a), b) == Shl(x, a + b)
    decreases b
  {
    hide *;
    ShlStep(Shl(x, a), b);
    ShlStep(x, a + b);
    if b > 0 {
      ShlShl(x, a, b - 1);
    }
  }

  /** Only the word zero has rank zero. */
  lemma RankZero(v: nat, n: nat)
    requires v < Pow2(n)
    ensures Reverse(v, n) == 0 <==> v == 0
  {
    hide *;
    ReverseInvolution(v, n);
    ReverseOfZero(n);
  }

  /** The reversed cursor just before the increment. */
  lemma BlockEnd(v: nat, k: nat, n: nat)
    requires k <= n && v < Pow2(n)
    ensures Field(k, n) >= 0
    ensures Reverse(Or(v, Field(k, n)), n) == Shl(Reverse(v, k), n - k) + Ones(n - k)
  {
    hide *;
    OrField(v, k, n);
    ReverseOfFilled(v, k, n);
  }

  /** The next block starts right after the end of this one, and the last block ends the words. */
  lemma BlockBounds(q: nat, k: nat, n: nat)
    requires k <= n && q <= Ones(k)
    ensures Shl(q, n - k) + Ones(n - k) + 1 == Shl(q + 1, n - k)
    ensures if q == Ones(k) then Shl(q + 1, n - k) == Pow2(n) else Shl(q + 1, n - k) < Pow2(n)
  {
    hide Words.Pow2, Words.Shl;
    ShlOfPow2(0, n - k);
    Pow2Step(0);
    ShlAdd(q, 1, n - k);
    ShlOfPow2(k, n - k);
    if q < Ones(k) {
      ShlMonotone(q + 1, Pow2(k), n - k);
    }
  }

  /** Reversing the cursor back undoes the second rev(). */
  lemma AdvanceReversed(v: nat, k: nat, n: nat)
    requires k <= n
    ensures Field(k, n) >= 0
    ensures Reverse(Advance(v, k, n), n) == Increment(Reverse(Or(v, Field(k, n)), n), n)
  {
    hide Words.Pow2, Words.Or, Reversal.Reverse, Increment;
    FieldStep(k, n);
    ReverseInvolution(Increment(Reverse(Or(v, Field(k, n)), n), n), n);
  }

  lemma IncrementIs(x: nat, n: nat)
    requires x < Pow2(n)
    ensures Increment(x, n) == if x + 1 == Pow2(n) then 0 else x + 1
  {
  }

  /** In scan order the cursor moves to the start of the next block of 2^(n-k) ranks,
      or back to zero from the last block. */
  lemma AdvanceRank(v: nat, k: nat, n: nat)
    requires k <= n && v < Pow2(n)
    ensures Shr(Reverse(v, n), n - k) == Reverse(v, k) <= Ones(k)
    ensures Reverse(v, k) == Ones(k) ==> Advance(v, k, n) == 0
    ensures Reverse(v, k) < Ones(k) ==>
              Advance(v, k, n) != 0 && Reverse(Advance(v, k, n), n) == Shl(Reverse(v, k) + 1, n - k)
  {
    hide *;
    OnesAre(k);
    ReversePrefix(v, k, n);
    BlockEnd(v, k, n);
    BlockBounds(Reverse(v, k), k, n);
    AdvanceReversed(v, k, n);
    IncrementIs(Reverse(Or(v, Field(k, n)), n), n);
    RankZero(Advance(v, k, n), n);
  }

  /** Every word passed over by an advance lies in the bucket of the cursor. */
  lemma AdvanceCovers(v: nat, h: nat, k: nat, n: nat)
    requires k <= n && v < Pow2(n)
    requires Reverse(v, n) <= Reverse(h, n)
    requires Advance(v, k, n) == 0 || Reverse(h, n) < Reverse(Advance(v, k, n), n)
    ensures Low(h, k) == Low(v, k)
  {
    hide *;
    var p, q := Shr(Reverse(h, n), n - k), Reverse(v, k);
    AdvanceRank(v, k, n);
    SameBucket(h, v, k, n);
    ReversePrefix(h, k, n);
    OnesAre(k);
    ShrMonotone(Reverse(v, n), Reverse(h, n), n - k);
    if q < p {
      Split(Reverse(h, n), n - k);
      if q + 1 < p {
        ShlMonotone(q + 1, p, n - k);
      }
    }
  }

  /** And the other way round: an advance passes every word in the bucket of the cursor. */
  lemma AdvancePasses(v: nat, h: nat, k: nat, n: nat)
    requires k <= n && v < Pow2(n)
    requires Low(h, k) == Low(v, k)
    ensures Advance(v, k, n) == 0 || Reverse(h, n) < Reverse(Advance(v, k, n), n)
  {
    hide *;
    var q := Reverse(v, k);
    AdvanceRank(v, k, n);
    SameBucket(h, v, k, n);
    assert Shr(Reverse(h, n), n - k) == q;
    Split(Reverse(h, n), n - k);
    ShlMonotone(q, q + 1, n - k);
  }

  /** The rank grows until the cursor is back at zero. */
  lemma AdvanceIncreases(v: nat, k: nat, n: nat)
    requires k <= n && v < Pow2(n)
    ensures Advance(v, k, n) == 0 || Reverse(v, n) < Reverse(Advance(v, k, n), n)
  {
    hide *;
    AdvancePasses(v, v, k, n);
  }

  lemma {:induction false} ReverseOfSmall(w: nat, k: nat, n: nat)
    requires k <= n && w < Pow2(k)
    ensures Reverse(w, n) == Shl(Reverse(w, k), n - k)
    decreases n - k
  {
    hide *;
    ShlStep(Reverse(w, k), n - k);
    if k < n {
      ReverseHighBit(w, n);
      Pow2Monotone(k, n - 1);
      LowOfSmall(w, n - 1);
      ReverseOfSmall(w, k, n - 1);
    }
  }

  /** The new cursor has no bits outside the mask it was advanced with. */
  lemma AdvanceStaysInMask(v: nat, k: nat, n: nat)
    requires k <= n && v < Pow2(n)
    ensures Advance(v, k, n) < Pow2(k)
  {
    hide *;
    var q := Reverse(v, k);
    AdvanceRank(v, k, n);
    OnesAre(k);
    if q < Ones(k) {
      var w := Reverse(q + 1, k);
      ReverseInvolution(q + 1, k);
      ReverseOfSmall(w, k, n);
      Pow2Monotone(k, n);
      ReverseInvolution(w, n);
      ReverseInvolution(Advance(v, k, n), n);
    }
  }
}
