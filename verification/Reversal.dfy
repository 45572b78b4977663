/**
 The bit reversal of dict.c: what reversing the bits of a number means, and the
 parallel-swap loop that computes it for a 64-bit word.
 */
module Reversal {
  import opened Words

  /** The `n` lowest bits of `v`, read in the opposite order. */
  function Reverse(v: nat, n: nat): (r: nat)
    ensures r < Pow2(n)
    decreases n
  {
    if n == 0 then 0
    else if v % 2 == 1 then Pow2(n - 1) + Reverse(v / 2, n - 1) else Reverse(v / 2, n - 1)
  }

  lemma ReverseStep(v: nat, n: nat)
    ensures Reverse(v, 0) == 0
    ensures n > 0 ==> Reverse(v, n) == Shl(v % 2, n - 1) + Reverse(v / 2, n - 1)
  {
    hide Shl;
    if n > 0 {
      ShlOfPow2(0, n - 1);
      ShlOfZero(n - 1);
    }
  }

  lemma {:induction false} ReverseOfZero(n: nat)
    ensures Reverse(0, n) == 0
  {
    if n > 0 {
      ReverseOfZero(n - 1);
    }
  }

  /** The highest of the `n` bits becomes the lowest bit of the reversal. */
  lemma {:induction false} ReverseHighBit(v: nat, n: nat)
    requires n > 0
    ensures Reverse(v, n) == 2 * Reverse(v, n - 1) + Shr(v, n - 1) % 2
    decreases n
  {
    hide *;
    ReverseStep(v, n);
    ReverseStep(v, n - 1);
    ShlStep(v % 2, n - 1);
    ShrStep(v, n - 1);
    if n > 1 {
      ReverseHighBit(v / 2, n - 1);
    } else {
      ReverseStep(v / 2, n - 1);
    }
  }

  /** The first bits of the reversal are the reversal of the lowest bits. */
  lemma {:induction false} ReversePrefix(v: nat, k: nat, n: nat)
    requires k <= n
    ensures Shr(Reverse(v, n), n - k) == Reverse(v, k)
    decreases n - k
  {
    hide *;
    ShrStep(Reverse(v, n), n - k);
    if k < n {
      ReverseHighBit(v, n);
      Half(Reverse(v, n - 1), Shr(v, n - 1) % 2);
      ReversePrefix(v, k, n - 1);
    }
  }

  lemma {:induction false} ReverseIgnoresHighBits(v: nat, k: nat)
    ensures Reverse(Low(v, k), k) == Reverse(v, k)
    decreases k
  {
    hide *;
    ReverseStep(v, k);
    ReverseStep(Low(v, k), k);
    LowStep(v, k);
    if k > 0 {
      ReverseIgnoresHighBits(v / 2, k - 1);
    }
  }

  lemma {:induction false} ReverseTwice(v: nat, n: nat)
    ensures Reverse(Reverse(v, n), n) == Low(v, n)
    decreases n
  {
    hide *;
    ReverseStep(v, n);
    LowStep(v, n);
    if n == 0 {
      ReverseStep(Reverse(v, 0), 0);
    } else {
      Join(v % 2, Reverse(v / 2, n - 1), n - 1);
      ReverseHighBit(Reverse(v, n), n);
      ReverseIgnoresHighBits(Reverse(v, n), n - 1);
      ReverseTwice(v / 2, n - 1);
    }
  }

  lemma ReverseInvolution(w: nat, n: nat)
    requires w < Pow2(n)
    ensures Reverse(Reverse(w, n), n) == w
  {
    hide *;
    ReverseTwice(w, n);
    LowOfSmall(w, n);
  }

  /** Two words fall in the same bucket of a table of 2^k buckets exactly when their
      reversals lie in the same aligned block. */
  lemma SameBucket(h: nat, v: nat, k: nat, n: nat)
    requires k <= n
    ensures Low(h, k) == Low(v, k) <==> Shr(Reverse(h, n), n - k) == Shr(Reverse(v, n), n - k)
  {
    hide *;
    ReversePrefix(h, k, n);
    ReversePrefix(v, k, n);
    ReverseIgnoresHighBits(h, k);
    ReverseIgnoresHighBits(v, k);
    ReverseTwice(h, k);
    ReverseTwice(v, k);
  }

  // ---------------------------------------------------------------- single bits

  predicate Bit(x: nat, i: nat) {
    if i == 0 then x % 2 == 1 else Bit(x / 2, i - 1)
  }

  lemma BitStep(x: nat, i: nat)
    ensures Bit(x, 0) <==> x % 2 == 1
    ensures i > 0 ==> Bit(x, i) == Bit(x / 2, i - 1)
  {
  }

  lemma {:induction false} BitZero(i: nat)
    ensures !Bit(0, i)
  {
    if i > 0 {
      BitZero(i - 1);
    }
  }

  lemma {:induction false} BitAnd(x: nat, y: nat, i: nat)
    ensures Bit(And(x, y), i) <==> Bit(x, i) && Bit(y, i)
    decreases i
  {
    hide *;
    AndStep(x, y);
    BitStep(x, i);
    BitStep(y, i);
    BitStep(And(x, y), i);
    if i > 0 {
      BitAnd(x / 2, y / 2, i - 1);
    }
  }

  lemma {:induction false} BitOr(x: nat, y: nat, i: nat)
    ensures Bit(Or(x, y), i) <==> Bit(x, i) || Bit(y, i)
    decreases i
  {
    hide *;
    OrStep(x, y);
    BitStep(x, i);
    BitStep(y, i);
    BitStep(Or(x, y), i);
    if i > 0 {
      BitOr(x / 2, y / 2, i - 1);
    }
  }

  lemma {:induction false} BitXor(x: nat, y: nat, i: nat)
    ensures Bit(Xor(x, y), i) <==> Bit(x, i) != Bit(y, i)
    decreases i
  {
    hide *;
    XorStep(x, y);
    BitStep(x, i);
    BitStep(y, i);
    BitStep(Xor(x, y), i);
    if i > 0 {
      BitXor(x / 2, y / 2, i - 1);
    }
  }

  lemma {:induction false} BitComplement(x: nat, n: nat, i: nat)
    requires x < Pow2(n) && i < n
    ensures Bit(Ones(n) - x, i) <==> !Bit(x, i)
    decreases n
  {
    hide Pow2, Bit;
    Pow2Step(n);
    BitStep(x, i);
    BitStep(Ones(n) - x, i);
    assert (Ones(n) - x) / 2 == Ones(n - 1) - x / 2 && (Ones(n) - x) % 2 == 1 - x % 2;
    if i > 0 {
      BitComplement(x / 2, n - 1, i - 1);
    }
  }

  lemma {:induction false} BitShr(x: nat, s: nat, i: nat)
    ensures Bit(Shr(x, s), i) <==> Bit(x, i + s)
    decreases s
  {
    hide *;
    ShrStep(x, s);
    if s > 0 {
      BitStep(x, i + s);
      BitShr(x / 2, s - 1, i);
    }
  }

  lemma {:induction false} BitOfShl(x: nat, s: nat, i: nat)
    ensures Bit(Shl(x, s), i) <==> i >= s && Bit(x, i - s)
    decreases s
  {
    hide *;
    ShlStep(x, s);
    if s > 0 {
      Half(Shl(x, s - 1), 0);
      BitStep(Shl(x, s), i);
      if i > 0 {
        BitOfShl(x, s - 1, i - 1);
      }
    }
  }

  lemma {:induction false} BitOfLow(x: nat, n: nat, i: nat)
    ensures Bit(Low(x, n), i) <==> i < n && Bit(x, i)
    decreases n
  {
    hide *;
    LowStep(x, n);
    if n == 0 {
      BitZero(i);
    } else {
      BitStep(x, i);
      BitStep(Low(x, n), i);
      if i > 0 {
        BitOfLow(x / 2, n - 1, i - 1);
      }
    }
  }

  lemma BitOfSum(q: nat, r: nat, n: nat, i: nat)
    requires r < Pow2(n) && i <= n
    ensures Bit(Shl(q, n) + r, i) <==> if i == n then q % 2 == 1 else Bit(r, i)
  {
    hide *;
    Join(q, r, n);
    BitShr(Shl(q, n) + r, n, 0);
    BitStep(q, 0);
    BitOfLow(Shl(q, n) + r, n, i);
  }

  lemma {:induction false} BitOfReverse(v: nat, n: nat, i: nat)
    requires i < n
    ensures Bit(Reverse(v, n), i) <==> Bit(v, n - 1 - i)
    decreases n
  {
    hide *;
    ReverseStep(v, n);
    BitOfSum(v % 2, Reverse(v / 2, n - 1), n - 1, i);
    BitStep(v, n - 1 - i);
    if i < n - 1 {
      BitOfReverse(v / 2, n - 1, i);
    }
  }

  /** A number below 2^n is known by its `n` bits. */
  lemma {:induction false} SameBits(x: nat, y: nat, n: nat)
    requires x < Pow2(n) && y < Pow2(n)
    requires forall i :: 0 <= i < n ==> Bit(x, i) == Bit(y, i)
    ensures x == y
    decreases n
  {
    hide *;
    Pow2Step(n);
    if n > 0 {
      BitStep(x, 0);
      BitStep(y, 0);
      assert Bit(x, 0) == Bit(y, 0);
      forall i | 0 <= i < n - 1
        ensures Bit(x / 2, i) == Bit(y / 2, i)
      {
        BitStep(x, i + 1);
        BitStep(y, i + 1);
        assert Bit(x, i + 1) == Bit(y, i + 1);
      }
      SameBits(x / 2, y / 2, n - 1);
    }
  }

  lemma BitShl(x: u64, s: nat, i: nat)
    requires i < WORD_BITS
    ensures Bit(ShlWord(x, s), i) <==> i >= s && Bit(x, i - s)
  {
    hide Low, Shl, Bit;
    BitOfLow(Shl(x, s), WORD_BITS, i);
    BitOfShl(x, s, i);
  }

  // ---------------------------------------------------------------- rev()

  predicate Stride(s: nat) {
    s == 32 || s == 16 || s == 8 || s == 4 || s == 2 || s == 1
  }

  /** Where bit `i` comes from once the blocks of `b` bits are in the opposite order. */
  function Origin(b: nat, i: nat): (j: int) {
    64 - b - i + 2 * LowPart(b, i)
  }

  /** i % b, for the block sizes that occur. */
  function LowPart(b: nat, i: nat): (t: nat) {
    if b == 64 then i
    else if b == 32 then i % 32
    else if b == 16 then i % 16
    else if b == 8 then i % 8
    else if b == 4 then i % 4
    else if b == 2 then i % 2
    else 0
  }

  /** Is bit `i` in an even-numbered block of `b` bits? */
  predicate Even(b: nat, i: nat) {
    if b == 64 then true
    else if b == 32 then (i / 32) % 2 == 0
    else if b == 16 then (i / 16) % 2 == 0
    else if b == 8 then (i / 8) % 2 == 0
    else if b == 4 then (i / 4) % 2 == 0
    else if b == 2 then (i / 2) % 2 == 0
    else i % 2 == 0
  }

  ghost predicate Halves(s: nat, i: nat) {
    && (Even(s, i) <==> (Even(2 * s, i) != (i >= s && Even(2 * s, i - s))))
    && (Even(s, i) ==> i + s < 64 && Origin(s, i) == Origin(2 * s, i + s))
    && (!Even(s, i) ==> i >= s && Origin(s, i) == Origin(2 * s, i - s))
  }

  lemma Halving32(i: nat)
    requires i < 64
    ensures Halves(32, i)
  {
  }

  lemma Halving16(i: nat)
    requires i < 64
    ensures Halves(16, i)
  {
    var q, t := i / 32, i % 32;
    assert i == 32 * q + t;
    if t < 16 {
      assert i / 16 == 2 * q && i % 16 == t && (i + 16) % 32 == t + 16;
    } else {
      assert i / 16 == 2 * q + 1 && i % 16 == t - 16 && (i - 16) % 32 == t - 16;
    }
  }

  lemma Halving8(i: nat)
    requires i < 64
    ensures Halves(8, i)
  {
    var q, t := i / 16, i % 16;
    assert i == 16 * q + t;
    if t < 8 {
      assert i / 8 == 2 * q && i % 8 == t && (i + 8) % 16 == t + 8;
    } else {
      assert i / 8 == 2 * q + 1 && i % 8 == t - 8 && (i - 8) % 16 == t - 8;
    }
  }

  lemma Halving4(i: nat)
    requires i < 64
    ensures Halves(4, i)
  {
    var q, t := i / 8, i % 8;
    assert i == 8 * q + t;
    if t < 4 {
      assert i / 4 == 2 * q && i % 4 == t && (i + 4) % 8 == t + 4;
    } else {
      assert i / 4 == 2 * q + 1 && i % 4 == t - 4 && (i - 4) % 8 == t - 4;
    }
  }

  lemma Halving2(i: nat)
    requires i < 64
    ensures Halves(2, i)
  {
    var q, t := i / 4, i % 4;
    assert i == 4 * q + t;
    if t < 2 {
      assert i / 2 == 2 * q && i % 2 == t && (i + 2) % 4 == t + 2;
    } else {
      assert i / 2 == 2 * q + 1 && i % 2 == t - 2 && (i - 2) % 4 == t - 2;
    }
  }

  lemma Halving1(i: nat)
    requires i < 64
    ensures Halves(1, i)
  {
  }

  /** Halving the stride: which half of its block of 2s a bit lies in, and where it moves. */
  lemma Halving(s: nat, i: nat)
    requires Stride(s) && i < 64
    ensures Halves(s, i)
  {
    if s == 32 { Halving32(i); }
    else if s == 16 { Halving16(i); }
    else if s == 8 { Halving8(i); }
    else if s == 4 { Halving4(i); }
    else if s == 2 { Halving2(i); }
    else { Halving1(i); }
  }

  ghost predicate MaskOfEven(mask: u64, b: nat)
  {
    forall i :: 0 <= i < 64 ==> (Bit(mask, i) <==> Even(b, i))
  }

  ghost predicate BlocksReversed(v: u64, r: u64, b: nat)
  {
    forall i :: 0 <= i < 64 ==> 0 <= Origin(b, i) < 64 && Bit(r, i) == Bit(v, Origin(b, i))
  }

  lemma MaskStage(mask: u64, s: nat)
    requires Stride(s) && MaskOfEven(mask, 2 * s)
    ensures MaskOfEven(XorWord(mask, ShlWord(mask, s)), s)
  {
    forall i | 0 <= i < 64
      ensures Bit(XorWord(mask, ShlWord(mask, s)), i) <==> Even(s, i)
    {
      BitXor(mask, ShlWord(mask, s), i);
      BitShl(mask, s, i);
      Halving(s, i);
    }
  }

  /** ((r >> s) & mask) | ((r << s) & ~mask) */
  function Swap(r: u64, mask: u64, s: nat): (r': u64) {
    OrWord(And(Shr(r, s), mask), And(ShlWord(r, s), Not(mask)))
  }

  lemma SwapBit(r: u64, mask: u64, s: nat, i: nat)
    requires i < 64
    ensures Bit(Swap(r, mask, s), i) <==> if Bit(mask, i) then Bit(r, i + s) else i >= s && Bit(r, i - s)
  {
    BitOr(And(Shr(r, s), mask), And(ShlWord(r, s), Not(mask)), i);
    BitAnd(Shr(r, s), mask, i);
    BitAnd(ShlWord(r, s), Not(mask), i);
    BitShr(r, s, i);
    BitShl(r, s, i);
    BitNot(mask, i);
  }

  lemma BitNot(x: u64, i: nat)
    requires i < 64
    ensures Bit(Not(x), i) <==> !Bit(x, i)
  {
    Pow2Values();
    BitComplement(x, 64, i);
  }

  lemma SwapStage(v: u64, r: u64, mask: u64, s: nat)
    requires Stride(s) && MaskOfEven(mask, s) && BlocksReversed(v, r, 2 * s)
    ensures BlocksReversed(v, Swap(r, mask, s), s)
  {
    forall i | 0 <= i < 64
      ensures 0 <= Origin(s, i) < 64 && Bit(Swap(r, mask, s), i) == Bit(v, Origin(s, i))
    {
      SwapBit(r, mask, s, i);
      Halving(s, i);
    }
  }

  /** The swaps still to come, from stride `s` down. */
  function RevFrom(r: u64, mask: u64, s: nat): (r': u64)
    decreases s
  {
    if s == 0 then r
    else
      var m := XorWord(mask, ShlWord(mask, s));
      RevFrom(Swap(r, m, s), m, s / 2)
  }

  lemma {:induction false} RevFromReverses(v: u64, r: u64, mask: u64, s: nat)
    requires Stride(s) && MaskOfEven(mask, 2 * s) && BlocksReversed(v, r, 2 * s)
    ensures BlocksReversed(v, RevFrom(r, mask, s), 1)
    decreases s
  {
    hide BlocksReversed, MaskOfEven, Swap;
    var m := XorWord(mask, ShlWord(mask, s));
    MaskStage(mask, s);
    SwapStage(v, r, m, s);
    if s > 1 {
      RevFromReverses(v, Swap(r, m, s), m, s / 2);
    }
  }

  lemma FullyReversed(v: u64, r: u64)
    requires BlocksReversed(v, r, 1)
    ensures r == Reverse(v, 64)
  {
    forall i | 0 <= i < 64
      ensures Bit(r, i) == Bit(Reverse(v, 64), i)
    {
      assert Origin(1, i) == 63 - i;
      BitOfReverse(v, 64, i);
    }
    Pow2Values();
    SameBits(r, Reverse(v, 64), 64);
  }

  lemma RevIsReverse(v: u64, s: nat)
    requires s == 32
    ensures RevFrom(v, Not(0), s) == Reverse(v, 64)
  {
    Initially(v);
    RevFromReverses(v, v, Not(0), s);
    FullyReversed(v, RevFrom(v, Not(0), s));
  }

  /** rev(): reverse the bits of a word by swapping ever smaller blocks. */
  method Rev(v: u64) returns (r: u64)
    ensures r == Reverse(v, WORD_BITS)
  {
    r := v;
    var s, mask := WORD_BITS, Not(0);
    s := s / 2;
    RevIsReverse(v, s);
    while s > 0
      invariant RevFrom(r, mask, s) == Reverse(v, WORD_BITS)
    {
      mask := XorWord(mask, ShlWord(mask, s));
      r := Swap(r, mask, s);
      s := s / 2;
    }
  }

  lemma Initially(v: u64)
    ensures MaskOfEven(Not(0), 64) && BlocksReversed(v, v, 64)
  {
    forall i | 0 <= i < 64
      ensures Bit(Not(0), i) <==> Even(64, i)
    {
      BitNot(0, i);
      BitZero(i);
    }
  }
}
