/** A byte string as a string of bits, the first bit being the most significant one of the first byte
    (the convention of SETBIT, BITPOS and BITFIELD in `bitops.c`). */
module Bits {
  import opened Words

  /** Bit `k` of a byte, counted from the most significant one. */
  predicate ByteBit(b: bv8, k: nat)
    requires k < 8
  {
    (b >> (7 - k)) & 1 == 1
  }

  predicate TestBit(s: seq<bv8>, pos: nat)
    requires pos < 8 * |s|
  {
    ByteBit(s[pos / 8], pos % 8)
  }

  function Unit(bit: bool): nat {
    if bit then 1 else 0
  }

  /** How many of the first `p` bits are set. */
  function CountBits(s: seq<bv8>, p: nat): nat
    requires p <= 8 * |s|
  {
    if p == 0 then 0 else CountBits(s, p - 1) + Unit(TestBit(s, p - 1))
  }

  /** How many of the first `k` bits of a byte are set. */
  function CountByte(b: bv8, k: nat): nat
    requires k <= 8
  {
    if k == 0 then 0 else CountByte(b, k - 1) + Unit(ByteBit(b, k - 1))
  }

  lemma {:induction false} CountInByte(s: seq<bv8>, i: nat, k: nat)
    requires i < |s| && k <= 8
    ensures CountBits(s, 8 * i + k) == CountBits(s, 8 * i) + CountByte(s[i], k)
  {
    hide ByteBit;
    if k > 0 {
      CountInByte(s, i, k - 1);
      assert (8 * i + k - 1) / 8 == i && (8 * i + k - 1) % 8 == k - 1;
    }
  }

  // ---------------------------------------------------------------- bits as numbers

  function Val(a: bv8): nat {
    a as int
  }

  /** The number written by the `n` bits from position `off` on, most significant first. */
  function Number(s: seq<bv8>, off: nat, n: nat): nat
    requires off + n <= 8 * |s|
  {
    if n == 0 then 0 else 2 * Number(s, off, n - 1) + Unit(TestBit(s, off + n - 1))
  }

  lemma {:induction false} NumberBound(s: seq<bv8>, off: nat, n: nat)
    requires off + n <= 8 * |s|
    ensures Number(s, off, n) < Pow2(n)
  {
    hide TestBit;
    if n > 0 { NumberBound(s, off, n - 1); }
  }

  lemma NumberStep(s: seq<bv8>, off: nat, n: nat)
    requires off + n <= 8 * |s|
    ensures Number(s, off, n) == if n == 0 then 0 else 2 * Number(s, off, n - 1) + Unit(TestBit(s, off + n - 1))
  {
    hide TestBit;
  }

  lemma UnitIs(bit: bool)
    ensures Unit(bit) == if bit then 1 else 0
  {
  }

  /** Shifting right drops the last bits; the parity of what is left is one bit of the string. */
  lemma {:induction false} NumberShr(s: seq<bv8>, off: nat, n: nat, k: nat)
    requires off + n <= 8 * |s| && k <= n
    ensures Shr(Number(s, off, n), k) == Number(s, off, n - k)
    ensures k < n ==> (Shr(Number(s, off, n), k) % 2 == 1 <==> TestBit(s, off + n - 1 - k))
  {
    hide TestBit, Shr, Number, Unit;
    ShrStep(Number(s, off, n), k);
    NumberStep(s, off, n);
    if n > 0 {
      UnitIs(TestBit(s, off + n - 1));
      Half(Number(s, off, n - 1), Unit(TestBit(s, off + n - 1)));
    }
    if k > 0 {
      NumberShr(s, off, n - 1, k - 1);
    }
  }

  lemma ValHalf(x: bv8)
    ensures Val(x) == 2 * Val(x >> 1) + Unit(x & 1 == 1)
  {
  }

  lemma ShiftDown(b: bv8, k: nat)
    requires k < 8
    ensures k > 0 ==> (b >> (7 - k)) >> 1 == b >> (7 - (k - 1))
    ensures (b >> 7) >> 1 == 0
  {
    if k == 1 {
    } else if k == 2 {
    } else if k == 3 {
    } else if k == 4 {
    } else if k == 5 {
    } else if k == 6 {
    }
  }

  /** The number written by the first `k + 1` bits of a byte. */
  function Head(b: bv8, k: nat): nat
    requires k < 8
  {
    Val(b >> (7 - k))
  }

  lemma HeadStep(b: bv8, k: nat)
    requires k < 8
    ensures Head(b, k) == (if k > 0 then 2 * Head(b, k - 1) else 0) + Unit(ByteBit(b, k))
    ensures Head(b, 7) == Val(b)
  {
    hide Val;
    ValHalf(b >> (7 - k));
    ShiftDown(b, k);
    ValZero();
  }

  lemma ValZero()
    ensures Val(0) == 0
  {
  }

  lemma {:induction false} HeadNumber(s: seq<bv8>, i: nat, k: nat)
    requires i < |s| && k < 8
    ensures Number(s, 8 * i, k + 1) == Head(s[i], k)
  {
    hide Head, ByteBit;
    HeadStep(s[i], k);
    assert (8 * i + k) / 8 == i && (8 * i + k) % 8 == k;
    if k > 0 {
      HeadNumber(s, i, k - 1);
    }
  }

  /** A byte is the number its eight bits write. */
  lemma ByteNumber(s: seq<bv8>, i: nat)
    requires i < |s|
    ensures Number(s, 8 * i, 8) == Val(s[i])
  {
    hide Head, Number;
    HeadNumber(s, i, 7);
    HeadStep(s[i], 7);
  }

  /** Appending bits: a number followed by `k` more bits. */
  lemma {:induction false} NumberAppend(s: seq<bv8>, off: nat, n: nat, k: nat)
    requires off + n + k <= 8 * |s|
    ensures Number(s, off, n + k) == Shl(Number(s, off, n), k) + Number(s, off + n, k)
  {
    hide TestBit, Shl;
    ShlStep(Number(s, off, n), k);
    if k > 0 {
      NumberAppend(s, off, n, k - 1);
    }
  }
}
