/** Integers of arbitrary width at arbitrary bit positions of a byte buffer: the storage half of
    BITFIELD (`bitops.c`). */
module Bitfield {
  import opened Words
  import opened Bits
  import opened ByteMasks

  // ---------------------------------------------------------------- one bit of a byte

  /** `b &= ~(1 << bit); b |= v << bit`, with `bit` counted from the most significant one. */
  function PutBit(b: bv8, k: nat, v: bool): bv8
    requires k < 8
  {
    (b & !Mask(7 - k)) | (if v then Mask(7 - k) else 0)
  }

  lemma MaskBit(b: bv8, k: nat)
    requires k < 8
    ensures ByteBit(b, k) <==> b & Mask(7 - k) != 0
  {
    if k == 0 {} else if k == 1 {} else if k == 2 {} else if k == 3 {} else if k == 4 {} else if k == 5 {}
    else if k == 6 {}
  }

  lemma OrZero(b: bv8)
    ensures b | 0 == b
  {
  }

  lemma PutBitEffect(b: bv8, k: nat, v: bool, m: nat)
    requires k < 8 && m < 8
    ensures ByteBit(PutBit(b, k, v), m) == if m == k then v else ByteBit(b, m)
  {
    hide Mask, ByteBit;
    var cleared := b & !Mask(7 - k);
    MaskBit(PutBit(b, k, v), m);
    MaskBit(b, m);
    MasksApart(7 - k, 7 - m);
    MaskFacts(b, Mask(7 - k), Mask(7 - m));
    MaskFacts(cleared, Mask(7 - k), Mask(7 - m));
    OrZero(cleared);
  }

  // ---------------------------------------------------------------- storing and reading

  /** Bit `i` of a number, counted from the least significant one. */
  predicate BitOf(value: nat, i: nat) {
    Shr(value, i) % 2 == 1
  }

  /** `t` is `s` with the `n` bits from `off` on replaced by the low bits of `value`. */
  ghost predicate Holds(s: seq<bv8>, t: seq<bv8>, off: nat, n: nat, width: nat, value: nat)
    requires n <= width && off + width <= 8 * |s| && |t| == |s|
  {
    forall pos :: 0 <= pos < 8 * |s| ==>
      TestBit(t, pos) == if off <= pos < off + n then BitOf(value, width - 1 - (pos - off)) else TestBit(s, pos)
  }

  lemma HoldsStep(s: seq<bv8>, t: seq<bv8>, off: nat, n: nat, width: nat, value: nat)
    requires n < width && off + width <= 8 * |s| && |t| == |s| && Holds(s, t, off, n, width, value)
    ensures var at := off + n;
      Holds(s, t[at / 8 := PutBit(t[at / 8], at % 8, BitOf(value, width - 1 - n))], off, n + 1, width, value)
  {
    hide PutBit, ByteBit, BitOf;
    var at := off + n;
    var u := t[at / 8 := PutBit(t[at / 8], at % 8, BitOf(value, width - 1 - n))];
    forall pos: nat | pos < 8 * |s|
      ensures TestBit(u, pos) == if pos == at then BitOf(value, width - 1 - n) else TestBit(t, pos)
    {
      SamePlace(pos, at);
      PutBitEffect(t[at / 8], at % 8, BitOf(value, width - 1 - n), pos % 8);
    }
  }

  /** setUnsignedBitfield. */
  method SetUnsigned(p: array<bv8>, offset: nat, bits: nat, value: nat)
    requires offset + bits <= 8 * p.Length
    modifies p
    ensures Holds(old(p[..]), p[..], offset, bits, bits, value)
  {
    hide Holds, PutBit, BitOf, Shr, And, Pow2;
    NothingHeld(p[..], offset, bits, value);
    ghost var s := p[..];
    for j := 0 to bits
      invariant Holds(s, p[..], offset, j, bits, value)
    {
      AndPow2(bits - 1 - j, value);
      var bitval := And(Pow2(bits - 1 - j), value) != 0;
      assert bitval == BitOf(value, bits - 1 - j) by { IsBit(value, bits - 1 - j); }
      var byte, bit := (offset + j) / 8, (offset + j) % 8;
      ghost var t := p[..];
      p[byte] := PutBit(p[byte], bit, bitval);
      assert p[..] == t[byte := PutBit(t[byte], bit, bitval)];
      HoldsStep(s, t, offset, j, bits, value);
    }
  }

  lemma NothingHeld(s: seq<bv8>, off: nat, width: nat, value: nat)
    requires off + width <= 8 * |s|
    ensures Holds(s, s, off, 0, width, value)
  {
  }

  lemma IsBit(value: nat, i: nat)
    ensures BitOf(value, i) <==> Shr(value, i) % 2 == 1
  {
  }

  /** getUnsignedBitfield. */
  method GetUnsigned(p: array<bv8>, offset: nat, bits: nat) returns (value: nat)
    requires offset + bits <= 8 * p.Length
    ensures value == Number(p[..], offset, bits)
  {
    hide Or, Shl, Mask, PutBit, ByteBit;
    value := 0;
    for j := 0 to bits
      invariant value == Number(p[..], offset, j)
    {
      var byte, bit := (offset + j) / 8, (offset + j) % 8;
      var bitval := Unit(ByteBit(p[byte], bit));
      assert bitval == Unit(TestBit(p[..], offset + j));
      AppendBit(value, bitval);
      value := Or(Shl(value, 1), bitval);
    }
  }

  lemma AppendBit(x: nat, b: nat)
    requires b < 2
    ensures Or(Shl(x, 1), b) == 2 * x + b
  {
    hide Or, Shl;
    Pow2Step(1);
    OrDisjoint(x, b, 1);
    ShlStep(x, 1);
    ShlStep(x, 0);
  }

  /** What was stored is read back: the number, reduced to the width of the field. */
  lemma {:induction false} HeldNumber(s: seq<bv8>, t: seq<bv8>, off: nat, n: nat, width: nat, value: nat)
    requires n <= width && off + width <= 8 * |s| && |t| == |s| && Holds(s, t, off, width, width, value)
    ensures Number(t, off, n) == Low(Shr(value, width - n), n)
  {
    hide TestBit, Shr, Low;
    LowStep(Shr(value, width - n), n);
    if n > 0 {
      HeldNumber(s, t, off, n - 1, width, value);
      ShrOnce(value, width - n);
    }
  }

  lemma {:induction false} ShrOnce(x: nat, k: nat)
    ensures Shr(x, k + 1) == Shr(x, k) / 2
  {
    hide Shr;
    ShrStep(x, k + 1);
    ShrStep(x, k);
    if k > 0 {
      ShrOnce(x / 2, k - 1);
    } else {
      ShrStep(x / 2, 0);
    }
  }
}
