/** redisPopcount: counting 28 bytes at a time by adding up bit lanes inside 32-bit words. */
module Popcount {
  import opened Bits

  // ---------------------------------------------------------------- bytes and their values

  function Add(a: bv8, b: bv8): bv8 {
    a + b
  }

  function Inc(a: bv8): bv8 {
    a + 1
  }

  function Dec(a: bv8): bv8 {
    a - 1
  }

  lemma AddSteps(a: bv8, b: bv8)
    ensures Add(Inc(a), Dec(b)) == Add(a, b) && Add(a, 0) == a
  {
  }

  lemma ValInc(a: bv8)
    ensures Val(a) < 255 ==> Val(Inc(a)) == Val(a) + 1
  {
  }

  lemma ValDec(a: bv8)
    ensures Val(0) == 0 && (a != 0 ==> Val(Dec(a)) + 1 == Val(a))
  {
  }

  lemma {:induction false} ValAdd(a: bv8, b: bv8)
    requires Val(a) + Val(b) <= 255
    ensures Val(Add(a, b)) == Val(a) + Val(b)
    decreases Val(b)
  {
    hide Val, Add, Inc, Dec;
    AddSteps(a, b);
    ValDec(b);
    if b != 0 {
      ValInc(a);
      ValAdd(Inc(a), Dec(b));
    }
  }

  // ---------------------------------------------------------------- the lanes of a word

  /** A 32-bit load of four bytes, least significant first. */
  function Load(a: bv8, b: bv8, c: bv8, d: bv8): bv32 {
    (a as bv32) | ((b as bv32) << 8) | ((c as bv32) << 16) | ((d as bv32) << 24)
  }

  function Pairs(x: bv32): bv32 {
    x - ((x >> 1) & 0x55555555)
  }

  function Nibbles(x: bv32): bv32 {
    (x & 0x33333333) + ((x >> 2) & 0x33333333)
  }

  function Bytes(x: bv32): bv32 {
    (x + (x >> 4)) & 0x0F0F0F0F
  }

  function Pairs8(x: bv8): bv8 {
    (x & 0x55) + ((x >> 1) & 0x55)
  }

  function Nibbles8(x: bv8): bv8 {
    (x & 0x33) + ((x >> 2) & 0x33)
  }

  function Bytes8(x: bv8): bv8 {
    (x + (x >> 4)) & 0x0F
  }

  /** The ones of a byte, as a byte. */
  function Ones8(x: bv8): bv8 {
    Bytes8(Nibbles8(Pairs8(x)))
  }

  lemma PairsAdd(x: bv32)
    ensures Pairs(x) == (x & 0x55555555) + ((x >> 1) & 0x55555555)
  {
  }

  lemma PairsLanes(a: bv8, b: bv8, c: bv8, d: bv8)
    ensures Pairs(Load(a, b, c, d)) == Load(Pairs8(a), Pairs8(b), Pairs8(c), Pairs8(d))
  {
    hide Pairs;
    PairsAdd(Load(a, b, c, d));
  }

  lemma NibblesLanes(a: bv8, b: bv8, c: bv8, d: bv8)
    ensures Nibbles(Load(a, b, c, d)) == Load(Nibbles8(a), Nibbles8(b), Nibbles8(c), Nibbles8(d))
  {
  }

  /** No nibble holds more than four, so the nibbles can be added without masking first. */
  predicate SmallNibbles(x: bv8) {
    x & 0x88 == 0
  }

  lemma BytesLanes(a: bv8, b: bv8, c: bv8, d: bv8)
    requires SmallNibbles(a) && SmallNibbles(b) && SmallNibbles(c) && SmallNibbles(d)
    ensures Bytes(Load(a, b, c, d)) == Load(Bytes8(a), Bytes8(b), Bytes8(c), Bytes8(d))
  {
  }

  lemma NibblesSmall(x: bv8)
    ensures SmallNibbles(Nibbles8(Pairs8(x)))
  {
  }

  /** The three folding lines of the source leave each byte's count in that byte. */
  lemma FoldLanes(a: bv8, b: bv8, c: bv8, d: bv8)
    ensures Bytes(Nibbles(Pairs(Load(a, b, c, d)))) == Load(Ones8(a), Ones8(b), Ones8(c), Ones8(d))
  {
    hide Bytes, Nibbles, Pairs, Load, Bytes8, Nibbles8, Pairs8, SmallNibbles;
    PairsLanes(a, b, c, d);
    NibblesLanes(Pairs8(a), Pairs8(b), Pairs8(c), Pairs8(d));
    NibblesSmall(a);
    NibblesSmall(b);
    NibblesSmall(c);
    NibblesSmall(d);
    BytesLanes(Nibbles8(Pairs8(a)), Nibbles8(Pairs8(b)), Nibbles8(Pairs8(c)), Nibbles8(Pairs8(d)));
  }

  function Plus(x: bv32, y: bv32): bv32 {
    x + y
  }

  predicate AtMost(a: bv8, bound: bv8) {
    a <= bound
  }

  /** Sums of up to seven counts stay inside their lanes. */
  lemma AddLanes(a: bv8, b: bv8, c: bv8, d: bv8, e: bv8, f: bv8, g: bv8, h: bv8)
    requires AtMost(a, 48) && AtMost(b, 48) && AtMost(c, 48) && AtMost(d, 48)
    requires AtMost(e, 8) && AtMost(f, 8) && AtMost(g, 8) && AtMost(h, 8)
    ensures Plus(Load(a, b, c, d), Load(e, f, g, h)) == Load(Add(a, e), Add(b, f), Add(c, g), Add(d, h))
  {
  }

  // ---------------------------------------------------------------- adding the lanes up

  /** The byte of a word at the given bit. */
  function Lane(x: bv32, at: nat): bv8
    requires at <= 24
  {
    ((x >> at) & 0xFF) as bv8
  }

  /** The number a 32-bit word holds. */
  function Value(x: bv32): nat {
    Val(Lane(x, 0)) + 0x100 * Val(Lane(x, 8)) + 0x10000 * Val(Lane(x, 16)) + 0x1000000 * Val(Lane(x, 24))
  }

  /** `(x * 0x01010101) >> 24` on 32-bit unsigned integers. */
  function Gather(x: bv32): nat {
    (Value(x) * 0x01010101 % 0x1_0000_0000) / 0x1000000
  }

  lemma LoadBytes(a: bv8, b: bv8, c: bv8, d: bv8)
    ensures var x := Load(a, b, c, d);
      Lane(x, 0) == a && Lane(x, 8) == b && Lane(x, 16) == c && Lane(x, 24) == d
  {
  }

  lemma Quotient(x: nat, m: nat, q: nat, r: nat)
    requires x == q * m + r && r < m
    ensures x / m == q && x % m == r
  {
    var p := x / m;
    assert x == p * m + x % m;
    if p < q {
      Scale(p + 1, q, m);
    } else if q < p {
      Scale(q + 1, p, m);
    }
  }

  lemma Scale(a: nat, b: nat, m: nat)
    requires a <= b
    ensures a * m <= b * m
  {
  }

  lemma Products(a: nat, b: nat, c: nat, d: nat)
    ensures (a + 0x100 * b + 0x10000 * c + 0x1000000 * d) * 0x01010101 ==
      (b + c + d + 0x100 * (c + d) + 0x10000 * d) * 0x1_0000_0000
      + ((a + b + c + d) * 0x1000000 + (a + 0x100 * (a + b) + 0x10000 * (a + b + c)))
  {
  }

  /** Multiplying by 0x01010101 adds the four lanes up in the top one: the sums of the lower lanes stay
      below 256, and so does their total, at most 224. */
  lemma GatherLanes(a: bv8, b: bv8, c: bv8, d: bv8)
    requires Val(a) <= 56 && Val(b) <= 56 && Val(c) <= 56 && Val(d) <= 56
    ensures Gather(Load(a, b, c, d)) == Val(a) + Val(b) + Val(c) + Val(d)
  {
    hide Load, Val, Lane;
    LoadBytes(a, b, c, d);
    var p, q, r, t := Val(a), Val(b), Val(c), Val(d);
    Products(p, q, r, t);
    var low := p + 0x100 * (p + q) + 0x10000 * (p + q + r);
    var rest := (p + q + r + t) * 0x1000000 + low;
    Quotient(Value(Load(a, b, c, d)) * 0x01010101, 0x1_0000_0000, q + r + t + 0x100 * (r + t) + 0x10000 * t, rest);
    Quotient(rest, 0x1000000, p + q + r + t, low);
  }

  // ---------------------------------------------------------------- the folded count is the bit count

  function BitByte(x: bv8, k: nat): bv8
    requires k < 8
  {
    (x >> (7 - k)) & 1
  }

  function BitSum(x: bv8, k: nat): bv8
    requires k <= 8
  {
    if k == 0 then 0 else Add(BitSum(x, k - 1), BitByte(x, k - 1))
  }

  lemma BitValue(x: bv8, k: nat)
    requires k < 8
    ensures Val(BitByte(x, k)) == Unit(ByteBit(x, k))
  {
    OneBit(x >> (7 - k));
  }

  lemma OneBit(x: bv8)
    ensures Val(x & 1) == Unit(x & 1 == 1)
  {
  }

  lemma {:induction false} BitSumCounts(x: bv8, k: nat)
    requires k <= 8
    ensures Val(BitSum(x, k)) == CountByte(x, k) <= k
  {
    hide Val, Add, BitByte, ByteBit;
    if k == 0 {
      ValDec(0);
    } else {
      BitSumCounts(x, k - 1);
      BitValue(x, k - 1);
      ValAdd(BitSum(x, k - 1), BitByte(x, k - 1));
    }
  }

  lemma OnesAdd(x: bv8)
    ensures Ones8(x) == ((x >> 7) & 1) + ((x >> 6) & 1) + ((x >> 5) & 1) + ((x >> 4) & 1)
      + ((x >> 3) & 1) + ((x >> 2) & 1) + ((x >> 1) & 1) + (x & 1)
  {
  }

  lemma BitSumAdds(x: bv8)
    ensures BitSum(x, 8) == ((x >> 7) & 1) + ((x >> 6) & 1) + ((x >> 5) & 1) + ((x >> 4) & 1)
      + ((x >> 3) & 1) + ((x >> 2) & 1) + ((x >> 1) & 1) + (x & 1)
  {
    assert BitSum(x, 1) == (x >> 7) & 1;
    assert BitSum(x, 2) == ((x >> 7) & 1) + ((x >> 6) & 1);
    assert BitSum(x, 4) == BitSum(x, 2) + ((x >> 5) & 1) + ((x >> 4) & 1);
    assert BitSum(x, 6) == BitSum(x, 4) + ((x >> 3) & 1) + ((x >> 2) & 1);
  }

  lemma OnesCount(x: bv8)
    ensures Val(Ones8(x)) == CountByte(x, 8) <= 8
  {
    hide Val, Ones8, CountByte, BitSum;
    OnesAdd(x);
    BitSumAdds(x);
    BitSumCounts(x, 8);
  }

  // ---------------------------------------------------------------- blocks of words

  function Fold(x: bv32): bv32 {
    Bytes(Nibbles(Pairs(x)))
  }

  /** The word of four bytes number `t` after position `p`. */
  function WordAt(s: seq<bv8>, p: nat, t: nat): bv32
    requires p + 4 * t + 4 <= |s|
  {
    Load(s[p + 4 * t], s[p + 4 * t + 1], s[p + 4 * t + 2], s[p + 4 * t + 3])
  }

  function SumWords(s: seq<bv8>, p: nat, k: nat): bv32
    requires p + 4 * k <= |s|
  {
    if k == 0 then 0 else Plus(SumWords(s, p, k - 1), Fold(WordAt(s, p, k - 1)))
  }

  /** The ones in byte `j` of the first `k` words. */
  function Column(s: seq<bv8>, p: nat, j: nat, k: nat): nat
    requires p + 4 * k <= |s| && j < 4
  {
    if k == 0 then 0 else Column(s, p, j, k - 1) + CountByte(s[p + 4 * (k - 1) + j], 8)
  }

  lemma {:induction false} ColumnBound(s: seq<bv8>, p: nat, j: nat, k: nat)
    requires p + 4 * k <= |s| && j < 4
    ensures Column(s, p, j, k) <= 8 * k
  {
    hide CountByte;
    if k > 0 {
      ColumnBound(s, p, j, k - 1);
      OnesCount(s[p + 4 * (k - 1) + j]);
    }
  }

  lemma LoadZero()
    ensures Load(0, 0, 0, 0) == 0 && Val(0) == 0
  {
  }

  lemma ValBounds(a: bv8)
    ensures Val(a) <= 48 <==> AtMost(a, 48)
    ensures Val(a) <= 8 <==> AtMost(a, 8)
  {
  }

  /** Adding one more word adds its counts to the four lanes. */
  lemma AddWord(a: bv8, b: bv8, c: bv8, d: bv8, e: bv8, f: bv8, g: bv8, h: bv8)
    requires Val(a) <= 48 && Val(b) <= 48 && Val(c) <= 48 && Val(d) <= 48
    ensures Plus(Load(a, b, c, d), Fold(Load(e, f, g, h))) ==
      Load(Add(a, Ones8(e)), Add(b, Ones8(f)), Add(c, Ones8(g)), Add(d, Ones8(h)))
    ensures Val(Add(a, Ones8(e))) == Val(a) + CountByte(e, 8)
    ensures Val(Add(b, Ones8(f))) == Val(b) + CountByte(f, 8)
    ensures Val(Add(c, Ones8(g))) == Val(c) + CountByte(g, 8)
    ensures Val(Add(d, Ones8(h))) == Val(d) + CountByte(h, 8)
  {
    hide Val, Load, Plus, Add, Ones8, CountByte, AtMost, Bytes, Nibbles, Pairs;
    FoldLanes(e, f, g, h);
    AddByte(a, e);
    AddByte(b, f);
    AddByte(c, g);
    AddByte(d, h);
    AddLanes(a, b, c, d, Ones8(e), Ones8(f), Ones8(g), Ones8(h));
  }

  lemma AddByte(a: bv8, e: bv8)
    requires Val(a) <= 48
    ensures AtMost(a, 48) && AtMost(Ones8(e), 8) && Val(Add(a, Ones8(e))) == Val(a) + CountByte(e, 8)
  {
    hide Val, Add, Ones8, CountByte, AtMost;
    OnesCount(e);
    ValBounds(a);
    ValBounds(Ones8(e));
    ValAdd(a, Ones8(e));
  }

  lemma WordsStep(s: seq<bv8>, p: nat, k: nat)
    requires 0 < k && p + 4 * k <= |s|
    ensures var q := p + 4 * (k - 1);
      SumWords(s, p, k) == Plus(SumWords(s, p, k - 1), Fold(Load(s[q], s[q + 1], s[q + 2], s[q + 3])))
  {
    hide Plus, Fold, Load;
  }

  lemma ColumnStep(s: seq<bv8>, p: nat, j: nat, k: nat)
    requires p + 4 * k <= |s| && j < 4
    ensures k == 0 ==> Column(s, p, j, k) == 0
    ensures k > 0 ==> Column(s, p, j, k) == Column(s, p, j, k - 1) + CountByte(s[p + 4 * (k - 1) + j], 8)
    ensures k > 0 ==> Column(s, p, j, k - 1) <= 8 * (k - 1)
  {
    hide CountByte;
    if k > 0 {
      ColumnBound(s, p, j, k - 1);
    }
  }

  lemma {:induction false} SumLanes(s: seq<bv8>, p: nat, k: nat) returns (a: bv8, b: bv8, c: bv8, d: bv8)
    requires p + 4 * k <= |s| && k <= 7
    ensures SumWords(s, p, k) == Load(a, b, c, d)
    ensures Val(a) == Column(s, p, 0, k) && Val(b) == Column(s, p, 1, k)
    ensures Val(c) == Column(s, p, 2, k) && Val(d) == Column(s, p, 3, k)
  {
    hide *;
    ColumnStep(s, p, 0, k);
    ColumnStep(s, p, 1, k);
    ColumnStep(s, p, 2, k);
    ColumnStep(s, p, 3, k);
    if k == 0 {
      a, b, c, d := 0, 0, 0, 0;
      LoadZero();
      NoWords(s, p);
    } else {
      a, b, c, d := SumLanes(s, p, k - 1);
      var q := p + 4 * (k - 1);
      WordsStep(s, p, k);
      AddWord(a, b, c, d, s[q], s[q + 1], s[q + 2], s[q + 3]);
      a, b, c, d := Add(a, Ones8(s[q])), Add(b, Ones8(s[q + 1])), Add(c, Ones8(s[q + 2])), Add(d, Ones8(s[q + 3]));
    }
  }

  lemma NoWords(s: seq<bv8>, p: nat)
    requires p <= |s|
    ensures SumWords(s, p, 0) == 0
  {
  }

  lemma {:induction false} ColumnsCount(s: seq<bv8>, p: nat, k: nat)
    requires p + 4 * k <= |s|
    ensures CountBits(s, 8 * (p + 4 * k)) ==
      CountBits(s, 8 * p) + Column(s, p, 0, k) + Column(s, p, 1, k) + Column(s, p, 2, k) + Column(s, p, 3, k)
  {
    hide CountBits, CountByte, Column;
    ColumnStep(s, p, 0, k);
    ColumnStep(s, p, 1, k);
    ColumnStep(s, p, 2, k);
    ColumnStep(s, p, 3, k);
    if k > 0 {
      ColumnsCount(s, p, k - 1);
      CountWord(s, p + 4 * (k - 1));
    }
  }

  lemma CountWord(s: seq<bv8>, q: nat)
    requires q + 4 <= |s|
    ensures CountBits(s, 8 * (q + 4)) == CountBits(s, 8 * q)
      + CountByte(s[q], 8) + CountByte(s[q + 1], 8) + CountByte(s[q + 2], 8) + CountByte(s[q + 3], 8)
  {
    hide CountBits, CountByte;
    CountInByte(s, q, 8);
    CountInByte(s, q + 1, 8);
    CountInByte(s, q + 2, 8);
    CountInByte(s, q + 3, 8);
  }

  /** A block of seven words: the gathered sum is the number of ones in its 28 bytes. */
  lemma BlockCount(s: seq<bv8>, p: nat)
    requires p + 28 <= |s|
    ensures CountBits(s, 8 * (p + 28)) == CountBits(s, 8 * p) + Gather(SumWords(s, p, 7))
  {
    hide Val, Load, CountBits, CountByte, Gather, SumWords, Column;
    var a, b, c, d := SumLanes(s, p, 7);
    ColumnBound(s, p, 0, 7);
    ColumnBound(s, p, 1, 7);
    ColumnBound(s, p, 2, 7);
    ColumnBound(s, p, 3, 7);
    GatherLanes(a, b, c, d);
    ColumnsCount(s, p, 7);
  }

  /** redisPopcount over a string that starts at address `addr`: for every string and alignment it is
      the bit-by-bit count. */
  method RedisPopcount(s: seq<bv8>, addr: nat) returns (bits: nat)
    ensures bits == CountBits(s, 8 * |s|)
  {
    hide CountBits, CountByte, Pairs, Nibbles, Bytes, Plus, WordAt, Gather;
    bits := 0;
    var p: nat, count: nat := 0, |s|;
    assert CountBits(s, 0) == 0 by { CountNone(s); }
    while (addr + p) % 4 != 0 && count > 0
      invariant p + count == |s| && bits == CountBits(s, 8 * p)
      decreases count
    {
      CountInByte(s, p, 8);
      bits := bits + CountByte(s[p], 8);
      p, count := p + 1, count - 1;
    }
    while count >= 28
      invariant p + count == |s| && bits == CountBits(s, 8 * p)
    {
      var aux1, aux2, aux3, aux4 := WordAt(s, p, 0), WordAt(s, p, 1), WordAt(s, p, 2), WordAt(s, p, 3);
      var aux5, aux6, aux7 := WordAt(s, p, 4), WordAt(s, p, 5), WordAt(s, p, 6);
      aux1 := Nibbles(Pairs(aux1));
      aux2 := Nibbles(Pairs(aux2));
      aux3 := Nibbles(Pairs(aux3));
      aux4 := Nibbles(Pairs(aux4));
      aux5 := Nibbles(Pairs(aux5));
      aux6 := Nibbles(Pairs(aux6));
      aux7 := Nibbles(Pairs(aux7));
      var sum := Plus(Plus(Plus(Plus(Plus(Plus(Bytes(aux1), Bytes(aux2)), Bytes(aux3)), Bytes(aux4)), Bytes(aux5)),
                           Bytes(aux6)), Bytes(aux7));
      assert sum == SumWords(s, p, 7) by { SevenWords(s, p); }
      BlockCount(s, p);
      bits := bits + Gather(sum);
      p, count := p + 28, count - 28;
    }
    while count > 0
      invariant p + count == |s| && bits == CountBits(s, 8 * p)
    {
      CountInByte(s, p, 8);
      bits := bits + CountByte(s[p], 8);
      p, count := p + 1, count - 1;
    }
  }

  lemma CountNone(s: seq<bv8>)
    ensures CountBits(s, 0) == 0
  {
  }

  lemma PlusZero(x: bv32)
    ensures Plus(0, x) == x
  {
  }

  lemma SevenWords(s: seq<bv8>, p: nat)
    requires p + 28 <= |s|
    ensures SumWords(s, p, 7) ==
      Plus(Plus(Plus(Plus(Plus(Plus(Fold(WordAt(s, p, 0)), Fold(WordAt(s, p, 1))), Fold(WordAt(s, p, 2))),
        Fold(WordAt(s, p, 3))), Fold(WordAt(s, p, 4))), Fold(WordAt(s, p, 5))), Fold(WordAt(s, p, 6)))
  {
    hide Plus, Fold, WordAt;
    PlusZero(Fold(WordAt(s, p, 0)));
    assert SumWords(s, p, 1) == Fold(WordAt(s, p, 0));
    assert SumWords(s, p, 2) == Plus(Fold(WordAt(s, p, 0)), Fold(WordAt(s, p, 1)));
    assert SumWords(s, p, 4) == Plus(Plus(SumWords(s, p, 2), Fold(WordAt(s, p, 2))), Fold(WordAt(s, p, 3)));
    assert SumWords(s, p, 6) == Plus(Plus(SumWords(s, p, 4), Fold(WordAt(s, p, 4))), Fold(WordAt(s, p, 5)));
  }
}
