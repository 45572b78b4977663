/** redisBitpos: the first bit equal to a given one, found by skipping whole bytes and words. */
module Bitpos {
  import opened Words
  import opened Bits

  /** The byte none of whose bits is `bit`. */
  function SkipByte(bit: bool): bv8 {
    if bit then 0 else 0xFF
  }

  lemma SkipBits(b: bv8, bit: bool, k: nat)
    requires k < 8
    ensures b == SkipByte(bit) ==> ByteBit(b, k) != bit
  {
    SkipZero(k);
    SkipOnes(k);
  }

  lemma SkipZero(k: nat)
    requires k < 8
    ensures !ByteBit(0, k)
  {
  }

  lemma SkipOnes(k: nat)
    requires k < 8
    ensures ByteBit(0xFF, k)
  {
    if k == 0 {} else if k == 1 {} else if k == 2 {} else if k == 3 {} else if k == 4 {} else if k == 5 {}
  }

  /** A byte that is not skipped has a bit equal to `bit`. */
  lemma OtherBits(b: bv8, bit: bool) returns (k: nat)
    requires b != SkipByte(bit)
    ensures k < 8 && ByteBit(b, k) == bit
  {
    if ByteBit(b, 0) == bit { k := 0; }
    else if ByteBit(b, 1) == bit { k := 1; }
    else if ByteBit(b, 2) == bit { k := 2; }
    else if ByteBit(b, 3) == bit { k := 3; }
    else if ByteBit(b, 4) == bit { k := 4; }
    else if ByteBit(b, 5) == bit { k := 5; }
    else if ByteBit(b, 6) == bit { k := 6; }
    else { k := 7; }
  }

  // ---------------------------------------------------------------- whole words

  /** The number loaded from `n` bytes, least significant first. */
  function LoadWord(s: seq<bv8>, i: nat, n: nat): nat
    requires i + n <= |s|
    decreases n
  {
    if n == 0 then 0 else Val(s[i]) + 256 * LoadWord(s, i + 1, n - 1)
  }

  /** The largest number of `n` bytes. */
  function MaxWord(n: nat): nat {
    if n == 0 then 0 else 255 + 256 * MaxWord(n - 1)
  }

  function SkipWord(bit: bool, n: nat): nat {
    if bit then 0 else MaxWord(n)
  }

  lemma ByteRange(b: bv8)
    ensures Val(b) <= 255 && (Val(b) == 0 <==> b == 0) && (Val(b) == 255 <==> b == 0xFF)
  {
  }

  lemma {:induction false} WordRange(s: seq<bv8>, i: nat, n: nat)
    requires i + n <= |s|
    ensures LoadWord(s, i, n) <= MaxWord(n)
    decreases n
  {
    hide Val;
    if n > 0 {
      ByteRange(s[i]);
      WordRange(s, i + 1, n - 1);
    }
  }

  /** A word compares equal to all zeros or all ones exactly when each of its bytes does. */
  lemma {:induction false} WordSkips(s: seq<bv8>, i: nat, n: nat, bit: bool)
    requires i + n <= |s|
    ensures LoadWord(s, i, n) == SkipWord(bit, n) <==> forall k :: i <= k < i + n ==> s[k] == SkipByte(bit)
    decreases n
  {
    hide Val;
    if n > 0 {
      ByteRange(s[i]);
      WordRange(s, i + 1, n - 1);
      WordSkips(s, i + 1, n - 1, bit);
    }
  }

  // ---------------------------------------------------------------- the answer

  /** None of the first `p` bits is `bit`. */
  ghost predicate NoneBefore(s: seq<bv8>, bit: bool, p: nat)
    requires p <= 8 * |s|
  {
    forall q :: 0 <= q < p ==> TestBit(s, q) != bit
  }

  /** What BITPOS promises: the least position of the bit; without one, -1 when looking for a one and the
      length in bits when looking for a zero. */
  ghost predicate IsAnswer(s: seq<bv8>, bit: bool, pos: int) {
    if 0 <= pos < 8 * |s| then TestBit(s, pos) == bit && NoneBefore(s, bit, pos)
    else NoneBefore(s, bit, 8 * |s|) && pos == if bit then -1 else 8 * |s|
  }

  lemma NoneInByte(s: seq<bv8>, bit: bool, i: nat)
    requires i < |s| && NoneBefore(s, bit, 8 * i) && s[i] == SkipByte(bit)
    ensures NoneBefore(s, bit, 8 * (i + 1))
  {
    hide ByteBit, SkipByte;
    forall q | 0 <= q < 8 * (i + 1) ensures TestBit(s, q) != bit {
      if 8 * i <= q {
        SkipBits(s[i], bit, q - 8 * i);
      }
    }
  }

  lemma {:induction false} NoneInBytes(s: seq<bv8>, bit: bool, i: nat, n: nat)
    requires i + n <= |s| && NoneBefore(s, bit, 8 * i) && forall k :: i <= k < i + n ==> s[k] == SkipByte(bit)
    ensures NoneBefore(s, bit, 8 * (i + n))
  {
    hide NoneBefore, SkipByte;
    if n > 0 {
      NoneInBytes(s, bit, i, n - 1);
      NoneInByte(s, bit, i + n - 1);
    }
  }

  /** The next eight bytes, with zeros past the end. */
  function Padded(s: seq<bv8>, i: nat): (t: seq<bv8>)
    ensures |t| == 8
  {
    seq(8, k requires 0 <= k < 8 => if i + k < |s| then s[i + k] else 0)
  }

  lemma PaddedBits(s: seq<bv8>, i: nat, n: nat)
    requires n < 64
    ensures 8 * i + n < 8 * |s| ==> TestBit(Padded(s, i), n) == TestBit(s, 8 * i + n)
    ensures 8 * i + n >= 8 * |s| ==> !TestBit(Padded(s, i), n)
  {
    hide ByteBit;
    assert (8 * i + n) / 8 == i + n / 8 && (8 * i + n) % 8 == n % 8;
    SkipZero(n % 8);
  }

  /** The scan finds the answer at the first matching bit of the padded word. */
  lemma FoundIsAnswer(s: seq<bv8>, i: nat, bit: bool, n: nat)
    requires i <= |s| && NoneBefore(s, bit, 8 * i) && n < 64
    requires TestBit(Padded(s, i), n) == bit && forall m :: 0 <= m < n ==> TestBit(Padded(s, i), m) != bit
    ensures IsAnswer(s, bit, 8 * i + n)
  {
    hide TestBit, Padded;
    PaddedBits(s, i, n);
    forall q | 0 <= q < 8 * i + n && q < 8 * |s| ensures TestBit(s, q) != bit {
      if 8 * i <= q {
        PaddedBits(s, i, q - 8 * i);
      }
    }
    if 8 * i + n > 8 * |s| {
      PaddedBits(s, i, 8 * (|s| - i));
    }
  }

  /** Something in the next eight bytes is not skipped, unless the string ends before. */
  ghost predicate Stopped(s: seq<bv8>, bit: bool, i: nat)
    requires i <= |s|
  {
    |s| < i + 8 || exists k :: i <= k < i + 8 && s[k] != SkipByte(bit)
  }

  /** A padded word at which the search stopped has the bit, unless the string ends there without a one. */
  lemma StoppedHasBit(s: seq<bv8>, i: nat, bit: bool) returns (n: nat)
    requires i <= |s| && Stopped(s, bit, i) && NoneBefore(s, bit, 8 * i)
    requires !(bit && Number(Padded(s, i), 0, 64) == 0)
    ensures n < 64 && TestBit(Padded(s, i), n) == bit
  {
    hide ByteBit, SkipByte;
    if bit {
      n := NonzeroHasOne(Padded(s, i), 64);
    } else if |s| < i + 8 {
      n := 8 * (|s| - i);
      PaddedBits(s, i, n);
    } else {
      var k :| i <= k < i + 8 && s[k] != SkipByte(bit);
      var j := OtherBits(s[k], bit);
      n := 8 * (k - i) + j;
      assert n / 8 == k - i && n % 8 == j;
    }
  }

  lemma {:induction false} NonzeroHasOne(t: seq<bv8>, n: nat) returns (k: nat)
    requires n <= 8 * |t| && Number(t, 0, n) != 0
    ensures k < n && TestBit(t, k)
  {
    hide TestBit;
    if TestBit(t, n - 1) {
      k := n - 1;
    } else {
      k := NonzeroHasOne(t, n - 1);
    }
  }

  /** A zero word that the search stopped at means there is no one in the whole string. */
  lemma ZeroIsAnswer(s: seq<bv8>, i: nat)
    requires i <= |s| && Stopped(s, true, i) && NoneBefore(s, true, 8 * i) && Number(Padded(s, i), 0, 64) == 0
    ensures IsAnswer(s, true, -1)
  {
    hide TestBit, Padded, Number;
    forall n: nat | n < 64 ensures !TestBit(Padded(s, i), n) { ZeroHasNone(Padded(s, i), 64, n); }
    if |s| >= i + 8 {
      var k :| i <= k < i + 8 && s[k] != SkipByte(true);
      var j := OtherBits(s[k], true);
      PaddedBits(s, i, 8 * (k - i) + j);
      assert TestBit(s, 8 * k + j) by { ByteInString(s, k, j); }
      assert false;
    }
    forall q | 0 <= q < 8 * |s| ensures TestBit(s, q) != true {
      if 8 * i <= q {
        PaddedBits(s, i, q - 8 * i);
      }
    }
  }

  lemma ByteInString(s: seq<bv8>, k: nat, j: nat)
    requires k < |s| && j < 8
    ensures TestBit(s, 8 * k + j) == ByteBit(s[k], j)
  {
    hide ByteBit;
    assert (8 * k + j) / 8 == k && (8 * k + j) % 8 == j;
  }

  lemma {:induction false} ZeroHasNone(t: seq<bv8>, n: nat, k: nat)
    requires n <= 8 * |t| && Number(t, 0, n) == 0 && k < n
    ensures !TestBit(t, k)
  {
    hide TestBit;
    if k < n - 1 {
      ZeroHasNone(t, n - 1, k);
    }
  }

  /** Loading one more byte of the padded word; the shift never pushes a bit out of the word. */
  lemma LoadStep(t: seq<bv8>, j: nat)
    requires j < |t|
    ensures Or(Shl(Number(t, 0, 8 * j), 8), Val(t[j])) == Number(t, 0, 8 * (j + 1))
  {
    hide *;
    ByteNumber(t, j);
    NumberBound(t, 8 * j, 8);
    OrDisjoint(Number(t, 0, 8 * j), Val(t[j]), 8);
    NumberAppend(t, 0, 8 * j, 8);
  }

  lemma StoppedIs(s: seq<bv8>, bit: bool, i: nat)
    requires i <= |s|
    ensures |s| < i + 8 ==> Stopped(s, bit, i)
    ensures i < |s| && s[i] != SkipByte(bit) ==> Stopped(s, bit, i)
    ensures i + 8 <= |s| && LoadWord(s, i, 8) != SkipWord(bit, 8) ==> Stopped(s, bit, i)
    ensures i + 8 <= |s| && LoadWord(s, i, 8) == SkipWord(bit, 8) ==> forall k :: i <= k < i + 8 ==> s[k] == SkipByte(bit)
  {
    hide LoadWord, SkipWord, SkipByte;
    if i + 8 <= |s| {
      WordSkips(s, i, 8, bit);
    }
  }

  lemma NoneAtStart(s: seq<bv8>, bit: bool)
    ensures NoneBefore(s, bit, 0)
  {
  }

  /** The part of the search that skips: where it stops, nothing before matches and the next padded word
      decides. */
  method Skip(s: seq<bv8>, addr: nat, bit: bool) returns (c: nat)
    ensures c <= |s| && NoneBefore(s, bit, 8 * c) && Stopped(s, bit, c)
  {
    hide *;
    c := 0;
    var count: nat, found := |s|, false;
    NoneAtStart(s, bit);
    while (addr + c) % 8 != 0 && count > 0
      invariant c + count == |s| && NoneBefore(s, bit, 8 * c) && !found
      decreases count
    {
      if s[c] != SkipByte(bit) {
        found := true;
        StoppedIs(s, bit, c);
        break;
      }
      NoneInByte(s, bit, c);
      c, count := c + 1, count - 1;
    }
    if !found {
      while count >= 8
        invariant c + count == |s| && NoneBefore(s, bit, 8 * c)
      {
        StoppedIs(s, bit, c);
        if LoadWord(s, c, 8) != SkipWord(bit, 8) { break; }
        NoneInBytes(s, bit, c, 8);
        c, count := c + 8, count - 8;
      }
      StoppedIs(s, bit, c);
    }
  }

  /** The bytes left, loaded most significant first and padded with zeros on the right. */
  method LoadPadded(s: seq<bv8>, i: nat) returns (word: nat)
    requires i <= |s|
    ensures word == Number(Padded(s, i), 0, 64)
  {
    hide Number, Shl, Or, Val;
    word := 0;
    var c, count := i, |s| - i;
    NumberNone(Padded(s, i));
    for j := 0 to 8
      invariant word == Number(Padded(s, i), 0, 8 * j)
      invariant c + count == |s| && 0 <= count && (count > 0 ==> c == i + j) && (count == 0 ==> |s| <= i + j)
    {
      LoadStep(Padded(s, i), j);
      ZeroByte(Shl(word, 8));
      word := Shl(word, 8);
      if count > 0 {
        word := Or(word, Val(s[c]));
        c, count := c + 1, count - 1;
      }
    }
  }

  lemma NumberNone(t: seq<bv8>)
    ensures Number(t, 0, 0) == 0
  {
  }

  lemma ZeroByte(x: nat)
    ensures Val(0) == 0 && Or(x, 0) == x
  {
  }

  /** The mask with only the most significant bit of a word. */
  lemma TopMask()
    ensures Not(Shr(WORD - 1, 1)) == Pow2(63)
  {
    Pow2Values();
    assert Pow2(64) == 2 * Pow2(63);
    assert Shr(WORD - 1, 1) == (WORD - 1) / 2;
  }

  lemma MaskStep(n: nat)
    requires n < 64
    ensures n < 63 ==> Pow2(63 - n) / 2 == Pow2(63 - (n + 1))
    ensures n == 63 ==> Pow2(63 - n) / 2 == 0
  {
    hide Pow2;
    Pow2Step(63 - n);
  }

  lemma MaskTests(t: seq<bv8>, n: nat)
    requires |t| == 8 && n < 64
    ensures And(Pow2(63 - n), Number(t, 0, 64)) != 0 <==> TestBit(t, n)
  {
    hide *;
    AndPow2(63 - n, Number(t, 0, 64));
    NumberShr(t, 0, 64, 63 - n);
  }

  lemma AnswerIs(s: seq<bv8>, bit: bool, pos: int)
    requires IsAnswer(s, bit, pos)
    ensures (exists q :: 0 <= q < 8 * |s| && TestBit(s, q) == bit) ==>
      0 <= pos < 8 * |s| && TestBit(s, pos) == bit && forall q :: 0 <= q < pos ==> TestBit(s, q) != bit
    ensures (forall q :: 0 <= q < 8 * |s| ==> TestBit(s, q) != bit) ==> pos == if bit then -1 else 8 * |s|
  {
    hide TestBit;
  }

  /** redisBitpos over a string that starts at address `addr`; it always ends in one of its returns. */
  method RedisBitpos(s: seq<bv8>, addr: nat, bit: bool) returns (pos: int)
    ensures IsAnswer(s, bit, pos)
    ensures (exists q :: 0 <= q < 8 * |s| && TestBit(s, q) == bit) ==>
      0 <= pos < 8 * |s| && TestBit(s, pos) == bit && forall q :: 0 <= q < pos ==> TestBit(s, q) != bit
    ensures (forall q :: 0 <= q < 8 * |s| ==> TestBit(s, q) != bit) ==> pos == if bit then -1 else 8 * |s|
  {
    hide *;
    var c := Skip(s, addr, bit);
    var word := LoadPadded(s, c);
    pos := 8 * c;
    if bit && word == 0 {
      ZeroIsAnswer(s, c);
      AnswerIs(s, bit, -1);
      return -1;
    }
    ghost var t := Padded(s, c);
    ghost var hit := StoppedHasBit(s, c, bit);
    var one := Not(Shr(WORD - 1, 1));
    TopMask();
    ghost var n: nat := 0;
    while one != 0
      invariant n <= 64 && pos == 8 * c + n && one == if n < 64 then Pow2(63 - n) else 0
      invariant forall m :: 0 <= m < n ==> TestBit(t, m) != bit
      decreases 64 - n
    {
      MaskTests(t, n);
      if (And(one, word) != 0) == bit {
        FoundIsAnswer(s, c, bit, n);
        AnswerIs(s, bit, pos);
        return pos;
      }
      MaskStep(n);
      pos, one, n := pos + 1, one / 2, n + 1;
    }
    assert false;
  }
}
