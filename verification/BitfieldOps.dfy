/** The arithmetic half of BITFIELD (`bitops.c`): sign extension, the two overflow checks and the SET and
    INCRBY operations, for fields of 1 to 63 bits. */
module BitfieldOps {
  import opened Words
  import opened Bits
  import opened Bitfield
  import opened Options

  datatype Overflow = WRAP | SAT | FAIL

  // ---------------------------------------------------------------- 64-bit integers

  /** Conversion to uint64_t. */
  function U64(x: int): nat {
    x % WORD
  }

  /** Conversion from uint64_t to int64_t, in two's complement. */
  function S64(u: nat): int {
    if u < WORD / 2 then u else u - WORD
  }

  predicate IsU64(x: int) {
    0 <= x < WORD
  }

  predicate IsS64(x: int) {
    -(WORD / 2) <= x < WORD / 2
  }

  lemma ExactS64(x: int)
    requires IsS64(x)
    ensures S64(U64(x)) == x
  {
  }

  // ---------------------------------------------------------------- remainders

  lemma Scale(a: int, b: int, m: nat)
    requires a <= b
    ensures a * m <= b * m
  {
  }

  lemma Remainder(x: int, m: nat, q: int, r: nat)
    requires m > 0 && x == q * m + r && r < m
    ensures x % m == r
  {
    var p := x / m;
    assert x == p * m + x % m;
    if p < q {
      Scale(p + 1, q, m);
    } else if q < p {
      Scale(q + 1, p, m);
    }
  }

  lemma {:induction false} ShlTimes(x: nat, k: nat)
    ensures Shl(x, k) == x * Pow2(k)
  {
    hide Shl, Pow2;
    ShlStep(x, k);
    Pow2Step(k);
    if k > 0 {
      ShlTimes(x, k - 1);
      var p := Pow2(k - 1);
      assert 2 * (x * p) == x * (2 * p);
    }
  }

  /** The low bits are the remainder modulo a power of two. */
  lemma LowIsRemainder(x: nat, k: nat)
    ensures Low(x, k) == x % Pow2(k)
  {
    hide *;
    Split(x, k);
    ShlTimes(Shr(x, k), k);
    Remainder(x, Pow2(k), Shr(x, k), Low(x, k));
  }

  /** Reducing to 64 bits first does not change the remainder modulo a smaller power of two. */
  lemma ReduceTwice(x: int, k: nat)
    requires k <= 64
    ensures U64(x) % Pow2(k) == x % Pow2(k)
  {
    hide Pow2;
    Pow2Product(k, 64 - k);
    Pow2Values();
    var p, c := Pow2(k), Pow2(64 - k);
    var q, u := x / WORD, U64(x);
    assert x == q * WORD + u;
    assert u == (u / p) * p + u % p;
    assert q * (p * c) == (q * c) * p;
    assert (q * c) * p + (u / p) * p == (q * c + u / p) * p;
    Remainder(x, p, q * c + u / p, u % p);
  }

  lemma {:induction false} Pow2Product(a: nat, b: nat)
    ensures Pow2(a) * Pow2(b) == Pow2(a + b)
  {
    hide Shl;
    ShlTimes(Pow2(a), b);
    ShlOfPow2(a, b);
  }

  // ---------------------------------------------------------------- ranges

  /** The greatest and the least value of a field. */
  function Hi(sign: bool, bits: nat): int
    requires 1 <= bits
  {
    if sign then Pow2(bits - 1) - 1 else Pow2(bits) - 1
  }

  function Lo(sign: bool, bits: nat): int
    requires 1 <= bits
  {
    if sign then 0 - Pow2(bits - 1) else 0
  }

  predicate Fits(sign: bool, bits: nat, x: int)
    requires 1 <= bits
  {
    Lo(sign, bits) <= x <= Hi(sign, bits)
  }

  function Clamp(sign: bool, bits: nat, x: int): int
    requires 1 <= bits
  {
    if x < Lo(sign, bits) then Lo(sign, bits) else if x > Hi(sign, bits) then Hi(sign, bits) else x
  }

  /** The two's complement reading of the low bits of a number. */
  function Reading(sign: bool, bits: nat, u: nat): int
    requires 1 <= bits
  {
    if sign && u >= Pow2(bits - 1) then u - Pow2(bits) else u
  }

  /** The value in the field's range that is congruent to `x` modulo two to the width. */
  function Wrapped(sign: bool, bits: nat, x: int): int
    requires 1 <= bits
  {
    Reading(sign, bits, x % Pow2(bits))
  }

  lemma Congruent(x: int, m: nat)
    requires m > 0
    ensures (x - x % m) % m == 0 && (x - (x % m - m)) % m == 0
  {
    var q := x / m;
    assert x == q * m + x % m;
    assert (q + 1) * m == q * m + m;
    Remainder(x - x % m, m, q, 0);
    Remainder(x - (x % m - m), m, q + 1, 0);
  }

  lemma CongruentIsRemainder(x: int, y: int, m: nat)
    requires m > 0 && (x - y) % m == 0
    ensures 0 <= y < m ==> y == x % m
    ensures 0 - m <= y < 0 ==> y + m == x % m
  {
    var d := (x - y) / m;
    assert x - y == d * m;
    if 0 <= y < m {
      Remainder(x, m, d, y);
    } else if 0 - m <= y < 0 {
      assert (d - 1) * m == d * m - m;
      Remainder(x, m, d - 1, y + m);
    }
  }

  /** The wrapped value is the one and only congruent value in range. */
  lemma WrappedIs(sign: bool, bits: nat, x: int, y: int)
    requires 1 <= bits
    ensures Fits(sign, bits, Wrapped(sign, bits, x)) && (x - Wrapped(sign, bits, x)) % Pow2(bits) == 0
    ensures Fits(sign, bits, y) && (x - y) % Pow2(bits) == 0 ==> y == Wrapped(sign, bits, x)
  {
    hide Pow2;
    Pow2Step(bits);
    Congruent(x, Pow2(bits));
    if (x - y) % Pow2(bits) == 0 {
      CongruentIsRemainder(x, y, Pow2(bits));
    }
  }

  /** A value in range is its own wrapped value. */
  lemma FittingWraps(sign: bool, bits: nat, x: int)
    requires 1 <= bits && Fits(sign, bits, x)
    ensures Wrapped(sign, bits, x) == x
  {
    hide Pow2, Wrapped;
    assert (x - x) % Pow2(bits) == 0;
    WrappedIs(sign, bits, x, x);
  }

  /** A number is read as the congruent value in range, and that is negative exactly when the field is signed and
      its top bit is set. */
  lemma ReadingIs(sign: bool, bits: nat, u: nat)
    requires 1 <= bits && u < Pow2(bits)
    ensures Fits(sign, bits, Reading(sign, bits, u)) && (u - Reading(sign, bits, u)) % Pow2(bits) == 0
    ensures Reading(sign, bits, u) < 0 <==> sign && 2 * u >= Pow2(bits)
  {
    hide Pow2;
    Pow2Step(bits);
    Congruent(0, Pow2(bits));
    assert 0 % Pow2(bits) == 0;
  }

  function Distance(x: int, y: int): nat {
    if x < y then y - x else x - y
  }

  /** Saturation gives the one value of the field that is nearest. */
  lemma ClampIs(sign: bool, bits: nat, x: int, y: int)
    requires 1 <= bits
    ensures Fits(sign, bits, Clamp(sign, bits, x))
    ensures Fits(sign, bits, x) ==> Clamp(sign, bits, x) == x
    ensures Fits(sign, bits, y) && y != Clamp(sign, bits, x) ==> Distance(x, Clamp(sign, bits, x)) < Distance(x, y)
  {
    hide Pow2;
    Pow2Step(bits);
  }

  // ---------------------------------------------------------------- sign extension

  /** `(uint64_t)-1 << bits`. */
  function HighMask(bits: nat): nat {
    Low(Shl(WORD - 1, bits), 64)
  }

  lemma ShlOfOnes(n: nat, b: nat)
    requires b <= n
    ensures Field(b, n) >= 0 && Low(Shl(Ones(n), b), n) == Field(b, n)
  {
    hide Shl, Low, Pow2, Shr;
    Pow2Monotone(b, n);
    ShlAdd(Ones(n), 1, b);
    ShlOfPow2(n, b);
    ShlAdd(Ones(b), 1, n);
    ShlOfPow2(b, n);
    Pow2Step(0);
    ShlOfPow2(0, b);
    ShlOfPow2(0, n);
    Join(Ones(b), Field(b, n), n);
  }

  lemma HighMaskIs(bits: nat)
    requires bits <= 64
    ensures HighMask(bits) == WORD - Pow2(bits) == Field(bits, 64) && Not(HighMask(bits)) == Ones(bits)
  {
    hide Shl, Low, Pow2;
    Pow2Values();
    ShlOfOnes(64, bits);
  }

  /** The top bit of a `k + 1`-bit number. */
  lemma {:induction false} TopBit(x: nat, k: nat)
    ensures Low(x, k + 1) == Low(x, k) + (if Shr(x, k) % 2 == 1 then Pow2(k) else 0)
    ensures Shr(x, k) % 2 == 1 <==> Low(x, k + 1) >= Pow2(k)
  {
    hide *;
    LowStep(x, k + 1);
    LowStep(x, k);
    LowStep(x / 2, 0);
    ShrStep(x, k);
    Pow2Step(k);
    if k > 0 {
      TopBit(x / 2, k - 1);
    }
  }

  /** What getSignedBitfield does after reading the unsigned number. */
  function ExtendSign(u: nat, bits: nat): int
    requires 1 <= bits
  {
    if And(Pow2(bits - 1), u) != 0 then S64(Or(u, HighMask(bits))) else S64(u)
  }

  /** What the signed overflow check does with the wrapped sum. */
  function WrapSign(c: nat, bits: nat): int
    requires 1 <= bits <= 64 && IsU64(HighMask(bits))
  {
    S64(if And(Pow2(bits - 1), c) != 0 then Or(c, HighMask(bits)) else And(c, Not(HighMask(bits))))
  }

  lemma SetsTop(c: nat, bits: nat)
    requires 1 <= bits <= 63 && c < WORD
    ensures And(Pow2(bits - 1), c) != 0 <==> Low(c, bits) >= Pow2(bits - 1)
    ensures Or(c, HighMask(bits)) == Low(c, bits) + WORD - Pow2(bits)
    ensures 2 * Pow2(bits) <= WORD && 2 * Pow2(bits - 1) == Pow2(bits)
  {
    hide *;
    AndPow2(bits - 1, c);
    TopBit(c, bits - 1);
    HighMaskIs(bits);
    Pow2Values();
    OrField(c, bits, 64);
    Pow2Monotone(bits, 64);
    Pow2Step(bits);
  }

  lemma ExtendSignReads(u: nat, bits: nat)
    requires 1 <= bits <= 63 && u < Pow2(bits)
    ensures ExtendSign(u, bits) == Reading(true, bits, u)
  {
    hide Shl, Low, Pow2, Or, And, Shr, HighMask;
    Pow2Values();
    Pow2Monotone(bits, 64);
    SetsTop(u, bits);
    LowOfSmall(u, bits);
  }

  lemma WrapSignReads(c: nat, bits: nat)
    requires 1 <= bits <= 63 && c < WORD
    ensures IsU64(HighMask(bits)) && WrapSign(c, bits) == Reading(true, bits, Low(c, bits))
  {
    hide Shl, Low, Pow2, Or, And, Shr, HighMask;
    HighMaskIs(bits);
    SetsTop(c, bits);
    AndOnes(c, bits);
    LowBelow(c, bits);
  }

  lemma LowBelow(x: nat, k: nat)
    ensures Low(x, k) < Pow2(k)
  {
  }

  // ---------------------------------------------------------------- the overflow checks

  /** The result of an overflow check, and the value of its out-parameter when it is written. */
  datatype Check = Check(overflow: int, limit: Option<int>)

  function CheckUnsigned(value: nat, incr: int, bits: nat, ow: Overflow): Check
    requires 1 <= bits <= 63 && IsU64(value) && IsU64(HighMask(bits))
  {
    var max := Pow2(bits) - 1;
    var maxincr := S64(U64(max - value));
    var minincr := S64(U64(0 - value));
    var wrapped := And(U64(value + incr), Not(HighMask(bits)));
    if value > max || (incr > 0 && incr > maxincr) then
      if ow == WRAP then Check(1, Some(wrapped)) else Check(1, if ow == SAT then Some(max) else None)
    else if incr < 0 && incr < minincr then
      if ow == WRAP then Check(1, Some(wrapped)) else Check(-1, if ow == SAT then Some(0) else None)
    else Check(0, None)
  }

  function CheckSigned(value: int, incr: int, bits: nat, ow: Overflow): Check
    requires 1 <= bits <= 63 && IsU64(HighMask(bits))
  {
    var max := Pow2(bits - 1) - 1;
    var min := -max - 1;
    var maxincr := S64(U64(max - value));
    var minincr := S64(U64(min - value));
    var wrapped := WrapSign(U64(value + incr), bits);
    if value > max || incr > maxincr || (value >= 0 && incr > 0 && incr > maxincr) then
      if ow == WRAP then Check(1, Some(wrapped)) else Check(1, if ow == SAT then Some(max) else None)
    else if value < min || incr < minincr || (value < 0 && incr < 0 && incr < minincr) then
      if ow == WRAP then Check(1, Some(wrapped)) else Check(-1, if ow == SAT then Some(min) else None)
    else Check(0, None)
  }

  /** What a field operation should store for the exact result `x`, or nothing. */
  function Outcome(sign: bool, bits: nat, ow: Overflow, x: int): Option<int>
    requires 1 <= bits
  {
    if Fits(sign, bits, x) then Some(x)
    else
      match ow
      case WRAP => Some(Wrapped(sign, bits, x))
      case SAT => Some(Clamp(sign, bits, x))
      case FAIL => None
  }

  /** `r` is what overflow control asks for when the exact result is `x`: the result itself if it fits, else the
      congruent value, the nearest value, or nothing. */
  ghost predicate Controlled(sign: bool, bits: nat, ow: Overflow, x: int, r: Option<int>)
    requires 1 <= bits
  {
    && (Fits(sign, bits, x) ==> r == Some(x))
    && (!Fits(sign, bits, x) && ow == FAIL ==> r == None)
    && (!Fits(sign, bits, x) && ow == WRAP ==>
          r.Some? && Fits(sign, bits, r.value) && (x - r.value) % Pow2(bits) == 0)
    && (!Fits(sign, bits, x) && ow == SAT ==>
          r.Some? && Fits(sign, bits, r.value)
          && forall y :: Fits(sign, bits, y) ==> Distance(x, r.value) <= Distance(x, y))
  }

  lemma OutcomeIs(sign: bool, bits: nat, ow: Overflow, x: int)
    requires 1 <= bits
    ensures Controlled(sign, bits, ow, x, Outcome(sign, bits, ow, x))
  {
    hide Pow2, Clamp, Wrapped;
    WrappedIs(sign, bits, x, 0);
    ClampIs(sign, bits, x, 0);
    forall y | Fits(sign, bits, y) ensures Distance(x, Clamp(sign, bits, x)) <= Distance(x, y) {
      ClampIs(sign, bits, x, y);
    }
  }

  /** A check reports zero exactly when the result fits, 1 above the range and -1 below it, wrapping being
      always reported as 1, and otherwise gives what should be stored. */
  ghost predicate Checked(c: Check, sign: bool, bits: nat, ow: Overflow, x: int)
    requires 1 <= bits
  {
    && c.overflow == (if Fits(sign, bits, x) then 0 else if ow == WRAP || x > Hi(sign, bits) then 1 else -1)
    && (c.overflow != 0 ==> c.limit == Outcome(sign, bits, ow, x) && Controlled(sign, bits, ow, x, c.limit))
  }

  lemma Bounds(bits: nat)
    requires 1 <= bits <= 63
    ensures 2 * Pow2(bits) <= WORD && 2 * Pow2(bits - 1) == Pow2(bits) && IsU64(HighMask(bits))
  {
    hide Pow2, HighMask;
    SetsTop(0, bits);
    HighMaskIs(bits);
  }

  lemma UnsignedWraps(x: int, bits: nat)
    requires 1 <= bits <= 63 && IsU64(HighMask(bits))
    ensures And(U64(x), Not(HighMask(bits))) == Wrapped(false, bits, x)
  {
    hide Pow2, HighMask, And, Low, U64, Not, Ones;
    HighMaskIs(bits);
    AndOnes(U64(x), bits);
    LowIsRemainder(U64(x), bits);
    ReduceTwice(x, bits);
  }

  lemma SignedWraps(x: int, bits: nat)
    requires 1 <= bits <= 63 && IsU64(HighMask(bits))
    ensures WrapSign(U64(x), bits) == Wrapped(true, bits, x)
  {
    hide Pow2, HighMask, And, Low, U64, Not, WrapSign;
    U64Range(x);
    WrapSignReads(U64(x), bits);
    LowIsRemainder(U64(x), bits);
    ReduceTwice(x, bits);
  }

  lemma U64Range(x: int)
    ensures U64(x) < WORD && IsU64(U64(x)) && IsS64(0)
  {
  }

  /** checkUnsignedBitfieldOverflow. */
  lemma CheckUnsignedIs(value: nat, incr: int, bits: nat, ow: Overflow)
    requires 1 <= bits <= 63 && IsU64(value) && IsS64(incr)
    requires Fits(false, bits, value) || incr >= 0
    ensures IsU64(HighMask(bits))
    ensures Checked(CheckUnsigned(value, incr, bits, ow), false, bits, ow, value + incr)
  {
    hide Pow2, HighMask, And, Low, U64, Not, S64;
    Bounds(bits);
    UnsignedWraps(value + incr, bits);
    OutcomeIs(false, bits, ow, value + incr);
    if value < Pow2(bits) {
      ExactS64(Pow2(bits) - 1 - value);
      ExactS64(0 - value);
    }
  }

  /** checkSignedBitfieldOverflow, when `max - value` does not itself overflow. */
  lemma CheckSignedIs(value: int, incr: int, bits: nat, ow: Overflow)
    requires 1 <= bits <= 63 && IsS64(value) && IsS64(incr) && IsS64(Hi(true, bits) - value)
    requires Fits(true, bits, value) || incr == 0
    ensures IsU64(HighMask(bits))
    ensures Checked(CheckSigned(value, incr, bits, ow), true, bits, ow, value + incr)
  {
    hide Pow2, HighMask, And, Low, U64, Not, S64, WrapSign;
    Bounds(bits);
    SignedWraps(value + incr, bits);
    OutcomeIs(true, bits, ow, value + incr);
    ExactS64(Hi(true, bits) - value);
    if value <= Hi(true, bits) {
      ExactS64(Lo(true, bits) - value);
    }
  }

  // ---------------------------------------------------------------- reading and writing fields

  /** The value of a field. */
  function Read(s: seq<bv8>, sign: bool, off: nat, bits: nat): int
    requires 1 <= bits && off + bits <= 8 * |s|
  {
    Reading(sign, bits, Number(s, off, bits))
  }

  /** All bits outside the field are the same. */
  ghost predicate SameElsewhere(s: seq<bv8>, t: seq<bv8>, off: nat, bits: nat)
    requires |t| == |s|
  {
    forall pos :: 0 <= pos < 8 * |s| && !(off <= pos < off + bits) ==> TestBit(t, pos) == TestBit(s, pos)
  }

  /** Reading a field after storing any integer in it gives the integer wrapped to the field, hence the
      integer itself when it fits; no other bit changes. */
  lemma StoreThenRead(s: seq<bv8>, t: seq<bv8>, sign: bool, off: nat, bits: nat, v: int)
    requires 1 <= bits <= 64 && |t| == |s| && off + bits <= 8 * |s| && Holds(s, t, off, bits, bits, U64(v))
    ensures Read(t, sign, off, bits) == Wrapped(sign, bits, v) && SameElsewhere(s, t, off, bits)
    ensures Fits(sign, bits, v) ==> Read(t, sign, off, bits) == v
  {
    hide U64, Low, Shr, Pow2, Number, TestBit, BitOf;
    HeldNumber(s, t, off, bits, bits, U64(v));
    ShrStep(U64(v), 0);
    LowIsRemainder(U64(v), bits);
    ReduceTwice(v, bits);
    if Fits(sign, bits, v) {
      FittingWraps(sign, bits, v);
    }
  }

  /** getSignedBitfield. */
  method GetSigned(p: array<bv8>, offset: nat, bits: nat) returns (value: int)
    requires 1 <= bits <= 63 && offset + bits <= 8 * p.Length
    ensures value == Read(p[..], true, offset, bits)
  {
    hide *;
    var u := GetUnsigned(p, offset, bits);
    NumberBound(p[..], offset, bits);
    ExtendSignReads(u, bits);
    ReadIs(p[..], true, offset, bits);
    if And(Pow2(bits - 1), u) != 0 {
      value := S64(Or(u, HighMask(bits)));
    } else {
      value := S64(u);
    }
    ExtendSignIs(u, bits);
  }

  lemma ReadIs(s: seq<bv8>, sign: bool, off: nat, bits: nat)
    requires 1 <= bits && off + bits <= 8 * |s|
    ensures Read(s, sign, off, bits) == Reading(sign, bits, Number(s, off, bits))
    ensures !sign ==> Read(s, sign, off, bits) == Number(s, off, bits)
  {
  }

  lemma ExtendSignIs(u: nat, bits: nat)
    requires 1 <= bits
    ensures ExtendSign(u, bits) == if And(Pow2(bits - 1), u) != 0 then S64(Or(u, HighMask(bits))) else S64(u)
  {
    hide And, Pow2, S64, Or, HighMask;
  }

  /** setSignedBitfield. */
  method SetSigned(p: array<bv8>, offset: nat, bits: nat, value: int)
    requires offset + bits <= 8 * p.Length
    modifies p
    ensures Holds(old(p[..]), p[..], offset, bits, bits, U64(value))
  {
    SetUnsigned(p, offset, bits, U64(value));
  }

  lemma ReadFits(s: seq<bv8>, sign: bool, off: nat, bits: nat)
    requires 1 <= bits <= 63 && off + bits <= 8 * |s|
    ensures Fits(sign, bits, Read(s, sign, off, bits))
    ensures IsS64(Read(s, sign, off, bits)) && IsS64(Hi(true, bits) - Read(s, true, off, bits))
    ensures IsU64(Number(s, off, bits)) && U64(Number(s, off, bits)) == Number(s, off, bits)
  {
    hide Pow2, Number, HighMask;
    NumberBound(s, off, bits);
    Bounds(bits);
  }

  /** The INCRBY operation of BITFIELD: it replies and stores what overflow control asks for, the reply is
      what the field then reads, and on a failed overflow nothing changes. */
  method IncrBy(p: array<bv8>, sign: bool, offset: nat, bits: nat, ow: Overflow, incr: int) returns (reply: Option<int>)
    requires 1 <= bits <= 63 && offset + bits <= 8 * p.Length && IsS64(incr)
    modifies p
    ensures reply == Outcome(sign, bits, ow, old(Read(p[..], sign, offset, bits)) + incr)
    ensures Controlled(sign, bits, ow, old(Read(p[..], sign, offset, bits)) + incr, reply)
    ensures reply.Some? ==>
      Read(p[..], sign, offset, bits) == reply.value && SameElsewhere(old(p[..]), p[..], offset, bits)
    ensures reply.None? ==> p[..] == old(p[..])
  {
    hide *;
    ReadFits(p[..], sign, offset, bits);
    ReadIs(p[..], sign, offset, bits);
    if sign {
      var oldval := GetSigned(p, offset, bits);
      CheckSignedIs(oldval, incr, bits, ow);
      OutcomeIs(true, bits, ow, oldval + incr);
      var newval := S64(U64(oldval + incr));
      var check := CheckSigned(oldval, incr, bits, ow);
      FittingSum(true, bits, oldval + incr);
      CheckedIs(check, true, bits, ow, oldval + incr);
      if check.overflow != 0 && check.limit.Some? { newval := check.limit.value; }
      if !(check.overflow != 0 && ow == FAIL) {
        SetSigned(p, offset, bits, newval);
        StoreThenRead(old(p[..]), p[..], true, offset, bits, newval);
        reply := Some(newval);
      } else {
        reply := None;
      }
    } else {
      var oldval := GetUnsigned(p, offset, bits);
      CheckUnsignedIs(oldval, incr, bits, ow);
      OutcomeIs(false, bits, ow, oldval + incr);
      var newval := U64(oldval + incr);
      var check := CheckUnsigned(oldval, incr, bits, ow);
      FittingSum(false, bits, oldval + incr);
      CheckedIs(check, false, bits, ow, oldval + incr);
      if check.overflow != 0 && check.limit.Some? { newval := U64(check.limit.value); }
      if !(check.overflow != 0 && ow == FAIL) {
        SetUnsigned(p, offset, bits, newval);
        StoreThenRead(old(p[..]), p[..], false, offset, bits, newval);
        reply := Some(newval);
      } else {
        reply := None;
      }
    }
  }

  /** The SET operation of BITFIELD: it replies the previous value and stores what overflow control asks
      for, an unsigned field taking the argument as an unsigned 64-bit integer. */
  method Set(p: array<bv8>, sign: bool, offset: nat, bits: nat, ow: Overflow, v: int) returns (reply: Option<int>)
    requires 1 <= bits <= 63 && offset + bits <= 8 * p.Length && IsS64(v)
    requires sign ==> IsS64(Hi(true, bits) - v)
    modifies p
    ensures var stored := Outcome(sign, bits, ow, if sign then v else U64(v));
      && Controlled(sign, bits, ow, if sign then v else U64(v), stored)
      && (reply.Some? <==> stored.Some?)
      && (reply.Some? ==>
            && reply.value == old(Read(p[..], sign, offset, bits))
            && Read(p[..], sign, offset, bits) == stored.value
            && SameElsewhere(old(p[..]), p[..], offset, bits))
    ensures reply.None? ==> p[..] == old(p[..])
  {
    hide *;
    ReadFits(p[..], sign, offset, bits);
    ReadIs(p[..], sign, offset, bits);
    U64Range(v);
    if sign {
      var oldval := GetSigned(p, offset, bits);
      var newval := v;
      CheckSignedIs(newval, 0, bits, ow);
      OutcomeIs(true, bits, ow, newval);
      var check := CheckSigned(newval, 0, bits, ow);
      CheckedIs(check, true, bits, ow, v);
      if check.overflow != 0 && check.limit.Some? { newval := check.limit.value; }
      if !(check.overflow != 0 && ow == FAIL) {
        SetSigned(p, offset, bits, newval);
        StoreThenRead(old(p[..]), p[..], true, offset, bits, newval);
        reply := Some(oldval);
      } else {
        reply := None;
      }
    } else {
      var oldval := GetUnsigned(p, offset, bits);
      var newval := U64(v);
      CheckUnsignedIs(newval, 0, bits, ow);
      OutcomeIs(false, bits, ow, newval);
      var check := CheckUnsigned(newval, 0, bits, ow);
      FittingSum(false, bits, newval);
      CheckedIs(check, false, bits, ow, newval);
      if check.overflow != 0 && check.limit.Some? { newval := U64(check.limit.value); }
      if !(check.overflow != 0 && ow == FAIL) {
        SetUnsigned(p, offset, bits, newval);
        StoreThenRead(old(p[..]), p[..], false, offset, bits, newval);
        reply := Some(oldval);
      } else {
        reply := None;
      }
    }
  }

  /** Taking the argument of SET as unsigned: wrapping and failing do not notice, but saturation does. A
      negative argument is stored as the maximum, so SET saturates to the nearest value exactly for
      arguments that are not negative. */
  lemma SetUnsignedSaturates(bits: nat, v: int)
    requires 1 <= bits <= 63 && IsS64(v)
    ensures Outcome(false, bits, WRAP, U64(v)) == Some(Wrapped(false, bits, v))
    ensures Outcome(false, bits, FAIL, U64(v)) == Outcome(false, bits, FAIL, v)
    ensures Outcome(false, bits, SAT, U64(v)) == Some(Clamp(false, bits, v)) <==> v >= 0
    ensures Controlled(false, bits, SAT, v, Outcome(false, bits, SAT, U64(v))) <==> v >= 0
    ensures v < 0 ==> Outcome(false, bits, SAT, U64(v)) == Some(Pow2(bits) - 1)
  {
    hide Pow2, HighMask, Controlled, U64, Wrapped;
    NegativeIsLarge(bits, v);
    WrapsSame(bits, v);
    NearerBound(bits, v);
    if Fits(false, bits, U64(v)) { FittingWraps(false, bits, U64(v)); }
  }

  lemma NegativeIsLarge(bits: nat, v: int)
    requires 1 <= bits <= 63 && IsS64(v)
    ensures v >= 0 ==> U64(v) == v
    ensures v < 0 ==> U64(v) >= Pow2(bits)
  {
    hide Pow2, HighMask;
    Bounds(bits);
  }

  lemma WrapsSame(bits: nat, v: int)
    requires 1 <= bits <= 63
    ensures Wrapped(false, bits, U64(v)) == Wrapped(false, bits, v)
  {
    hide Pow2, U64;
    ReduceTwice(v, bits);
  }

  /** For a negative number the maximum is not the nearest value. */
  lemma NearerBound(bits: nat, v: int)
    requires 1 <= bits
    ensures Controlled(false, bits, SAT, v, Some(Clamp(false, bits, v)))
    ensures v < 0 ==> !Controlled(false, bits, SAT, v, Some(Pow2(bits) - 1))
  {
    hide Pow2;
    OutcomeIs(false, bits, SAT, v);
    Pow2Step(bits);
    if v < 0 {
      assert Fits(false, bits, 0) && !Fits(false, bits, v);
      assert Distance(v, 0) < Distance(v, Pow2(bits) - 1);
    }
  }

  /** A sum that fits is computed exactly in 64 bits. */
  lemma FittingSum(sign: bool, bits: nat, x: int)
    requires 1 <= bits <= 63
    ensures Fits(sign, bits, x) ==> S64(U64(x)) == x && (!sign ==> U64(x) == x)
  {
    hide Pow2, HighMask;
    Bounds(bits);
  }

  lemma CheckedIs(c: Check, sign: bool, bits: nat, ow: Overflow, x: int)
    requires 1 <= bits <= 63 && Checked(c, sign, bits, ow, x)
    ensures c.overflow == 0 <==> Fits(sign, bits, x)
    ensures c.overflow == 0 ==> Outcome(sign, bits, ow, x) == Some(x)
    ensures c.overflow != 0 ==> c.limit == Outcome(sign, bits, ow, x) && (c.limit.None? <==> ow == FAIL)
    ensures c.overflow != 0 && c.limit.Some? ==>
      Fits(sign, bits, c.limit.value) && (!sign ==> IsU64(c.limit.value) && U64(c.limit.value) == c.limit.value)
  {
    hide Pow2, HighMask, Wrapped;
    Bounds(bits);
    WrappedIs(sign, bits, x, 0);
  }
}
