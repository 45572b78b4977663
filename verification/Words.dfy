/**
 Unsigned machine words as numbers, with the bitwise operators of C defined bit by bit,
 and the meaning of the masks that dict.c builds from powers of two.

 The proofs hide the recursive definitions and unfold them one bit at a time through the
 `...Step` lemmas.
 */
module Words {

  const WORD_BITS: nat := 64
  const WORD: nat := 0x1_0000_0000_0000_0000

  /** unsigned long on the platforms Redis is built for. */
  type u64 = n: int | 0 <= n < WORD

  function Pow2(k: nat): (p: nat)
    ensures p > 0
  {
    if k == 0 then 1 else 2 * Pow2(k - 1)
  }

  function And(x: nat, y: nat): (r: nat)
    ensures r <= x && r <= y
  {
    if x == 0 || y == 0 then 0
    else 2 * And(x / 2, y / 2) + (if x % 2 == 1 && y % 2 == 1 then 1 else 0)
  }

  function Or(x: nat, y: nat): (r: nat)
    decreases x + y
  {
    if x == 0 then y else if y == 0 then x
    else 2 * Or(x / 2, y / 2) + (if x % 2 == 1 || y % 2 == 1 then 1 else 0)
  }

  function Xor(x: nat, y: nat): (r: nat)
    decreases x + y
  {
    if x == 0 then y else if y == 0 then x
    else 2 * Xor(x / 2, y / 2) + (if x % 2 != y % 2 then 1 else 0)
  }

  /** The complement of a 64-bit word. */
  function Not(x: u64): (r: u64) {
    WORD - 1 - x
  }

  /** The mask with the `k` lowest bits set. */
  function Ones(k: nat): (m: nat) {
    Pow2(k) - 1
  }

  /** The mask with bits `a` up to `b` set. */
  function Field(a: nat, b: nat): (m: int) {
    Pow2(b) - Pow2(a)
  }

  /** x >> s */
  function Shr(x: nat, s: nat): (r: nat)
    ensures r <= x
    decreases s
  {
    if s == 0 then x else Shr(x / 2, s - 1)
  }

  /** x << s, without a word size. */
  function Shl(x: nat, s: nat): (r: nat)
    ensures r >= x
    decreases s
  {
    if s == 0 then x else 2 * Shl(x, s - 1)
  }

  /** The `k` lowest bits of `x`. */
  function Low(x: nat, k: nat): (r: nat)
    ensures r < Pow2(k) && r <= x
    decreases k
  {
    if k == 0 then 0 else 2 * Low(x / 2, k - 1) + x % 2
  }

  // ---------------------------------------------------------------- one bit at a time

  lemma Half(a: nat, b: nat)
    requires b < 2
    ensures (2 * a + b) / 2 == a && (2 * a + b) % 2 == b
  {
  }

  lemma Pow2Step(k: nat)
    ensures Pow2(0) == 1
    ensures k > 0 ==> Pow2(k) == 2 * Pow2(k - 1)
  {
  }

  lemma LowStep(x: nat, k: nat)
    ensures Low(x, 0) == 0
    ensures k > 0 ==> Low(x, k) == 2 * Low(x / 2, k - 1) + x % 2
    ensures k > 0 ==> Low(x, k) / 2 == Low(x / 2, k - 1) && Low(x, k) % 2 == x % 2
  {
    if k > 0 {
      Half(Low(x / 2, k - 1), x % 2);
    }
  }

  lemma ShrStep(x: nat, s: nat)
    ensures Shr(x, 0) == x
    ensures s > 0 ==> Shr(x, s) == Shr(x / 2, s - 1)
  {
  }

  lemma ShlStep(x: nat, s: nat)
    ensures Shl(x, 0) == x
    ensures s > 0 ==> Shl(x, s) == 2 * Shl(x, s - 1)
  {
  }

  lemma AndStep(x: nat, y: nat)
    ensures And(x, 0) == And(0, y) == 0
    ensures And(x, y) == 2 * And(x / 2, y / 2) + (if x % 2 == 1 && y % 2 == 1 then 1 else 0)
  {
  }

  lemma OrStep(x: nat, y: nat)
    ensures Or(x, 0) == x && Or(0, y) == y
    ensures Or(x, y) == 2 * Or(x / 2, y / 2) + (if x % 2 == 1 || y % 2 == 1 then 1 else 0)
  {
  }

  lemma XorStep(x: nat, y: nat)
    ensures Xor(x, 0) == x && Xor(0, y) == y
    ensures Xor(x, y) == 2 * Xor(x / 2, y / 2) + (if x % 2 != y % 2 then 1 else 0)
  {
  }

  lemma OnesStep(k: nat)
    ensures Ones(0) == 0
    ensures k > 0 ==> Ones(k) / 2 == Ones(k - 1) && Ones(k) % 2 == 1
  {
    if k > 0 {
      Half(Ones(k - 1), 1);
    }
  }

  lemma FieldStep(a: nat, b: nat)
    requires a <= b
    ensures Field(a, b) >= 0 && Field(a, a) == 0
    ensures a == 0 ==> Field(a, b) == Ones(b)
    ensures a > 0 ==> Field(a - 1, b - 1) >= 0 && Field(a, b) / 2 == Field(a - 1, b - 1) && Field(a, b) % 2 == 0
  {
    Pow2Monotone(a, b);
    if a > 0 {
      Pow2Monotone(a - 1, b - 1);
      Half(Field(a - 1, b - 1), 0);
    }
  }

  // ---------------------------------------------------------------- powers and shifts

  lemma Pow2Values()
    ensures Pow2(8) == 0x100 && Pow2(31) == 0x8000_0000 && Pow2(32) == 0x1_0000_0000 && Pow2(64) == WORD
  {
    assert Pow2(8) == 0x100;
    assert Pow2(16) == 0x1_0000;
    assert Pow2(24) == 0x100_0000;
    assert Pow2(31) == 0x8000_0000;
    assert Pow2(40) == 0x100_0000_0000;
    assert Pow2(48) == 0x1_0000_0000_0000;
    assert Pow2(56) == 0x100_0000_0000_0000;
  }

  lemma {:induction false} Pow2Monotone(a: nat, b: nat)
    requires a <= b
    ensures Pow2(a) <= Pow2(b)
    ensures a < b ==> 2 * Pow2(a) <= Pow2(b)
    decreases b
  {
    hide *;
    if a < b {
      Pow2Step(b);
      Pow2Monotone(a, b - 1);
    }
  }

  lemma {:induction false} ShlOfPow2(a: nat, s: nat)
    ensures Shl(Pow2(a), s) == Pow2(a + s)
    decreases s
  {
    hide *;
    ShlStep(Pow2(a), s);
    if s > 0 {
      Pow2Step(a + s);
      ShlOfPow2(a, s - 1);
    }
  }

  lemma {:induction false} ShlOfZero(s: nat)
    ensures Shl(0, s) == 0
  {
    hide *;
    ShlStep(0, s);
    if s > 0 {
      ShlOfZero(s - 1);
    }
  }

  lemma {:induction false} ShlAdd(x: nat, y: nat, s: nat)
    ensures Shl(x + y, s) == Shl(x, s) + Shl(y, s)
    decreases s
  {
    hide *;
    ShlStep(x, s);
    ShlStep(y, s);
    ShlStep(x + y, s);
    if s > 0 {
      ShlAdd(x, y, s - 1);
    }
  }

  lemma {:induction false} ShlMonotone(x: nat, y: nat, s: nat)
    requires x < y
    ensures Shl(x, s) + Pow2(s) <= Shl(y, s)
    decreases s
  {
    hide *;
    ShlStep(x, s);
    ShlStep(y, s);
    Pow2Step(s);
    if s > 0 {
      ShlMonotone(x, y, s - 1);
    }
  }

  /** A word is its high part and its low part. */
  lemma {:induction false} Split(x: nat, k: nat)
    ensures x == Shl(Shr(x, k), k) + Low(x, k)
    decreases k
  {
    hide *;
    ShrStep(x, k);
    LowStep(x, k);
    ShlStep(Shr(x, k), k);
    if k > 0 {
      Split(x / 2, k - 1);
    }
  }

  /** The two parts are determined by the sum. */
  lemma {:induction false} Join(q: nat, r: nat, k: nat)
    requires r < Pow2(k)
    ensures Shr(Shl(q, k) + r, k) == q && Low(Shl(q, k) + r, k) == r
    decreases k
  {
    hide *;
    var x := Shl(q, k) + r;
    ShlStep(q, k);
    Pow2Step(k);
    ShrStep(x, k);
    LowStep(x, k);
    if k > 0 {
      Half(Shl(q, k - 1) + r / 2, r % 2);
      assert x == 2 * (Shl(q, k - 1) + r / 2) + r % 2;
      Join(q, r / 2, k - 1);
    }
  }

  /** Shifting right keeps the order. */
  lemma ShrMonotone(x: nat, y: nat, k: nat)
    requires x <= y
    ensures Shr(x, k) <= Shr(y, k)
  {
    hide *;
    Split(x, k);
    Split(y, k);
    if Shr(y, k) < Shr(x, k) {
      ShlMonotone(Shr(y, k), Shr(x, k), k);
    }
  }

  lemma {:induction false} LowOfSmall(x: nat, k: nat)
    requires x < Pow2(k)
    ensures Low(x, k) == x && Shr(x, k) == 0
    decreases k
  {
    hide *;
    LowStep(x, k);
    ShrStep(x, k);
    Pow2Step(k);
    if k > 0 {
      LowOfSmall(x / 2, k - 1);
    }
  }

  lemma {:induction false} LowOfLow(x: nat, a: nat, b: nat)
    requires a <= b
    ensures Low(Low(x, b), a) == Low(x, a)
    decreases a
  {
    hide *;
    LowStep(x, a);
    LowStep(x, b);
    LowStep(Low(x, b), a);
    if a > 0 {
      LowOfLow(x / 2, a - 1, b - 1);
    }
  }

  // ---------------------------------------------------------------- masks

  /** `h & sizemask` keeps the low bits: the bucket of `h`. */
  lemma {:induction false} AndOnes(x: nat, k: nat)
    ensures And(x, Ones(k)) == Low(x, k)
    decreases k
  {
    hide *;
    AndStep(x, Ones(k));
    OnesStep(k);
    LowStep(x, k);
    if k > 0 {
      AndOnes(x / 2, k - 1);
    }
  }

  lemma {:induction false} OrOnes(x: nat, k: nat)
    ensures Or(x, Ones(k)) == x - Low(x, k) + Ones(k)
    decreases k
  {
    hide *;
    OrStep(x, Ones(k));
    OnesStep(k);
    LowStep(x, k);
    if k > 0 {
      OrOnes(x / 2, k - 1);
    }
  }

  lemma {:induction false} AndField(x: nat, a: nat, b: nat)
    requires a <= b
    ensures Field(a, b) >= 0 && And(x, Field(a, b)) == Low(x, b) - Low(x, a)
    decreases a
  {
    hide *;
    FieldStep(a, b);
    AndStep(x, Field(a, b));
    LowStep(x, a);
    LowStep(x, b);
    if a == 0 {
      AndOnes(x, b);
    } else {
      AndField(x / 2, a - 1, b - 1);
    }
  }

  lemma {:induction false} OrField(x: nat, a: nat, b: nat)
    requires a <= b && x < Pow2(b)
    ensures Field(a, b) >= 0 && Or(x, Field(a, b)) == Low(x, a) + Field(a, b)
    decreases a
  {
    hide *;
    FieldStep(a, b);
    OrStep(x, Field(a, b));
    LowStep(x, a);
    Pow2Step(b);
    if a == 0 {
      OrOnes(x, b);
      LowOfSmall(x, b);
    } else {
      OrField(x / 2, a - 1, b - 1);
    }
  }

  /** And-ing with a power of two tests one bit. */
  lemma {:induction false} AndPow2(k: nat, w: nat)
    ensures And(Pow2(k), w) == if Shr(w, k) % 2 == 1 then Pow2(k) else 0
  {
    hide *;
    AndStep(Pow2(k), w);
    Pow2Step(k);
    ShrStep(w, k);
    if k > 0 {
      AndPow2(k - 1, w / 2);
    } else {
      assert And(0, w / 2) == 0 by { AndNothing(w / 2); }
    }
  }

  lemma AndNothing(w: nat)
    ensures And(0, w) == 0
  {
  }

  /** Numbers with no bits in common add up. */
  lemma {:induction false} OrDisjoint(q: nat, y: nat, k: nat)
    requires y < Pow2(k)
    ensures Or(Shl(q, k), y) == Shl(q, k) + y
    decreases k
  {
    hide *;
    OrStep(Shl(q, k), y);
    ShlStep(q, k);
    Pow2Step(k);
    if k > 0 {
      Half(Shl(q, k - 1), 0);
      OrDisjoint(q, y / 2, k - 1);
    }
  }

  lemma {:induction false} XorOnes(a: nat, b: nat)
    requires a <= b
    ensures Xor(Ones(a), Ones(b)) == Field(a, b)
    decreases a
  {
    hide *;
    XorStep(Ones(a), Ones(b));
    OnesStep(a);
    OnesStep(b);
    FieldStep(a, b);
    if a > 0 {
      XorOnes(a - 1, b - 1);
    }
  }

  // ---------------------------------------------------------------- word results

  lemma {:induction false} OrBound(x: nat, y: nat, n: nat)
    requires x < Pow2(n) && y < Pow2(n)
    ensures Or(x, y) < Pow2(n)
    decreases n
  {
    hide *;
    OrStep(x, y);
    Pow2Step(n);
    if n > 0 {
      OrBound(x / 2, y / 2, n - 1);
    }
  }

  lemma {:induction false} XorBound(x: nat, y: nat, n: nat)
    requires x < Pow2(n) && y < Pow2(n)
    ensures Xor(x, y) < Pow2(n)
    decreases n
  {
    hide *;
    XorStep(x, y);
    Pow2Step(n);
    if n > 0 {
      XorBound(x / 2, y / 2, n - 1);
    }
  }

  function OrWord(x: u64, y: u64): (r: u64) {
    Pow2Values();
    OrBound(x, y, 64);
    Or(x, y)
  }

  function XorWord(x: u64, y: u64): (r: u64) {
    Pow2Values();
    XorBound(x, y, 64);
    Xor(x, y)
  }

  /** x << s on a 64-bit word: the bits shifted out are lost. */
  function ShlWord(x: u64, s: nat): (r: u64) {
    Pow2Values();
    Low(Shl(x, s), WORD_BITS)
  }
}
