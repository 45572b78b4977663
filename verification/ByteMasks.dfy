/** Setting and clearing one bit of a byte through a mask. */
module ByteMasks {
  function Mask(bit: nat): (m: bv8)
    requires bit < 8
  {
    1 << bit
  }

  lemma MasksApart(bit: nat, i: nat)
    requires bit < 8 && i < 8
    ensures Mask(bit) != 0 && (i != bit ==> Mask(bit) & Mask(i) == 0)
  {
  }

  lemma MaskFacts(b: bv8, m: bv8, n: bv8)
    requires m != 0
    ensures (b | m) & m != 0 && (b & !m) & m == 0
    ensures m & n == 0 ==> (b | m) & n == b & n && (b & !m) & n == b & n
  {
  }

  /** A bit of a byte string is known by its byte and its place in the byte. */
  lemma SamePlace(p: nat, q: nat)
    ensures p / 8 == q / 8 && p % 8 == q % 8 ==> p == q
  {
  }
}
