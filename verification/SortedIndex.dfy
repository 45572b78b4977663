/** A set of byte strings in lexicographic order, as the radix tree of the slot index keeps them
    (`db.c` inserts, removes and seeks through it). */
module SortedIndex {
  type Byte = b: int | 0 <= b < 256
  type Bytes = seq<Byte>

  /** Lexicographic order, a proper prefix being smaller. */
  predicate Less(a: Bytes, b: Bytes) {
    if b == [] then false
    else if a == [] then true
    else a[0] < b[0] || (a[0] == b[0] && Less(a[1..], b[1..]))
  }

  lemma {:induction false} LessTransitive(a: Bytes, b: Bytes, c: Bytes)
    requires Less(a, b) && Less(b, c)
    ensures Less(a, c)
    decreases |a|
  {
    if a != [] && b != [] && c != [] && a[0] == b[0] == c[0] {
      LessTransitive(a[1..], b[1..], c[1..]);
    }
  }

  lemma {:induction false} LessIrreflexive(a: Bytes)
    ensures !Less(a, a)
  {
    if a != [] { LessIrreflexive(a[1..]); }
  }

  lemma {:induction false} LessTotal(a: Bytes, b: Bytes)
    ensures Less(a, b) || Less(b, a) || a == b
  {
    if a != [] && b != [] && a[0] == b[0] {
      LessTotal(a[1..], b[1..]);
      assert a == [a[0]] + a[1..] && b == [b[0]] + b[1..];
    }
  }

  ghost predicate Sorted(ix: seq<Bytes>) {
    forall i, j :: 0 <= i < j < |ix| ==> Less(ix[i], ix[j])
  }

  /** The first place whose string is not below `x`: what seeking ">=" finds. */
  function Seek(ix: seq<Bytes>, x: Bytes): (p: nat)
    ensures p <= |ix|
    ensures forall i :: 0 <= i < p ==> Less(ix[i], x)
    ensures p < |ix| ==> !Less(ix[p], x)
  {
    if ix == [] || !Less(ix[0], x) then 0 else 1 + Seek(ix[1..], x)
  }

  function Insert(ix: seq<Bytes>, x: Bytes): seq<Bytes> {
    var p := Seek(ix, x);
    if p < |ix| && ix[p] == x then ix else ix[..p] + [x] + ix[p..]
  }

  function Remove(ix: seq<Bytes>, x: Bytes): seq<Bytes> {
    var p := Seek(ix, x);
    if p < |ix| && ix[p] == x then ix[..p] + ix[p + 1..] else ix
  }

  /** Everything from the place sought on is above `x`, or is `x` there. */
  lemma SeekAbove(ix: seq<Bytes>, x: Bytes, i: nat)
    requires Sorted(ix) && Seek(ix, x) <= i < |ix|
    ensures ix[i] == x ==> i == Seek(ix, x)
    ensures ix[i] != x ==> Less(x, ix[i])
  {
    hide Less, Seek;
    var p := Seek(ix, x);
    LessTotal(ix[p], x);
    LessIrreflexive(x);
    if i > p {
      assert Less(ix[p], ix[i]);
      if ix[p] != x {
        LessTransitive(x, ix[p], ix[i]);
      }
    }
  }

  /** Seeking a member finds it. */
  lemma SeekFinds(ix: seq<Bytes>, x: Bytes)
    requires Sorted(ix) && x in ix
    ensures Seek(ix, x) < |ix| && ix[Seek(ix, x)] == x
  {
    hide Less, Seek;
    var i :| 0 <= i < |ix| && ix[i] == x;
    LessIrreflexive(x);
    SeekAbove(ix, x, i);
  }

  lemma InsertSorted(ix: seq<Bytes>, x: Bytes)
    requires Sorted(ix)
    ensures Sorted(Insert(ix, x))
    ensures forall e :: e in Insert(ix, x) <==> e in ix || e == x
  {
    hide Less, Seek;
    var p := Seek(ix, x);
    var r := Insert(ix, x);
    if r != ix {
      forall i, j | 0 <= i < j < |r| ensures Less(r[i], r[j]) {
        if i == p {
          SeekAbove(ix, x, j - 1);
          SeekAbove(ix, x, p);
        }
      }
      assert ix == ix[..p] + ix[p..];
    }
  }

  lemma RemoveSorted(ix: seq<Bytes>, x: Bytes)
    requires Sorted(ix)
    ensures Sorted(Remove(ix, x))
    ensures forall e :: e in Remove(ix, x) <==> e in ix && e != x
  {
    hide Less, Seek;
    var p := Seek(ix, x);
    if x in ix {
      SeekFinds(ix, x);
      assert ix == ix[..p] + [x] + ix[p + 1..];
      forall i | 0 <= i < |ix| && i != p ensures ix[i] != x {
        LessIrreflexive(x);
        if i < p { assert Less(ix[i], ix[p]); } else { assert Less(ix[p], ix[i]); }
      }
    }
  }
}
