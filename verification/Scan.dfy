/**
 dictScan: a stateless iteration that survives inserts, deletes, rehash steps and resizes
 between its calls. `n` is the number of bits of an unsigned long; the masks of the tables
 fit in it.
 */
module Scan {
  import opened Options
  import opened Words
  import opened Reversal
  import opened Cursor
  import opened Expansion
  import opened Table
  import opened DictState
  import opened DictSteps

  // ---------------------------------------------------------------- one call

  predicate Fits<K, V>(d: Dict<K, V>, n: nat) {
    Log2(d.t0.Size()) <= n && Log2(d.t1.Size()) <= n
  }

  /** The smaller table during a rehash (t0), else the only one. */
  function Small<K, V>(d: Dict<K, V>): (t: Table<K, V>) {
    if d.Rehashing() && d.t0.Size() > d.t1.Size() then d.t1 else d.t0
  }

  /** The larger table during a rehash (t1). */
  function Large<K, V>(d: Dict<K, V>): (t: Table<K, V>) {
    if d.Rehashing() && d.t0.Size() <= d.t1.Size() then d.t1 else d.t0
  }

  /** The number of ones in the smaller mask. */
  function SmallExp<K, V>(d: Dict<K, V>): (a: nat) {
    Log2(Small(d).Size())
  }

  function LargeExp<K, V>(d: Dict<K, V>): (b: nat) {
    Log2(Large(d).Size())
  }

  /** The entries of the buckets i, i + step, i + 2 step, ... */
  function Every<K, V>(buckets: seq<seq<Entry<K, V>>>, i: nat, step: nat): (es: seq<Entry<K, V>>)
    requires step > 0
    decreases if i < |buckets| then |buckets| - i else 0
  {
    if i >= |buckets| then [] else buckets[i] + Every(buckets, i + step, step)
  }

  /** The entries one call hands to its callback, in order. */
  function Emitted<K, V>(d: Dict<K, V>, v: nat): (es: seq<Entry<K, V>>)
    requires d.Count() > 0 ==> d.t0.Size() > 0
    requires d.Rehashing() ==> d.t0.Size() > 0 && d.t1.Size() > 0
  {
    if d.Count() == 0 then []
    else if !d.Rehashing() then d.t0.buckets[Index(v, d.t0.Size())]
    else
      Small(d).buckets[Index(v, Small(d).Size())]
      + Every(Large(d).buckets, Index(v, Large(d).Size()), Small(d).Size())
  }

  /** The cursor one call returns. */
  function NextCursor<K, V>(d: Dict<K, V>, v: nat, n: nat): (r: nat)
    requires Fits(d, n)
    ensures r < Pow2(n)
  {
    if d.Count() == 0 then 0 else Advance(v, SmallExp(d), n)
  }

  lemma ScanShape<K, V>(d: Dict<K, V>)
    requires Valid(d)
    ensures d.Count() > 0 ==> d.t0.Size() > 0
    ensures d.Rehashing() ==> d.t0.Size() > 0 && d.t1.Size() > 0
    ensures d.t0.Size() > 0 ==> d.t0.Size() == Pow2(Log2(d.t0.Size())) && IsPow2(d.t0.Size())
    ensures d.t1.Size() > 0 ==> d.t1.Size() == Pow2(Log2(d.t1.Size())) && IsPow2(d.t1.Size())
  {
    hide Index, Pow2, Log2;
  }

  lemma ExponentFits<K, V>(d: Dict<K, V>, n: nat)
    requires Fits(d, n)
    ensures SmallExp(d) <= n && LargeExp(d) <= n
  {
  }

  lemma ExponentOrder<K, V>(d: Dict<K, V>)
    requires Valid(d) && d.Rehashing()
    ensures Small(d).Size() == Pow2(SmallExp(d)) && Large(d).Size() == Pow2(LargeExp(d))
    ensures SmallExp(d) <= LargeExp(d)
  {
    hide Valid, Pow2, Log2;
    ScanShape(d);
    if LargeExp(d) < SmallExp(d) {
      Pow2Monotone(LargeExp(d), SmallExp(d));
    }
  }

  lemma EveryStep<K, V>(buckets: seq<seq<Entry<K, V>>>, i: nat, step: nat)
    requires step > 0
    ensures Every(buckets, i, step) == if i >= |buckets| then [] else buckets[i] + Every(buckets, i + step, step)
  {
  }

  /** One round of the inner loop, with what is still to come. */
  lemma ExpansionRound<K, V>(buckets: seq<seq<Entry<K, V>>>, es: seq<Entry<K, V>>, all: seq<Entry<K, V>>,
                             w: nat, a: nat, b: nat, n: nat)
    requires a <= b <= n && w < Pow2(n) && |buckets| == Pow2(b)
    requires es + Every(buckets, Low(w, b), Pow2(a)) == all
    ensures var u := NextExpansion(w, a, n);
      if FieldOf(u, a, b) == 0 then es + buckets[Low(w, b)] == all
      else es + buckets[Low(w, b)] + Every(buckets, Low(u, b), Pow2(a)) == all
  {
    hide Pow2, Low, Every, NextExpansion, FieldOf;
    var i, step := Low(w, b), Pow2(a);
    NextIndex(w, a, b, n);
    EveryStep(buckets, i, step);
    EveryStep(buckets, i + step, step);
    var rest := Every(buckets, i + step, step);
    assert all == es + (buckets[i] + rest) == (es + buckets[i]) + rest;
  }

  /** The inner do-while of dictScan. */
  method ScanExpansions<K, V>(large: Table<K, V>, v: nat, a: nat, b: nat, n: nat) returns (es: seq<Entry<K, V>>, w: nat)
    requires a <= b <= n && v < Pow2(n) && large.Size() == Pow2(b)
    ensures es == Every(large.buckets, Low(v, b), Pow2(a))
    ensures w < Pow2(n) && Low(w, a) == Low(v, a)
  {
    hide Pow2, Low, Every, NextExpansion, FieldOf, And, Xor, Ones;
    es, w := [], v;
    var more := true;
    ghost var all := Every(large.buckets, Low(v, b), Pow2(a));
    while more
      invariant w < Pow2(n) && Low(w, a) == Low(v, a)
      invariant more ==> es + Every(large.buckets, Low(w, b), Pow2(a)) == all
      invariant !more ==> es == all
      decreases more, Pow2(b - a) - FieldOf(w, a, b)
    {
      var u := NextExpansion(w, a, n);
      AndOnes(w, b);
      ExpansionRound(large.buckets, es, all, w, a, b, n);
      NextIndex(w, a, b, n);
      LoopTest(u, a, b);
      LargerIndex(u, a, b);
      es := es + large.buckets[And(w, Ones(b))];
      w := u;
      more := And(u, Xor(Ones(a), Ones(b))) != 0;
    }
  }

  /** The bucket the loop visits next. */
  lemma NextIndex(v: nat, a: nat, b: nat, n: nat)
    requires a <= b <= n && v < Pow2(n)
    ensures var u := NextExpansion(v, a, n);
      && Low(u, a) == Low(v, a)
      && (FieldOf(u, a, b) == 0 <==> Low(v, b) + Pow2(a) >= Pow2(b))
      && (FieldOf(u, a, b) != 0 ==> Low(u, b) == Low(v, b) + Pow2(a) && FieldOf(u, a, b) > FieldOf(v, a, b))
  {
    hide Pow2, Low, Shl, NextExpansion, FieldOf, Ones;
    var u := NextExpansion(v, a, n);
    var f := FieldOf(v, a, b);
    NextExpansionField(v, a, b, n);
    LargerIndex(v, a, b);
    LargerIndex(u, a, b);
    OnesAre(b - a);
    ShlAdd(f, 1, a);
    ShlOfPow2(0, a);
    Pow2Step(0);
    ShlOfPow2(b - a, a);
    if f + 1 < Pow2(b - a) {
      ShlMonotone(f + 1, Pow2(b - a), a);
    }
  }

  /** dictScan */
  method DictScan<K, V>(d: Dict<K, V>, v: nat, n: nat) returns (next: nat, es: seq<Entry<K, V>>)
    requires Valid(d) && Fits(d, n) && v < Pow2(n)
    ensures d.Count() > 0 ==> d.t0.Size() > 0
    ensures d.Rehashing() ==> d.t0.Size() > 0 && d.t1.Size() > 0
    ensures es == Emitted(d, v) && next == NextCursor(d, v, n)
  {
    hide Valid, Pow2, Log2, Index, Low, Every, Advance;
    ScanShape(d);
    if d.t0.used + d.t1.used == 0 {
      return 0, [];
    }
    var a;
    var w := v;
    if d.rehashidx == -1 {
      a := Log2(d.t0.Size());
      es := d.t0.buckets[Index(v, d.t0.Size())];
    } else {
      ExponentOrder(d);
      var t0, t1 := d.t0, d.t1;
      if t0.Size() > t1.Size() {
        t0, t1 := d.t1, d.t0;
      }
      a := Log2(t0.Size());
      es := t0.buckets[Index(v, t0.Size())];
      IndexIsLow(v, t1.Size());
      var larger;
      larger, w := ScanExpansions(t1, v, a, Log2(t1.Size()), n);
      es := es + larger;
    }
    AdvanceIgnoresHighBits(v, w, a, n);
    next := Advance(w, a, n);
  }

  /** The end of the call only looks at the cursor through the smaller mask. */
  lemma AdvanceIgnoresHighBits(v: nat, w: nat, a: nat, n: nat)
    requires a <= n && v < Pow2(n) && w < Pow2(n)
    requires Low(w, a) == Low(v, a)
    ensures Advance(w, a, n) == Advance(v, a, n)
  {
    hide Pow2, Low, Or, Reverse;
    OrField(v, a, n);
    OrField(w, a, n);
  }

  // ---------------------------------------------------------------- what one call covers

  /** Some entry with key `k`, holding its current value, is handed to the callback. */
  ghost predicate Emits<K, V>(d: Dict<K, V>, v: nat, k: K)
    requires Valid(d)
  {
    ScanShape(d);
    exists e :: e in Emitted(d, v) && e.key == k && Lookup(d, k) == Some(e.val)
  }

  /** The exact condition on a call made during a rehash. */
  ghost predicate Safe<K, V>(d: Dict<K, V>, v: nat) {
    d.Rehashing() ==> LowOnes(FieldOf(v, SmallExp(d), LargeExp(d)))
  }

  lemma {:induction false} EveryHas<K, V>(buckets: seq<seq<Entry<K, V>>>, i: nat, j: nat, a: nat, p: nat)
    requires i <= j < |buckets| && Low(i, a) == Low(j, a) && p < |buckets[j]|
    ensures buckets[j][p] in Every(buckets, i, Pow2(a))
    decreases j - i
  {
    hide Low, Pow2, Every;
    EveryStep(buckets, i, Pow2(a));
    if i < j {
      SameLowApart(i, j, a);
      LowOfSum(i, a);
      EveryHas(buckets, i + Pow2(a), j, a, p);
    }
  }

  /** And nothing else: what the inner loop emits sits in a bucket it visits. */
  lemma {:induction false} EveryOnly<K, V>(buckets: seq<seq<Entry<K, V>>>, i: nat, a: nat, e: Entry<K, V>)
    returns (j: nat, p: nat)
    requires e in Every(buckets, i, Pow2(a))
    ensures i <= j < |buckets| && Low(j, a) == Low(i, a) && p < |buckets[j]| && buckets[j][p] == e
    decreases if i < |buckets| then |buckets| - i else 0
  {
    hide Low, Pow2, Every;
    EveryStep(buckets, i, Pow2(a));
    if e in buckets[i] {
      j := i;
      p :| 0 <= p < |buckets[i]| && buckets[i][p] == e;
    } else {
      LowOfSum(i, a);
      j, p := EveryOnly(buckets, i + Pow2(a), a, e);
    }
  }

  lemma SameLowApart(i: nat, j: nat, a: nat)
    requires i < j && Low(i, a) == Low(j, a)
    ensures i + Pow2(a) <= j
  {
    hide *;
    Split(i, a);
    Split(j, a);
    if Shr(i, a) < Shr(j, a) {
      ShlMonotone(Shr(i, a), Shr(j, a), a);
    } else if Shr(j, a) < Shr(i, a) {
      ShlMonotone(Shr(j, a), Shr(i, a), a);
    }
  }

  lemma LowOfSum(i: nat, a: nat)
    ensures Low(i + Pow2(a), a) == Low(i, a)
  {
    hide *;
    Split(i, a);
    ShlOfPow2(0, a);
    Pow2Step(0);
    ShlAdd(Shr(i, a), 1, a);
    Join(Shr(i, a) + 1, Low(i, a), a);
  }

  /** Where the entry of `k` sits. */
  lemma Whereabouts<K, V>(d: Dict<K, V>, k: K) returns (t: Table<K, V>, i: nat, p: nat)
    requires Valid(d) && Lookup(d, k).Some?
    ensures d.Count() > 0
    ensures t == d.t0 || (d.Rehashing() && t == d.t1)
    ensures t.Size() > 0 && IsPow2(t.Size()) && i == Index(d.hash(k), t.Size()) == Low(d.hash(k), Log2(t.Size()))
    ensures p < |t.buckets[i]| && t.buckets[i][p].key == k && Lookup(d, k) == Some(t.buckets[i][p].val)
  {
    hide Index, Pow2, Log2, Low, Total;
    TotalZero(d.t0.buckets);
    TotalZero(d.t1.buckets);
    t := if Get(d.hash, d.t0, k).Some? then d.t0 else d.t1;
    i := Index(d.hash(k), t.Size());
    p := Position(t.buckets[i], k);
    IndexIsLow(d.hash(k), t.Size());
    assert t.buckets[i] != [];
  }

  /** A key whose hash the cursor passes over is emitted. */
  lemma CallCovers<K, V>(d: Dict<K, V>, v: nat, k: K, n: nat)
    requires Valid(d) && Fits(d, n) && v < Pow2(n) && Safe(d, v)
    requires Lookup(d, k).Some?
    requires PassedOver(v, d.hash(k), SmallExp(d), n)
    ensures Emits(d, v, k)
  {
    hide Valid, Lookup, Index, Pow2, Log2, Low, Every, Advance, Reverse, LowOnes, FieldOf, PassedOver, IsPow2;
    ScanShape(d);
    var t, i, p := Whereabouts(d, k);
    var e, a := t.buckets[i][p], SmallExp(d);
    PassedOverIs(v, d.hash(k), a, n);
    AdvanceCovers(v, d.hash(k), a, n);
    IndexIsLow(v, Small(d).Size());
    if t == Small(d) {
      assert e in Emitted(d, v);
    } else {
      var b := LargeExp(d);
      ExponentOrder(d);
      NothingMissed(v, d.hash(k), a, b, n);
      IndexIsLow(v, Large(d).Size());
      LowOfLow(v, a, b);
      LowOfLow(d.hash(k), a, b);
      EveryHas(Large(d).buckets, Low(v, b), i, a, p);
    }
    assert e in Emitted(d, v);
  }

  lemma PassedOverIs(v: nat, h: nat, a: nat, n: nat)
    requires a <= n && PassedOver(v, h, a, n)
    ensures Reverse(v, n) <= Reverse(h, n) && (Advance(v, a, n) == 0 || Reverse(h, n) < Reverse(Advance(v, a, n), n))
  {
  }

  // ---------------------------------------------------------------- a whole scan

  /** The states the calls of one scan find, and the cursors passed and returned: from 0 until
      0 is returned. Anything may have happened to the dictionary between two calls. */
  ghost predicate ScanRun<K, V>(ds: seq<Dict<K, V>>, cs: seq<nat>, hash: K -> nat, n: nat) {
    && |ds| > 0 && |cs| == |ds| + 1
    && cs[0] == 0 && cs[|ds|] == 0
    && (forall i :: 0 < i < |ds| ==> cs[i] != 0)
    && (forall i :: 0 <= i < |ds| ==> Valid(ds[i]) && Fits(ds[i], n) && ds[i].hash == hash)
    && (forall i :: 0 <= i < |ds| ==> cs[i] < Pow2(n))
    && (forall i :: 0 <= i < |ds| ==> cs[i + 1] == NextCursor(ds[i], cs[i], n))
  }

  /** After `m` calls everything below the cursor has been emitted. */
  lemma {:induction false} CoveredSoFar<K, V>(ds: seq<Dict<K, V>>, cs: seq<nat>, hash: K -> nat, n: nat, k: K, m: nat)
    requires ScanRun(ds, cs, hash, n) && m <= |ds|
    requires forall i :: 0 <= i < |ds| ==> Lookup(ds[i], k).Some? && Safe(ds[i], cs[i])
    requires if m == |ds| then true else Reverse(hash(k), n) < Reverse(cs[m], n)
    ensures exists i :: 0 <= i < m && Emits(ds[i], cs[i], k)
    decreases m
  {
    hide Valid, Lookup, Pow2, Reverse, Safe, Emits, SmallExp, Advance, PassedOver;
    if m == 0 {
      ReverseOfZero(n);
    } else {
      var d, v, h := ds[m - 1], cs[m - 1], hash(k);
      if Reverse(h, n) < Reverse(v, n) {
        CoveredSoFar(ds, cs, hash, n, k, m - 1);
      } else {
        var t, i, p := Whereabouts(d, k);
        assert cs[m - 1 + 1] == NextCursor(d, v, n);
        ExponentFits(d, n);
        PassedOverIf(v, h, SmallExp(d), n);
        CallCovers(d, v, k, n);
      }
    }
  }

  lemma PassedOverIf(v: nat, h: nat, a: nat, n: nat)
    requires a <= n
    requires Reverse(v, n) <= Reverse(h, n) && (Advance(v, a, n) == 0 || Reverse(h, n) < Reverse(Advance(v, a, n), n))
    ensures PassedOver(v, h, a, n)
  {
  }

  /** Scan coverage: a key that is in the dictionary at every call is emitted by one of them. */
  lemma ScanCovers<K, V>(ds: seq<Dict<K, V>>, cs: seq<nat>, hash: K -> nat, n: nat, k: K)
    requires ScanRun(ds, cs, hash, n)
    requires forall i :: 0 <= i < |ds| ==> Lookup(ds[i], k).Some? && Safe(ds[i], cs[i])
    ensures exists i :: 0 <= i < |ds| && Emits(ds[i], cs[i], k)
  {
    hide *;
    CoveredSoFar(ds, cs, hash, n, k, |ds|);
  }

  /** If the table does not shrink during the scan, the side condition takes care of itself. */
  lemma SafeWithoutShrinking<K, V>(ds: seq<Dict<K, V>>, cs: seq<nat>, hash: K -> nat, n: nat, i: nat)
    requires ScanRun(ds, cs, hash, n) && i < |ds|
    requires forall j :: 0 <= j < |ds| ==> ds[j].Count() > 0
    requires forall j :: 0 <= j < |ds| - 1 ==> SmallExp(ds[j]) <= SmallExp(ds[j + 1])
    ensures Safe(ds[i], cs[i])
  {
    hide Valid, Pow2, LowOnes, FieldOf, Advance, SmallExp, LargeExp;
    if ds[i].Rehashing() {
      ExponentOrder(ds[i]);
      if i > 0 {
        assert cs[i - 1 + 1] == NextCursor(ds[i - 1], cs[i - 1], n);
        ExponentFits(ds[i - 1], n);
        AdvanceStaysInMask(cs[i - 1], SmallExp(ds[i - 1]), n);
        assert SmallExp(ds[i - 1]) <= SmallExp(ds[i - 1 + 1]);
        Pow2Monotone(SmallExp(ds[i - 1]), SmallExp(ds[i]));
      }
      ConditionHolds(cs[i], SmallExp(ds[i]), LargeExp(ds[i]));
    }
  }

  lemma GrowingScanCovers<K, V>(ds: seq<Dict<K, V>>, cs: seq<nat>, hash: K -> nat, n: nat, k: K)
    requires ScanRun(ds, cs, hash, n)
    requires forall i :: 0 <= i < |ds| ==> Lookup(ds[i], k).Some?
    requires forall j :: 0 <= j < |ds| - 1 ==> SmallExp(ds[j]) <= SmallExp(ds[j + 1])
    ensures exists i :: 0 <= i < |ds| && Emits(ds[i], cs[i], k)
  {
    hide Valid, Pow2, Safe, Emits, Lookup, SmallExp;
    forall i | 0 <= i < |ds|
      ensures ds[i].Count() > 0
    {
      var t, j, p := Whereabouts(ds[i], k);
    }
    forall i | 0 <= i < |ds|
      ensures Safe(ds[i], cs[i])
    {
      SafeWithoutShrinking(ds, cs, hash, n, i);
    }
    ScanCovers(ds, cs, hash, n, k);
  }

  // ---------------------------------------------------------------- the scan ends

  /** A scan that has not ended yet: cursors from 0 on, none of the later ones 0, over dictionaries that
      may be anything as long as their masks fit a word. */
  ghost predicate Unfinished<K, V>(ds: seq<Dict<K, V>>, cs: seq<nat>, n: nat) {
    && |cs| == |ds| + 1 && cs[0] == 0
    && (forall i :: 0 < i <= |ds| ==> cs[i] != 0)
    && (forall i :: 0 <= i < |ds| ==> Fits(ds[i], n) && cs[i + 1] == NextCursor(ds[i], cs[i], n))
  }

  /** The rank of the cursor rises with every call of an unfinished scan. */
  lemma {:induction false} CursorRises<K, V>(ds: seq<Dict<K, V>>, cs: seq<nat>, n: nat, m: nat)
    requires Unfinished(ds, cs, n) && m <= |ds|
    ensures cs[m] < Pow2(n) && m <= Reverse(cs[m], n)
    ensures m > 0 ==> Reverse(cs[m - 1], n) < Reverse(cs[m], n)
  {
    hide Pow2, Reverse, Advance, SmallExp;
    if m > 0 {
      CursorRises(ds, cs, n, m - 1);
      var d := ds[m - 1];
      assert cs[m - 1 + 1] == NextCursor(d, cs[m - 1], n);
      ExponentFits(d, n);
      AdvanceIncreases(cs[m - 1], SmallExp(d), n);
    }
  }

  /** An unfinished scan has made fewer calls than there are words. */
  lemma UnfinishedIsShort<K, V>(ds: seq<Dict<K, V>>, cs: seq<nat>, n: nat)
    requires Unfinished(ds, cs, n)
    ensures |ds| < Pow2(n)
  {
    hide Pow2, Reverse, NextCursor, Fits;
    CursorRises(ds, cs, n, |ds|);
    ReverseBelow(cs[|ds|], n);
  }

  lemma ReverseBelow(v: nat, n: nat)
    ensures Reverse(v, n) < Pow2(n)
  {
  }

  /** The cursor after `i` calls from cursor 0. */
  function CursorAfter<K, V>(ds: seq<Dict<K, V>>, n: nat, i: nat): (c: nat)
    requires i <= |ds| && forall j :: 0 <= j < |ds| ==> Fits(ds[j], n)
  {
    if i == 0 then 0 else NextCursor(ds[i - 1], CursorAfter(ds, n, i - 1), n)
  }

  /** Every scan ends: whatever dictionaries its calls find, one of the first 2^n calls returns 0. */
  lemma ScanEnds<K, V>(ds: seq<Dict<K, V>>, n: nat)
    requires |ds| == Pow2(n) && forall i :: 0 <= i < |ds| ==> Fits(ds[i], n)
    ensures exists i :: 0 < i <= |ds| && CursorAfter(ds, n, i) == 0
  {
    hide Pow2, NextCursor, Fits;
    if forall i :: 0 < i <= |ds| ==> CursorAfter(ds, n, i) != 0 {
      var cs := seq(|ds| + 1, i requires 0 <= i <= |ds| => CursorAfter(ds, n, i));
      forall i | 0 <= i < |ds| ensures cs[i + 1] == NextCursor(ds[i], cs[i], n) {
      }
      UnfinishedIsShort(ds, cs, n);
    }
  }

  // ---------------------------------------------------------------- without the side condition

  /** The cursor an advance leads to, when it is not the last one. */
  lemma AdvanceTo(v: nat, w: nat, k: nat, n: nat)
    requires k <= n && v < Pow2(n) && w < Pow2(k)
    requires Reverse(w, k) == Reverse(v, k) + 1
    ensures Advance(v, k, n) == w
  {
    hide *;
    OnesAre(k);
    AdvanceRank(v, k, n);
    ReverseOfSmall(w, k, n);
    Pow2Monotone(k, n);
    ReverseInvolution(w, n);
    ReverseInvolution(Advance(v, k, n), n);
  }

  lemma AdvanceToZero(v: nat, k: nat, n: nat)
    requires k <= n && v < Pow2(n)
    requires Reverse(v, k) + 1 == Pow2(k)
    ensures Advance(v, k, n) == 0
  {
    hide *;
    OnesAre(k);
    AdvanceRank(v, k, n);
  }

  function FourHash(k: int): (h: nat) {
    4
  }

  /** A table of sixteen buckets whose only entry, (0, 0), hashes to 4. */
  function OneEntry(): (t: Table<int, int>) {
    Insert(FourHash, Table(Empties(16), 0), Entry(0, 0))
  }

  /** Sixteen buckets at rest. */
  function Sixteen(): (d: Dict<int, int>) {
    Dict(FourHash, OneEntry(), Reset(), -1, 0)
  }

  /** The same sixteen buckets, about to be rehashed into four. */
  function SixteenToFour(): (d: Dict<int, int>) {
    Dict(FourHash, OneEntry(), Table(Empties(4), 0), 0, 0)
  }

  lemma OneEntryValid()
    ensures ValidTable(FourHash, OneEntry())
    ensures forall k :: Get(FourHash, OneEntry(), k) == if k == 0 then Some(0) else None
  {
    hide ValidTable, Get, Index, Insert, Empties;
    Log2OfPow2(4);
    EmptyTable(16);
    InsertEffect(FourHash, Table(Empties(16), 0), Entry(0, 0));
  }

  lemma EmptyTable(size: nat)
    requires size > 0 && IsPow2(size)
    ensures var buckets: seq<seq<Entry<int, int>>> := Empties(size);
      |buckets| == size && ValidTable(FourHash, Table(buckets, 0)) && forall k :: Get(FourHash, Table(buckets, 0), k) == None
  {
    hide ValidTable, Get, Index;
    var buckets: seq<seq<Entry<int, int>>> := Empties(size);
    EmptyBuckets(FourHash, buckets);
  }

  /** Only bucket 4 holds anything. */
  lemma OneEntryBuckets()
    ensures OneEntry().Size() == 16 && forall j :: 0 <= j < 16 && j != 4 ==> OneEntry().buckets[j] == []
    ensures OneEntry().used == 1
  {
    assert Index(4, 16) == 4 by {
      AndOnes(4, 4);
    }
  }

  lemma ExampleStates()
    ensures Valid(Sixteen()) && Valid(SixteenToFour())
    ensures Lookup(Sixteen(), 0) == Some(0) && Lookup(SixteenToFour(), 0) == Some(0)
  {
    hide ValidTable, Get, Index, Insert, Empties, OneEntry;
    OneEntryValid();
    OneEntryBuckets();
    Log2OfPow2(2);
    EmptyTable(4);
    ResetValid();
    ApartFromLookups(SixteenToFour());
  }

  lemma ResetValid()
    ensures ValidTable<int, int>(FourHash, Reset()) && forall k :: Get<int, int>(FourHash, Reset(), k) == None
  {
  }

  lemma {:induction false} NothingEvery(buckets: seq<seq<Entry<int, int>>>, i: nat)
    requires forall j :: 0 <= j < |buckets| && j != 4 ==> buckets[j] == []
    requires i > 4 || i % 4 != 0
    ensures Every(buckets, i, 4) == []
    decreases if i < |buckets| then |buckets| - i else 0
  {
    hide Every;
    EveryStep(buckets, i, 4);
    if i < |buckets| {
      NothingEvery(buckets, i + 4);
    }
  }

  lemma ExampleCall(v: nat)
    requires v == 8 || v == 2 || v == 1 || v == 3
    ensures Valid(SixteenToFour()) && !Emits(SixteenToFour(), v, 0)
  {
    hide Valid, Insert, Lookup, OneEntry, Every, Index;
    ExampleStates();
    OneEntryBuckets();
    var d := SixteenToFour();
    ScanShape(d);
    Log2OfPow2(4);
    Log2OfPow2(2);
    IndexIsLow(v, 16);
    LowOfSmall(v, 4);
    NothingEvery(OneEntry().buckets, v);
    assert Emitted(d, v) == [];
  }

  /** The scan that loses a key: sixteen buckets at cursor 0, then, in the middle of shrinking to
      four, cursors 8, 2, 1 and 3. Cursor 8 has the bits 10 in the field. Key 0 is there all along. */
  lemma ShrinkingScanMisses(n: nat)
    requires n >= 4
    ensures var ds := [Sixteen(), SixteenToFour(), SixteenToFour(), SixteenToFour(), SixteenToFour()];
      var cs := [0, 8, 2, 1, 3, 0];
      && ScanRun(ds, cs, FourHash, n)
      && (forall i :: 0 <= i < 5 ==> Lookup(ds[i], 0) == Some(0))
      && (forall i :: 0 <= i < 5 ==> !Emits(ds[i], cs[i], 0))
  {
    hide Valid, Lookup, Advance, Emits, OneEntry;
    ExampleStates();
    FirstCall(n);
    LaterCalls(n);
    ExampleCall(8);
    ExampleCall(2);
    ExampleCall(1);
    ExampleCall(3);
  }

  lemma SixteenFits(n: nat)
    requires n >= 4
    ensures 16 <= Pow2(n)
    ensures Fits(Sixteen(), n) && Fits(SixteenToFour(), n)
    ensures Sixteen().Count() > 0 && SmallExp(Sixteen()) == 4
    ensures SixteenToFour().Count() > 0 && SmallExp(SixteenToFour()) == 2
  {
    hide Pow2, OneEntry;
    OneEntryBuckets();
    Pow2Monotone(4, n);
    assert Pow2(4) == 16 && Pow2(2) == 4 by {
      Pow2Step(4);
      Pow2Step(3);
      Pow2Step(2);
      Pow2Step(1);
    }
    Log2OfPow2(4);
    Log2OfPow2(2);
  }

  lemma SmallReverses()
    ensures Reverse(8, 4) == 1 && Reverse(0, 4) == 0 && Pow2(4) == 16
  {
  }

  lemma FirstCall(n: nat)
    requires n >= 4
    ensures Fits(Sixteen(), n) && NextCursor(Sixteen(), 0, n) == 8
    ensures Valid(Sixteen()) && !Emits(Sixteen(), 0, 0)
  {
    hide Valid, Lookup, Advance, OneEntry, Index, Pow2, Reverse;
    SixteenFits(n);
    SmallReverses();
    AdvanceTo(0, 8, 4, n);
    ExampleStates();
    ScanShape(Sixteen());
    OneEntryBuckets();
    IndexIsLow(0, 16) by { Log2OfPow2(4); }
    LowOfZero(4);
    assert Emitted(Sixteen(), 0) == [];
  }

  lemma LaterCalls(n: nat)
    requires n >= 4
    ensures Pow2(n) >= 16 && Fits(SixteenToFour(), n)
    ensures NextCursor(SixteenToFour(), 8, n) == 2
    ensures NextCursor(SixteenToFour(), 2, n) == 1
    ensures NextCursor(SixteenToFour(), 1, n) == 3
    ensures NextCursor(SixteenToFour(), 3, n) == 0
  {
    hide Advance, OneEntry, SixteenToFour;
    SixteenFits(n);
    assert Reverse(8, 2) == 0 && Reverse(2, 2) == 1 && Reverse(1, 2) == 2 && Reverse(3, 2) == 3;
    AdvanceTo(8, 2, 2, n);
    AdvanceTo(2, 1, 2, n);
    AdvanceTo(1, 3, 2, n);
    AdvanceToZero(3, 2, n);
  }
}
