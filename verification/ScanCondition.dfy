/** What one call of dictScan emits, exactly and once, and the exact condition under which a call made during a
    rehash emits every key it passes over. */
module ScanCondition {
  import opened Options
  import opened Words
  import opened Reversal
  import opened Cursor
  import opened Expansion
  import opened Table
  import opened DictState
  import opened DictSteps
  import opened Scan

  // ---------------------------------------------------------------- emitted exactly when visited

  /** What a call on a well-formed dictionary emits. */
  ghost function Output<K, V>(d: Dict<K, V>, v: nat): (es: seq<Entry<K, V>>)
    requires Valid(d)
  {
    ScanShape(d);
    Emitted(d, v)
  }

  /** An entry that is emitted sits in the cursor's bucket of the smaller or only table or, during a rehash, in a
      visited bucket of the larger one. */
  lemma EmittedFrom<K, V>(d: Dict<K, V>, v: nat, e: Entry<K, V>) returns (t: Table<K, V>, j: nat, p: nat)
    requires Valid(d) && e in Output(d, v)
    ensures j < t.Size() && p < |t.buckets[j]| && t.buckets[j][p] == e
    ensures (t == Small(d) && j == Low(v, SmallExp(d)))
         || (d.Rehashing() && t == Large(d) && Low(v, LargeExp(d)) <= j && Low(j, SmallExp(d)) == Low(v, SmallExp(d)))
  {
    hide Valid, Index, Pow2, Log2, Low, Every, IsPow2;
    ScanShape(d);
    var a := SmallExp(d);
    IndexIsLow(v, Small(d).Size());
    if e in Small(d).buckets[Index(v, Small(d).Size())] {
      t, j := Small(d), Low(v, a);
      p :| 0 <= p < |t.buckets[j]| && t.buckets[j][p] == e;
    } else {
      ExponentOrder(d);
      IndexIsLow(v, Large(d).Size());
      t := Large(d);
      j, p := EveryOnly(Large(d).buckets, Low(v, LargeExp(d)), a, e);
      LowOfLow(v, a, LargeExp(d));
    }
  }

  /** Every entry that is emitted is stored. */
  lemma EmittedStored<K, V>(d: Dict<K, V>, v: nat, e: Entry<K, V>)
    requires Valid(d) && e in Output(d, v)
    ensures Lookup(d, e.key) == Some(e.val)
  {
    hide Output, Index, Low, Get, IsPow2, Apart;
    var t, j, p := EmittedFrom(d, v, e);
    Stored(d.hash, t, j, p);
    ApartLookup(d, e.key);
  }

  /** What a call emits, exactly: a key in the smaller or only table if and only if it shares the cursor's bucket
      there, and during a rehash a key in the larger table if and only if its bucket is visited. */
  lemma EmitsExactly<K, V>(d: Dict<K, V>, v: nat, k: K)
    requires Valid(d)
    ensures Emits(d, v, k) ==> Lookup(d, k).Some?
    ensures !d.Rehashing() ==>
      (Emits(d, v, k) <==> Lookup(d, k).Some? && Low(d.hash(k), SmallExp(d)) == Low(v, SmallExp(d)))
    ensures d.Rehashing() && Get(d.hash, Small(d), k).Some? ==>
      (Emits(d, v, k) <==> Low(d.hash(k), SmallExp(d)) == Low(v, SmallExp(d)))
    ensures d.Rehashing() && Get(d.hash, Large(d), k).Some? ==>
      (Emits(d, v, k) <==> Visited(v, d.hash(k), SmallExp(d), LargeExp(d)))
  {
    hide Valid, Index, Low, Log2, IsPow2, Get, Visited, Emits;
    NotInReset(d, k);
    if Get(d.hash, Small(d), k).Some? && Low(d.hash(k), SmallExp(d)) == Low(v, SmallExp(d)) {
      SmallHolds(d, v, k);
    }
    if d.Rehashing() && Get(d.hash, Large(d), k).Some? && Visited(v, d.hash(k), SmallExp(d), LargeExp(d)) {
      LargeHolds(d, v, k);
    }
    if Emits(d, v, k) {
      EmittedPlace(d, v, k);
    }
  }

  /** At rest the second table holds nothing. */
  lemma NotInReset<K, V>(d: Dict<K, V>, k: K)
    requires Valid(d)
    ensures !d.Rehashing() ==> Get(d.hash, d.t1, k) == None
  {
  }

  lemma EmittedPlace<K, V>(d: Dict<K, V>, v: nat, k: K)
    requires Valid(d) && Emits(d, v, k)
    ensures Lookup(d, k).Some?
    ensures Get(d.hash, Small(d), k).Some? ==> Low(d.hash(k), SmallExp(d)) == Low(v, SmallExp(d))
    ensures d.Rehashing() && Get(d.hash, Large(d), k).Some? ==> Visited(v, d.hash(k), SmallExp(d), LargeExp(d))
  {
    hide Index, Pow2, Log2, Low, Every, IsPow2, Get, Total, Apart;
    ScanShape(d);
    var e :| e in Emitted(d, v) && e.key == k && Lookup(d, k) == Some(e.val);
    var t, j, p := EmittedFrom(d, v, e);
    Stored(d.hash, t, j, p);
    ApartLookup(d, k);
    IndexIsLow(d.hash(k), t.Size());
    if d.Rehashing() {
      ExponentOrder(d);
      LowOfLow(d.hash(k), SmallExp(d), LargeExp(d));
    }
  }

  lemma SmallHolds<K, V>(d: Dict<K, V>, v: nat, k: K)
    requires Valid(d) && Get(d.hash, Small(d), k).Some?
    requires Low(d.hash(k), SmallExp(d)) == Low(v, SmallExp(d))
    ensures Emits(d, v, k)
  {
    hide Valid, Index, Pow2, Log2, Low, Every, IsPow2, Total;
    ScanShape(d);
    ApartLookup(d, k);
    var h, t := d.hash(k), Small(d);
    IndexIsLow(h, t.Size());
    IndexIsLow(v, t.Size());
    var i := Index(h, t.Size());
    var p := Position(t.buckets[i], k);
    var _, _, _ := Whereabouts(d, k);
    assert t.buckets[i][p] in Emitted(d, v);
  }

  lemma LargeHolds<K, V>(d: Dict<K, V>, v: nat, k: K)
    requires Valid(d) && d.Rehashing() && Get(d.hash, Large(d), k).Some?
    requires Visited(v, d.hash(k), SmallExp(d), LargeExp(d))
    ensures Emits(d, v, k)
  {
    hide Valid, Index, Pow2, Log2, Low, Every, IsPow2, Total;
    ScanShape(d);
    ExponentOrder(d);
    ApartLookup(d, k);
    var a, b, h, t := SmallExp(d), LargeExp(d), d.hash(k), Large(d);
    IndexIsLow(h, t.Size());
    IndexIsLow(v, t.Size());
    LowOfLow(h, a, b);
    LowOfLow(v, a, b);
    var i := Index(h, t.Size());
    var p := Position(t.buckets[i], k);
    var _, _, _ := Whereabouts(d, k);
    EveryHas(t.buckets, Low(v, b), i, a, p);
    assert t.buckets[i][p] in Emitted(d, v);
  }

  // ---------------------------------------------------------------- nothing twice

  lemma {:induction false} EveryDistinct<K, V>(buckets: seq<seq<Entry<K, V>>>, i: nat, a: nat)
    requires KeysApart(buckets)
    ensures Distinct(Every(buckets, i, Pow2(a)))
    decreases if i < |buckets| then |buckets| - i else 0
  {
    hide Low, Pow2, Every;
    EveryStep(buckets, i, Pow2(a));
    if i < |buckets| {
      var rest := Every(buckets, i + Pow2(a), Pow2(a));
      EveryDistinct(buckets, i + Pow2(a), a);
      forall p, q | 0 <= p < |buckets[i]| && 0 <= q < |rest| ensures buckets[i][p].key != rest[q].key {
        var j, r := EveryOnly(buckets, i + Pow2(a), a, rest[q]);
        assert buckets[j][r] == rest[q];
      }
    }
  }

  /** No call emits a key twice, so no entry either. */
  lemma EmittedOnce<K, V>(d: Dict<K, V>, v: nat)
    requires Valid(d)
    ensures Distinct(Output(d, v)) && forall e :: multiset(Output(d, v))[e] <= 1
  {
    hide Valid, Index, Low, Log2, Every, KeysApart, Get, IsPow2;
    ScanShape(d);
    ValidTables(d);
    var es := Output(d, v);
    if d.Count() > 0 {
      var c := Small(d).buckets[Index(v, Small(d).Size())];
      ChainDistinct(d.hash, Small(d), Index(v, Small(d).Size()));
      if d.Rehashing() {
        ExponentOrder(d);
        TableKeysApart(d.hash, Large(d));
        var rest := Every(Large(d).buckets, Index(v, Large(d).Size()), Small(d).Size());
        EveryDistinct(Large(d).buckets, Index(v, Large(d).Size()), SmallExp(d));
        forall p, q | 0 <= p < |c| && 0 <= q < |rest| ensures c[p].key != rest[q].key {
          Stored(d.hash, Small(d), Index(v, Small(d).Size()), p);
          var j, r := EveryOnly(Large(d).buckets, Index(v, Large(d).Size()), SmallExp(d), rest[q]);
          Stored(d.hash, Large(d), j, r);
          ApartLookup(d, c[p].key);
        }
      }
    }
    forall e ensures multiset(es)[e] <= 1 { DistinctOnce(es, e); }
  }

  lemma ChainDistinct<K, V>(hash: K -> nat, t: Table<K, V>, i: nat)
    requires ValidTable(hash, t) && i < t.Size()
    ensures Distinct(t.buckets[i])
  {
    assert ChainOk(hash, t.buckets[i], i, t.Size());
  }

  lemma {:induction false} DistinctOnce<K, V>(es: seq<Entry<K, V>>, e: Entry<K, V>)
    requires Distinct(es)
    ensures multiset(es)[e] <= 1
  {
    if es != [] {
      DistinctOnce(es[1..], e);
      assert es == [es[0]] + es[1..];
      assert es[0] !in es[1..];
    }
  }

  // ---------------------------------------------------------------- the exact condition

  function HashTo(h: nat): (f: int -> nat) {
    (k: int) => h
  }

  function EmptyOf(e: nat): (t: Table<int, int>) {
    Table(Empties(Pow2(e)), 0)
  }

  /** A table of 2^b buckets whose only entry, (0, 0), hashes to `h`. */
  function OneOf(b: nat, h: nat): (t: Table<int, int>)
  {
    Insert(HashTo(h), EmptyOf(b), Entry(0, 0))
  }

  /** That table about to be rehashed into 2^a buckets. */
  function Rebuilding(a: nat, b: nat, h: nat): (d: Dict<int, int>) {
    Dict(HashTo(h), OneOf(b, h), EmptyOf(a), 0, 0)
  }

  lemma EmptyValid(e: nat, h: nat)
    ensures EmptyOf(e).Size() == Pow2(e) && IsPow2(Pow2(e)) && Log2(Pow2(e)) == e
    ensures ValidTable(HashTo(h), EmptyOf(e)) && forall k :: Get(HashTo(h), EmptyOf(e), k) == None
  {
    hide ValidTable, Get, Pow2, Log2, IsPow2, HashTo;
    Log2OfPow2(e);
    EmptyBuckets(HashTo(h), EmptyOf(e).buckets);
  }

  lemma RebuildingValid(a: nat, b: nat, h: nat)
    requires a < b
    ensures var d := Rebuilding(a, b, h);
      && Valid(d) && d.Rehashing() && SmallExp(d) == a && LargeExp(d) == b
      && Get(d.hash, Large(d), 0).Some? && Lookup(d, 0).Some? && d.hash(0) == h
  {
    hide ValidTable, Get, Index, Pow2, Log2, IsPow2, EmptyOf, Apart;
    EmptyValid(a, h);
    EmptyValid(b, h);
    Pow2Monotone(a, b);
    InsertEffect(HashTo(h), EmptyOf(b), Entry(0, 0));
    InsertSize(HashTo(h), EmptyOf(b), Entry(0, 0));
    var d := Rebuilding(a, b, h);
    assert d.t1 == EmptyOf(a) && d.hash == HashTo(h);
    forall k: int ensures Get(d.hash, d.t0, k) == None || Get(d.hash, d.t1, k) == None {
      assert Get(HashTo(h), EmptyOf(a), k) == None;
    }
    ApartFromLookups(d);
  }

  /** The key `k`, if it is stored in a dictionary being rehashed between tables of 2^a and 2^b buckets and is
      passed over by the call with cursor `v`, is emitted by it. */
  ghost predicate Covered(d: Dict<int, int>, k: int, v: nat, a: nat, b: nat, n: nat)
    requires a <= n
  {
    Valid(d) && d.Rehashing() && SmallExp(d) == a && LargeExp(d) == b && Lookup(d, k).Some?
      && PassedOver(v, d.hash(k), a, n)
    ==> Emits(d, v, k)
  }

  /** The exact condition: the call with cursor `v` made while tables of 2^a and 2^b buckets are rehashed emits
      every key it passes over, in every such dictionary, if and only if v & (m0 ^ m1) has contiguous low
      ones. */
  lemma CallCondition(v: nat, a: nat, b: nat, n: nat)
    requires a <= b <= n && v < Pow2(n)
    ensures (forall d: Dict<int, int>, k: int :: Covered(d, k, v, a, b, n)) <==> LowOnes(FieldOf(v, a, b))
  {
    hide Pow2, LowOnes, FieldOf, PassedOver, Emits, Visited, Rebuilding, Valid, Lookup, SmallExp, LargeExp, Get;
    if LowOnes(FieldOf(v, a, b)) {
      forall d: Dict<int, int>, k: int ensures Covered(d, k, v, a, b, n) {
        if Valid(d) && d.Rehashing() && SmallExp(d) == a && LargeExp(d) == b && Lookup(d, k).Some?
           && PassedOver(v, d.hash(k), a, n) {
          FitsWithin(d, n);
          CallCovers(d, v, k, n);
        }
      }
    } else {
      var h := SomethingMissed(v, a, b, n);
      OrderedSizes(v, a, b);
      RebuildingValid(a, b, h);
      EmitsExactly(Rebuilding(a, b, h), v, 0);
      assert !Covered(Rebuilding(a, b, h), 0, v, a, b, n);
    }
  }

  lemma FitsWithin<K, V>(d: Dict<K, V>, n: nat)
    requires d.Rehashing() && SmallExp(d) <= n && LargeExp(d) <= n
    ensures Fits(d, n)
  {
  }

  /** The condition can only fail when the sizes differ. */
  lemma OrderedSizes(v: nat, a: nat, b: nat)
    requires a <= b && !LowOnes(FieldOf(v, a, b))
    ensures a < b
  {
    hide LowOnes, FieldOf;
    if a == b { ConditionHolds(v, a, b); }
  }
}
