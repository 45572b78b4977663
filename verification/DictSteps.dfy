/**
 The elementary changes that the operations of dict.c make to a dictionary, each with the
 invariant it keeps and its effect on the map.
 */
module DictSteps {
  import opened Options
  import opened Table
  import opened DictState

  // ---------------------------------------------------------------- rehashing

  /** Push the entries of a chain, in order, onto the chains of a table. */
  function Moved<K, V>(hash: K -> nat, t: Table<K, V>, c: seq<Entry<K, V>>): (r: Table<K, V>)
    requires t.Size() > 0
    ensures r.Size() == t.Size()
    decreases |c|
  {
    if c == [] then t else Moved(hash, Insert(hash, t, c[0]), c[1..])
  }

  lemma {:induction false} MovedEffect<K, V>(hash: K -> nat, t: Table<K, V>, c: seq<Entry<K, V>>)
    requires ValidTable(hash, t) && t.Size() > 0
    requires Distinct(c)
    requires forall p :: 0 <= p < |c| ==> Get(hash, t, c[p].key) == None
    ensures ValidTable(hash, Moved(hash, t, c))
    ensures Moved(hash, t, c).used == t.used + |c|
    ensures forall k :: Get(hash, Moved(hash, t, c), k) ==
                        if Position(c, k) < |c| then Some(c[Position(c, k)].val) else Get(hash, t, k)
    decreases |c|
  {
    hide ValidTable, Get;
    if c != [] {
      InsertEffect(hash, t, c[0]);
      assert forall p :: 0 <= p < |c[1..]| ==> c[1..][p] == c[p + 1];
      MovedEffect(hash, Insert(hash, t, c[0]), c[1..]);
      forall k
        ensures Get(hash, Moved(hash, t, c), k) ==
                if Position(c, k) < |c| then Some(c[Position(c, k)].val) else Get(hash, t, k)
      {
        assert c[0].key == k ==> Position(c[1..], k) == |c[1..]|;
      }
    }
  }

  /** Move bucket `rehashidx` of the old table to the new one, and go on to the next bucket. */
  function StepBucket<K, V>(d: Dict<K, V>): (r: Dict<K, V>)
    requires 0 <= d.rehashidx < d.t0.Size() && d.t1.Size() > 0
    requires |d.t0.buckets[d.rehashidx]| <= d.t0.used
  {
    var c := d.t0.buckets[d.rehashidx];
    d.(t0 := Table(d.t0.buckets[d.rehashidx := []], d.t0.used - |c|),
       t1 := Moved(d.hash, d.t1, c),
       rehashidx := d.rehashidx + 1)
  }

  /** What is left in the old table once bucket `i` is emptied. */
  lemma EmptyBucket<K, V>(hash: K -> nat, t: Table<K, V>, i: nat)
    requires ValidTable(hash, t) && i < t.Size()
    ensures |t.buckets[i]| <= t.used
    ensures ValidTable(hash, Table(t.buckets[i := []], t.used - |t.buckets[i]|))
    ensures forall k :: Get(hash, Table(t.buckets[i := []], t.used - |t.buckets[i]|), k) ==
                        if Position(t.buckets[i], k) < |t.buckets[i]| then None else Get(hash, t, k)
  {
    hide Index, Total, IsPow2;
    ReplaceChain(hash, t, i, []);
    forall k
      ensures Get(hash, Table(t.buckets[i := []], t.used - |t.buckets[i]|), k) ==
              if Position(t.buckets[i], k) < |t.buckets[i]| then None else Get(hash, t, k)
    {
      if Position(t.buckets[i], k) < |t.buckets[i]| {
        Stored(hash, t, i, Position(t.buckets[i], k));
      }
    }
  }

  /** Moving a bucket keeps the invariant and the map. */
  lemma StepBucketEffect<K, V>(d: Dict<K, V>)
    requires Valid(d) && d.Rehashing() && d.rehashidx < d.t0.Size()
    ensures |d.t0.buckets[d.rehashidx]| <= d.t0.used
    ensures Valid(StepBucket(d))
    ensures forall k :: Lookup(StepBucket(d), k) == Lookup(d, k)
  {
    hide Get, Index, Moved, ValidTable;
    var i := d.rehashidx;
    var c := d.t0.buckets[i];
    ValidTables(d);
    EmptyBucket(d.hash, d.t0, i);
    assert Distinct(c) && forall p :: 0 <= p < |c| ==> Get(d.hash, d.t0, c[p].key) == Some(c[p].val) by {
      forall p | 0 <= p < |c|
        ensures Get(d.hash, d.t0, c[p].key) == Some(c[p].val)
      {
        Stored(d.hash, d.t0, i, p);
      }
      TableKeysApart(d.hash, d.t0);
    }
    assert forall p :: 0 <= p < |c| ==> d.t0.buckets[i][p] == c[p];
    MovedEffect(d.hash, d.t1, c);
    var d' := StepBucket(d);
    forall k
      ensures Lookup(d', k) == Lookup(d, k)
      ensures Get(d'.hash, d'.t0, k) == None || Get(d'.hash, d'.t1, k) == None
    {
      ApartLookup(d, k);
    }
    ApartFromLookups(d');
  }

  /** The old table is empty: drop it. */
  function Finish<K, V>(d: Dict<K, V>): (r: Dict<K, V>) {
    d.(t0 := d.t1, t1 := Reset(), rehashidx := -1)
  }

  lemma FinishEffect<K, V>(d: Dict<K, V>)
    requires Valid(d) && d.Rehashing() && d.t0.used == 0
    ensures Valid(Finish(d))
    ensures forall k :: Lookup(Finish(d), k) == Lookup(d, k)
  {
    TotalZero(d.t0.buckets);
  }

  /** While something is left in the old table, `rehashidx` is a bucket of it. */
  lemma MoreToRehash<K, V>(d: Dict<K, V>)
    requires Valid(d) && d.Rehashing() && d.t0.used != 0
    ensures d.rehashidx < d.t0.Size()
    ensures exists i :: d.rehashidx <= i < d.t0.Size() && d.t0.buckets[i] != []
  {
    TotalZero(d.t0.buckets);
  }

  // ---------------------------------------------------------------- resizing

  /** dictExpand once the size is accepted: a first table, or the target of a rehash. */
  function Install<K, V>(d: Dict<K, V>, buckets: seq<seq<Entry<K, V>>>): (r: Dict<K, V>) {
    if d.t0.Size() == 0 then d.(t0 := Table(buckets, 0))
    else d.(t1 := Table(buckets, 0), rehashidx := 0)
  }

  lemma InstallEffect<K, V>(d: Dict<K, V>, buckets: seq<seq<Entry<K, V>>>)
    requires Valid(d) && !d.Rehashing()
    requires |buckets| > 0 && IsPow2(|buckets|) && forall i :: 0 <= i < |buckets| ==> buckets[i] == []
    ensures Valid(Install(d, buckets))
    ensures forall k :: Lookup(Install(d, buckets), k) == Lookup(d, k)
  {
    hide Index, IsPow2, Total;
    EmptyBuckets(d.hash, buckets);
    TotalZero(d.t0.buckets);
  }

  // ---------------------------------------------------------------- entries

  /** Where dictAddRaw puts a new entry. */
  function AddEntry<K, V>(d: Dict<K, V>, e: Entry<K, V>): (r: Dict<K, V>)
    requires d.t0.Size() > 0 && (d.Rehashing() ==> d.t1.Size() > 0)
  {
    if d.Rehashing() then d.(t1 := Insert(d.hash, d.t1, e)) else d.(t0 := Insert(d.hash, d.t0, e))
  }

  lemma AddEntryEffect<K, V>(d: Dict<K, V>, e: Entry<K, V>)
    requires Valid(d) && d.t0.Size() > 0 && Lookup(d, e.key) == None
    ensures Valid(AddEntry(d, e))
    ensures forall k :: Lookup(AddEntry(d, e), k) == if k == e.key then Some(e.val) else Lookup(d, k)
  {
    hide Index, ValidTable, Get, Insert;
    ValidTables(d);
    var d' := AddEntry(d, e);
    if d.Rehashing() {
      InsertEffect(d.hash, d.t1, e);
      forall k
        ensures Get(d'.hash, d'.t0, k) == None || Get(d'.hash, d'.t1, k) == None
        ensures Lookup(d', k) == if k == e.key then Some(e.val) else Lookup(d, k)
      {
        ApartLookup(d, k);
      }
      ApartFromLookups(d');
      InsertSize(d.hash, d.t1, e);
    } else {
      InsertEffect(d.hash, d.t0, e);
    }
  }

  lemma InsertSize<K, V>(hash: K -> nat, t: Table<K, V>, e: Entry<K, V>)
    requires t.Size() > 0
    ensures Insert(hash, t, e).Size() == t.Size()
  {
  }

  /** Overwrite the value under a key that is present. */
  function Overwrite<K(==), V>(d: Dict<K, V>, k: K, v: V): (r: Dict<K, V>)
    requires Lookup(d, k).Some?
  {
    if Get(d.hash, d.t0, k).Some? then d.(t0 := SetValue(d.hash, d.t0, k, v))
    else d.(t1 := SetValue(d.hash, d.t1, k, v))
  }

  lemma SetValueShape<K, V>(hash: K -> nat, t: Table<K, V>, k: K, v: V)
    requires t.Size() > 0
    ensures SetValue(hash, t, k, v).Size() == t.Size()
    ensures forall i :: 0 <= i < t.Size() && t.buckets[i] == [] ==> SetValue(hash, t, k, v).buckets[i] == []
  {
  }

  lemma OverwriteEffect<K, V>(d: Dict<K, V>, k: K, v: V)
    requires Valid(d) && Lookup(d, k).Some?
    ensures Valid(Overwrite(d, k, v))
    ensures forall x :: Lookup(Overwrite(d, k, v), x) == if x == k then Some(v) else Lookup(d, x)
  {
    hide Index, ValidTable, SetValue;
    ValidTables(d);
    var d' := Overwrite(d, k, v);
    if Get(d.hash, d.t0, k).Some? {
      SetValueEffect(d.hash, d.t0, k, v);
      SetValueShape(d.hash, d.t0, k, v);
    } else {
      SetValueEffect(d.hash, d.t1, k, v);
      SetValueShape(d.hash, d.t1, k, v);
    }
    hide Get;
    forall x
      ensures Get(d'.hash, d'.t0, x) == None || Get(d'.hash, d'.t1, x) == None
      ensures Lookup(d', x) == if x == k then Some(v) else Lookup(d, x)
    {
      ApartLookup(d, x);
    }
    ApartFromLookups(d');
  }

  /** dictGenericDelete on a key that is present. */
  function Unlink<K(==), V>(d: Dict<K, V>, k: K): (r: Dict<K, V>)
    requires Lookup(d, k).Some?
    requires if Get(d.hash, d.t0, k).Some? then d.t0.used > 0 else d.t1.used > 0
  {
    if Get(d.hash, d.t0, k).Some? then d.(t0 := Remove(d.hash, d.t0, k))
    else d.(t1 := Remove(d.hash, d.t1, k))
  }

  lemma RemoveShape<K, V>(hash: K -> nat, t: Table<K, V>, k: K)
    requires t.Size() > 0 && t.used > 0
    ensures Remove(hash, t, k).Size() == t.Size()
    ensures forall i :: 0 <= i < t.Size() && t.buckets[i] == [] ==> Remove(hash, t, k).buckets[i] == []
  {
  }

  lemma UnlinkEffect<K, V>(d: Dict<K, V>, k: K)
    requires Valid(d) && Lookup(d, k).Some?
    ensures if Get(d.hash, d.t0, k).Some? then d.t0.used > 0 else d.t1.used > 0
    ensures Valid(Unlink(d, k))
    ensures forall x :: Lookup(Unlink(d, k), x) == if x == k then None else Lookup(d, x)
  {
    hide Index, ValidTable, Remove;
    ValidTables(d);
    if Get(d.hash, d.t0, k).Some? {
      RemoveEffect(d.hash, d.t0, k);
      RemoveShape(d.hash, d.t0, k);
    } else {
      RemoveEffect(d.hash, d.t1, k);
      RemoveShape(d.hash, d.t1, k);
    }
    hide Get;
    var d' := Unlink(d, k);
    forall x
      ensures Get(d'.hash, d'.t0, x) == None || Get(d'.hash, d'.t1, x) == None
      ensures Lookup(d', x) == if x == k then None else Lookup(d, x)
    {
      ApartLookup(d, x);
      ApartLookup(d, k);
    }
    ApartFromLookups(d');
  }

  // ---------------------------------------------------------------- operations as relations

  /** The size _dictNextPower picks: the least power of two that is at least 4 and at least `size`. */
  ghost predicate IsNextPower(size: nat, r: nat) {
    IsPow2(r) && 4 <= r && size <= r && (r == 4 || r / 2 < size)
  }

  function Empties<K, V>(size: nat): (buckets: seq<seq<Entry<K, V>>>) {
    seq(size, _ => [])
  }

  /** A resize to `size` buckets; none for size 0 or during a rehash. */
  ghost function ResizedTo<K, V>(d: Dict<K, V>, size: nat): (r: Dict<K, V>) {
    if size > 0 && IsPow2(size) && !d.Rehashing() then Install(d, Empties(size)) else d
  }

  /** Nothing happened, or dictExpand installed a table of empty buckets. */
  ghost predicate Resized<K, V>(d: Dict<K, V>, d': Dict<K, V>) {
    exists size: nat :: d' == ResizedTo(d, size)
  }

  lemma ResizedEffect<K, V>(d: Dict<K, V>, size: nat)
    requires Valid(d)
    ensures Valid(ResizedTo(d, size)) && forall k :: Lookup(ResizedTo(d, size), k) == Lookup(d, k)
  {
    hide Valid, Lookup, Install, IsPow2;
    if size > 0 && IsPow2(size) && !d.Rehashing() {
      InstallEffect(d, Empties(size));
    }
  }

  /** dictAdd when no rehash step may run: perhaps a resize, then a new entry if the key is new. */
  ghost predicate Added<K, V>(d: Dict<K, V>, d': Dict<K, V>, e: Entry<K, V>) {
    exists size: nat :: AddedVia(d, d', e, size)
  }

  ghost predicate AddedVia<K, V>(d: Dict<K, V>, d': Dict<K, V>, e: Entry<K, V>, size: nat) {
    var mid := ResizedTo(d, size);
    && mid.t0.Size() > 0 && (mid.Rehashing() ==> mid.t1.Size() > 0)
    && d' == if Lookup(d, e.key).Some? then mid else AddEntry(mid, e)
  }

  /** dictReplace when no rehash step may run. */
  ghost predicate Replaced<K, V>(d: Dict<K, V>, d': Dict<K, V>, e: Entry<K, V>) {
    exists size: nat :: ReplacedVia(d, d', e, size)
  }

  ghost predicate ReplacedVia<K, V>(d: Dict<K, V>, d': Dict<K, V>, e: Entry<K, V>, size: nat) {
    if Lookup(d, e.key).Some? then
      var mid := ResizedTo(d, size);
      Lookup(mid, e.key).Some? && d' == Overwrite(mid, e.key, e.val)
    else
      AddedVia(d, d', e, size)
  }

  /** dictDelete when no rehash step may run. */
  ghost predicate Deleted<K, V>(d: Dict<K, V>, d': Dict<K, V>, k: K) {
    if Lookup(d, k).Some? then
      (if Get(d.hash, d.t0, k).Some? then d.t0.used > 0 else d.t1.used > 0) && d' == Unlink(d, k)
    else d' == d
  }

  // ---------------------------------------------------------------- effects on the map

  lemma SameContents<K, V>(d: Dict<K, V>, d': Dict<K, V>)
    requires Valid(d) && Valid(d')
    requires forall k :: Lookup(d', k) == Lookup(d, k)
    ensures Contents(d') == Contents(d)
  {
    hide *;
    ContentsAgree(d);
    ContentsAre(d', Contents(d));
  }

  /** The facts of the invariant that the loops need. */
  lemma Shape<K, V>(d: Dict<K, V>)
    requires Valid(d)
    ensures d.rehashidx >= -1
    ensures d.Rehashing() ==> 0 <= d.rehashidx <= d.t0.Size() && d.t0.Size() > 0 && d.t1.Size() > 0
    ensures d.Rehashing() && d.t0.used > 0 ==> d.rehashidx < d.t0.Size()
    ensures !d.Rehashing() ==> d.t1 == Reset()
    ensures d.Rehashing() && d.rehashidx < d.t0.Size() ==> |d.t0.buckets[d.rehashidx]| <= d.t0.used
  {
    hide Index, Total, IsPow2;
    if d.Rehashing() && d.t0.used > 0 {
      MoreToRehash(d);
    }
    if d.Rehashing() && d.rehashidx < d.t0.Size() {
      EmptyBucket(d.hash, d.t0, d.rehashidx);
    }
  }

  lemma StepBucketKeepsMap<K, V>(d: Dict<K, V>)
    requires Valid(d) && d.Rehashing() && d.rehashidx < d.t0.Size()
    ensures d.t1.Size() > 0 && |d.t0.buckets[d.rehashidx]| <= d.t0.used && d.rehashidx >= 0
    ensures Valid(StepBucket(d)) && Contents(StepBucket(d)) == Contents(d)
  {
    hide Valid, Lookup, Contents;
    Shape(d);
    StepBucketEffect(d);
    SameContents(d, StepBucket(d));
  }

  lemma FinishKeepsMap<K, V>(d: Dict<K, V>)
    requires Valid(d) && d.Rehashing() && d.t0.used == 0
    ensures Valid(Finish(d)) && Contents(Finish(d)) == Contents(d)
  {
    hide Valid, Lookup, Contents;
    FinishEffect(d);
    SameContents(d, Finish(d));
  }

  lemma ResizedKeepsMap<K, V>(d: Dict<K, V>, size: nat)
    requires Valid(d)
    ensures Valid(ResizedTo(d, size)) && Contents(ResizedTo(d, size)) == Contents(d)
  {
    hide Valid, Lookup, Contents, ResizedTo;
    ResizedEffect(d, size);
    SameContents(d, ResizedTo(d, size));
  }

  lemma AddEntryAddsToMap<K, V>(d: Dict<K, V>, e: Entry<K, V>)
    requires Valid(d) && d.t0.Size() > 0 && Lookup(d, e.key) == None
    ensures (d.Rehashing() ==> d.t1.Size() > 0)
    ensures Valid(AddEntry(d, e)) && Contents(AddEntry(d, e)) == Contents(d)[e.key := e.val]
  {
    hide Valid, Lookup, Contents, AddEntry;
    Shape(d);
    AddEntryEffect(d, e);
    ContentsAgree(d);
    ContentsAre(AddEntry(d, e), Contents(d)[e.key := e.val]);
  }

  lemma OverwriteChangesMap<K, V>(d: Dict<K, V>, k: K, v: V)
    requires Valid(d) && Lookup(d, k).Some?
    ensures Valid(Overwrite(d, k, v)) && Contents(Overwrite(d, k, v)) == Contents(d)[k := v]
  {
    hide Valid, Lookup, Contents, Overwrite;
    OverwriteEffect(d, k, v);
    ContentsAgree(d);
    ContentsAre(Overwrite(d, k, v), Contents(d)[k := v]);
  }

  lemma UnlinkRemovesFromMap<K, V>(d: Dict<K, V>, k: K)
    requires Valid(d) && Lookup(d, k).Some?
    ensures if Get(d.hash, d.t0, k).Some? then d.t0.used > 0 else d.t1.used > 0
    ensures Valid(Unlink(d, k)) && Contents(Unlink(d, k)) == Contents(d) - {k}
  {
    hide Valid, Lookup, Contents, Unlink, Get;
    UnlinkEffect(d, k);
    ContentsAgree(d);
    ContentsAre(Unlink(d, k), Contents(d) - {k});
  }

  lemma MapHas<K, V>(d: Dict<K, V>, k: K)
    requires Valid(d)
    ensures k in Contents(d) <==> Lookup(d, k).Some?
    ensures k in Contents(d) ==> Contents(d)[k] == Lookup(d, k).value
  {
    hide Valid, Lookup, Contents;
    ContentsAgree(d);
    assert MapGet(Contents(d), k) == Lookup(d, k);
  }
}
