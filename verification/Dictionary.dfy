/**
 The operations of dict.c, updating the dictionary in place. Each is proved to keep the
 invariant and to act on the denoted map the way its documentation says.
 */
module Dictionary {
  import opened Options
  import opened Words
  import opened Table
  import opened DictState
  import opened DictSteps

  const DICT_HT_INITIAL_SIZE: nat := 4
  const DICT_FORCE_RESIZE_RATIO: nat := 5

  /** _dictNextPower */
  method NextPower(size: nat) returns (r: nat)
    ensures IsNextPower(size, r)
    ensures IsPow2(r) && 4 <= r && size <= r && forall p :: IsPow2(p) && 4 <= p && size <= p ==> r <= p
  {
    r := DICT_HT_INITIAL_SIZE;
    Log2OfPow2(2);
    ghost var k := 2;
    while r < size
      invariant r == Pow2(k) && k >= 2 && r >= 4
      invariant r == 4 || r / 2 < size
      decreases size - r
    {
      r := r * 2;
      k := k + 1;
    }
    Log2OfPow2(k);
    forall p | IsPow2(p) && 4 <= p && size <= p ensures r <= p {
      LeastPower(size, r, p);
    }
  }

  lemma LeastPower(size: nat, r: nat, p: nat)
    requires IsNextPower(size, r) && IsPow2(p) && 4 <= p && size <= p
    ensures r <= p
  {
    hide Pow2, Log2;
    if Log2(p) < Log2(r) {
      Pow2Monotone(Log2(p), Log2(r) - 1);
      Pow2Step(Log2(r));
    } else if Log2(r) < Log2(p) {
      Pow2Monotone(Log2(r), Log2(p));
    }
  }

  /** The chain walk shared by the lookups. */
  method Search<K(==), V>(c: seq<Entry<K, V>>, key: K) returns (p: nat)
    ensures p == Position(c, key)
  {
    p := 0;
    while p < |c| && c[p].key != key
      invariant p <= |c|
      invariant forall q :: 0 <= q < p ==> c[q].key != key
    {
      p := p + 1;
    }
  }

  class Dictionary<K(==), V> {
    const hash: K -> nat
    var ht0: Table<K, V>
    var ht1: Table<K, V>
    var rehashidx: int
    var iterators: nat
    /** The global dict_can_resize. */
    var canResize: bool

    ghost function State(): (d: Dict<K, V>)
      reads this
    {
      Dict(hash, ht0, ht1, rehashidx, iterators)
    }

    ghost function Map(): (m: map<K, V>)
      reads this
    {
      Contents(State())
    }

    constructor (hash: K -> nat)
      ensures Valid(State()) && Map() == map[]
      ensures !State().Rehashing() && iterators == 0 && this.hash == hash
    {
      this.hash := hash;
      ht0, ht1 := Reset(), Reset();
      rehashidx := -1;
      iterators := 0;
      canResize := true;
    }

    /** dictExpand */
    method Expand(size: nat) returns (ok: bool)
      requires Valid(State())
      modifies this`ht0, this`ht1, this`rehashidx
      ensures Valid(State()) && Map() == old(Map())
      ensures Resized(old(State()), State())
      ensures ok <==> !old(State()).Rehashing() && old(ht0.used) <= size && !IsNextPower(size, old(ht0.Size()))
      ensures ok ==> IsNextPower(size, if old(ht0.Size()) == 0 then ht0.Size() else ht1.Size())
      ensures ok ==> (State().Rehashing() <==> old(ht0.Size()) > 0)
      ensures !ok ==> State() == old(State())
    {
      hide Valid, Contents, IsPow2;
      ghost var d := State();
      assert d == ResizedTo(d, 0);
      Shape(d);
      var realsize := NextPower(size);
      NextPowerUnique(size, realsize, ht0.Size());
      if rehashidx != -1 || ht0.used > size {
        return false;
      }
      if realsize == ht0.Size() {
        return false;
      }
      ResizedKeepsMap(d, realsize);
      var buckets: seq<seq<Entry<K, V>>> := Empties(realsize);
      if ht0.Size() == 0 {
        ht0 := Table(buckets, 0);
      } else {
        ht1 := Table(buckets, 0);
        rehashidx := 0;
      }
      assert State() == ResizedTo(d, realsize);
      return true;
    }

    /** dictResize: shrink to the least size that holds the entries. */
    method Resize() returns (ok: bool)
      requires Valid(State())
      modifies this`ht0, this`ht1, this`rehashidx
      ensures Valid(State()) && Map() == old(Map())
      ensures Resized(old(State()), State())
      ensures ok <==> canResize && !old(State()).Rehashing() && !IsNextPower(old(ht0.used), old(ht0.Size()))
      ensures !ok ==> State() == old(State())
      ensures ok && old(ht0.Size()) > 0 ==> State().Rehashing() && IsNextPower(old(ht0.used), ht1.Size())
      ensures ok && old(ht0.Size()) == 0 ==> !State().Rehashing() && ht0.Size() == 4
    {
      hide Valid, Contents, IsPow2, IsNextPower;
      assert State() == ResizedTo(State(), 0);
      if !canResize || rehashidx != -1 {
        return false;
      }
      var minimal := ht0.used;
      if minimal < DICT_HT_INITIAL_SIZE {
        minimal := DICT_HT_INITIAL_SIZE;
      }
      if ht0.used <= 4 {
        SmallSizes(ht0.used);
        SmallSizes(4);
      }
      if ht0.Size() == 0 { EmptyUsed(State()); }
      ok := Expand(minimal);
    }

    /** The inner loop of dictRehash: push the entries of a chain onto the new table. */
    method MoveChain(chain: seq<Entry<K, V>>)
      requires ht1.Size() > 0 && |chain| <= ht0.used
      modifies this`ht0, this`ht1
      ensures ht1 == Moved(hash, old(ht1), chain)
      ensures ht0 == old(ht0).(used := old(ht0.used) - |chain|)
    {
      var de := chain;
      while de != []
        invariant ht1.Size() > 0 && |de| <= |chain|
        invariant Moved(hash, ht1, de) == Moved(hash, old(ht1), chain)
        invariant ht0 == old(ht0).(used := old(ht0.used) - |chain| + |de|)
      {
        ht1 := Insert(hash, ht1, de[0]);
        ht0 := ht0.(used := ht0.used - 1);
        de := de[1..];
      }
    }

    /** Advance `rehashidx` by one bucket, moving its entries. */
    method MoveBucket()
      requires Valid(State()) && rehashidx != -1 && rehashidx < ht0.Size()
      modifies this`ht0, this`ht1, this`rehashidx
      ensures Valid(State()) && Map() == old(Map())
      ensures 0 <= old(rehashidx) && |old(ht0.buckets[rehashidx])| <= old(ht0.used) && old(ht1.Size()) > 0
      ensures State() == StepBucket(old(State()))
    {
      hide Valid, Contents;
      StepBucketKeepsMap(State());
      MoveChain(ht0.buckets[rehashidx]);
      ht0 := ht0.(buckets := ht0.buckets[rehashidx := []]);
      rehashidx := rehashidx + 1;
    }

    /** The inner loop of dictRehash that passes empty buckets, at most `budget` of them. */
    method SkipEmptyBuckets(budget: int) returns (left: int)
      requires Valid(State()) && State().Rehashing() && ht0.used != 0 && budget > 0
      modifies this`rehashidx
      ensures Valid(State()) && State().Rehashing() && Map() == old(Map())
      ensures 0 <= left <= budget && rehashidx == old(rehashidx) + budget - left < ht0.Size() && 0 <= old(rehashidx)
      ensures forall i :: old(rehashidx) <= i < rehashidx ==> ht0.buckets[i] == []
      ensures left > 0 ==> ht0.buckets[rehashidx] != []
    {
      hide Valid, Contents;
      ghost var d := State();
      Shape(State());
      left := budget;
      while ht0.buckets[rehashidx] == []
        invariant Valid(State()) && State().Rehashing() && Contents(State()) == Contents(d)
        invariant ht0.used != 0 && 0 <= d.rehashidx <= rehashidx < ht0.Size()
        invariant left > 0 && rehashidx == d.rehashidx + budget - left
        invariant forall i :: d.rehashidx <= i < rehashidx ==> ht0.buckets[i] == []
        decreases ht0.Size() - rehashidx
      {
        SkipEmpty(State());
        rehashidx := rehashidx + 1;
        Shape(State());
        left := left - 1;
        if left == 0 {
          return;
        }
      }
    }

    /** dictRehash: up to `n` buckets, looking at no more than 10n empty ones. */
    method Rehash(n: nat) returns (more: bool)
      requires Valid(State())
      modifies this`ht0, this`ht1, this`rehashidx
      ensures Valid(State()) && Map() == old(Map())
      ensures more <==> State().Rehashing()
      ensures !old(State()).Rehashing() ==> State() == old(State())
      ensures more ==> Ahead(old(State()), State()) && ht0.used > 0 && (n > 0 ==> rehashidx > old(rehashidx))
      ensures old(State()).Rehashing() && !more ==> ht0.Size() == old(ht1.Size())
      ensures more ==> Paced(old(ht0.buckets), old(rehashidx), rehashidx, n)
      ensures old(State()).Rehashing() && !more ==>
        0 <= old(rehashidx) <= |old(ht0.buckets)| && Busy(old(ht0.buckets), old(rehashidx), |old(ht0.buckets)|) <= n
    {
      hide Valid, Contents, Moved, Busy, Passed, Paced;
      ghost var d := State();
      var emptyVisits: int := n * 10;
      if rehashidx == -1 {
        return false;
      }
      Shape(d);
      ghost var b := d.t0.buckets;
      PassedNone(b, rehashidx);
      var todo := n;
      while todo > 0 && ht0.used != 0
        invariant Valid(State()) && State().Rehashing() && Contents(State()) == Contents(d)
        invariant Ahead(d, State())
        invariant 0 <= todo <= n && (todo < n ==> rehashidx > d.rehashidx)
        invariant emptyVisits >= 0 && (n > 0 ==> emptyVisits > 0)
        invariant Passed(b, d.rehashidx, rehashidx, n - todo, 10 * n - emptyVisits)
      {
        todo := todo - 1;
        Shape(State());
        assert ht0.Size() > rehashidx;
        ghost var from := rehashidx;
        emptyVisits := SkipEmptyBuckets(emptyVisits);
        PassedEmpty(b, d.rehashidx, from, rehashidx, n - todo - 1, 10 * n - emptyVisits - (rehashidx - from));
        if emptyVisits == 0 {
          PassedPaced(b, d.rehashidx, rehashidx, n - todo - 1, 10 * n, n);
          return true;
        }
        PassedBusy(b, d.rehashidx, rehashidx, n - todo - 1, 10 * n - emptyVisits);
        MoveBucket();
      }
      if ht0.used == 0 {
        NothingAhead(State());
        PassedRest(b, d.rehashidx, rehashidx, n - todo, 10 * n - emptyVisits);
        FinishKeepsMap(State());
        ht0 := ht1;
        ht1 := Reset();
        rehashidx := -1;
        more := false;
      } else {
        PassedPaced(b, d.rehashidx, rehashidx, n, 10 * n - emptyVisits, n);
        more := true;
      }
    }

    /** _dictRehashStep: one step, unless a safe iterator is running. */
    method RehashStep()
      requires Valid(State())
      modifies this`ht0, this`ht1, this`rehashidx
      ensures Valid(State()) && Map() == old(Map())
      ensures iterators > 0 ==> State() == old(State())
      ensures !old(State()).Rehashing() ==> State() == old(State())
      ensures iterators == 0 && State().Rehashing() ==>
        old(State()).Rehashing() && rehashidx > old(rehashidx) && Paced(old(ht0.buckets), old(rehashidx), rehashidx, 1)
      ensures old(State()).Rehashing() && !State().Rehashing() ==>
        0 <= old(rehashidx) <= |old(ht0.buckets)| && Busy(old(ht0.buckets), old(rehashidx), |old(ht0.buckets)|) <= 1
    {
      hide Valid, Contents;
      if iterators == 0 {
        var _ := Rehash(1);
      }
    }

    /** The search through the chains of both tables that lookups, insertions and deletions share:
        the table (2 if there is none), bucket and position of `key`. */
    method Locate(key: K) returns (table: nat, idx: nat, p: nat)
      requires Valid(State()) && ht0.Size() > 0
      ensures table <= 2
      ensures table == 2 <==> Lookup(State(), key) == None
      ensures table == 0 <==> Get(hash, ht0, key).Some?
      ensures table == 0 ==> idx == Index(hash(key), ht0.Size()) && p == Position(ht0.buckets[idx], key) < |ht0.buckets[idx]|
      ensures table == 1 ==> ht1.Size() > 0 && idx == Index(hash(key), ht1.Size()) && p == Position(ht1.buckets[idx], key) < |ht1.buckets[idx]|
      ensures State().Rehashing() ==> ht1.Size() > 0
      ensures table == 2 ==> idx == Index(hash(key), if State().Rehashing() then ht1.Size() else ht0.Size())
    {
      hide Valid, Index;
      Shape(State());
      idx, p := 0, 0;
      table := 0;
      while table <= 1
        invariant table <= 2
        invariant table >= 1 ==> Get(hash, ht0, key) == None
        invariant table == 1 ==> State().Rehashing()
        invariant table == 2 ==> Get(hash, ht1, key) == None
        invariant table == 2 ==> State().Rehashing() && idx == Index(hash(key), ht1.Size())
      {
        var t := if table == 0 then ht0 else ht1;
        idx := Index(hash(key), t.Size());
        p := Search(t.buckets[idx], key);
        if p < |t.buckets[idx]| {
          return;
        }
        if rehashidx == -1 {
          table := 2;
          return;
        }
        table := table + 1;
      }
    }

    /** dictFind */
    method Find(key: K) returns (r: Option<V>)
      requires Valid(State())
      modifies this`ht0, this`ht1, this`rehashidx
      ensures Valid(State()) && Map() == old(Map())
      ensures r == MapGet(Map(), key)
      ensures iterators > 0 ==> State() == old(State())
    {
      hide Valid, Contents, Index, Lookup, Get;
      if ht0.used + ht1.used == 0 {
        NothingStored(State(), key);
        return None;
      }
      SomethingStored(State());
      if rehashidx != -1 {
        RehashStep();
      }
      SomethingStored(State());
      var table, idx, p := Locate(key);
      MapHas(State(), key);
      if table < 2 {
        FoundValue(State(), key);
      }
      if table == 0 {
        r := Some(ht0.buckets[idx][p].val);
      } else if table == 1 {
        r := Some(ht1.buckets[idx][p].val);
      } else {
        r := None;
      }
    }

    /** _dictExpandIfNeeded: it never fails. */
    method ExpandIfNeeded() returns (ok: bool)
      requires Valid(State())
      modifies this`ht0, this`ht1, this`rehashidx
      ensures Valid(State()) && Map() == old(Map())
      ensures Resized(old(State()), State())
      ensures ok && ht0.Size() > 0
      ensures old(State()).Rehashing() ==> State() == old(State())
      ensures old(ht0.Size()) == 0 ==> ht0.Size() == 4 && !State().Rehashing()
      ensures !old(State()).Rehashing() && old(ht0.Size()) > 0 ==>
        if old(ht0.used) >= old(ht0.Size()) && (canResize || old(ht0.used) / old(ht0.Size()) > 5) then
          State().Rehashing() && IsNextPower(old(ht0.used) * 2, ht1.Size())
        else State() == old(State())
    {
      hide Valid, Contents, IsPow2;
      Shape(State());
      assert State() == ResizedTo(State(), 0);
      if rehashidx != -1 {
        return true;
      }
      if ht0.Size() == 0 {
        EmptyUsed(State());
        ok := Expand(DICT_HT_INITIAL_SIZE);
        FirstSize(4, ht0.Size());
        return;
      }
      if ht0.used >= ht0.Size() && (canResize || ht0.used / ht0.Size() > DICT_FORCE_RESIZE_RATIO) {
        ok := Expand(ht0.used * 2);
        return;
      }
      return true;
    }

    /** dictAdd, through dictAddRaw and _dictKeyIndex. */
    method Add(key: K, val: V) returns (ok: bool)
      requires Valid(State())
      modifies this`ht0, this`ht1, this`rehashidx
      ensures Valid(State())
      ensures ok <==> key !in old(Map())
      ensures Map() == if ok then old(Map())[key := val] else old(Map())
      ensures ok ==> var t := if State().Rehashing() then ht1 else ht0;
        t.Size() > 0 && [Entry(key, val)] <= t.buckets[Index(hash(key), t.Size())]
      ensures iterators > 0 ==> Added(old(State()), State(), Entry(key, val))
    {
      hide Valid, Contents, Index, Lookup, Get;
      ghost var start := State();
      MapHas(start, key);
      if rehashidx != -1 {
        RehashStep();
      }
      ghost var stepped := State();
      var expanded := ExpandIfNeeded();
      ghost var mid := State();
      MapHas(mid, key);
      Shape(mid);
      var table, index, _ := Locate(key);
      if table < 2 {
        AddedIs(start, stepped, mid, State(), Entry(key, val));
        return false;
      }
      AddEntryAddsToMap(mid, Entry(key, val));
      if rehashidx != -1 {
        ht1 := Table(ht1.buckets[index := [Entry(key, val)] + ht1.buckets[index]], ht1.used + 1);
      } else {
        ht0 := Table(ht0.buckets[index := [Entry(key, val)] + ht0.buckets[index]], ht0.used + 1);
      }
      assert State() == AddEntry(mid, Entry(key, val));
      AddedIs(start, stepped, mid, State(), Entry(key, val));
      return true;
    }

    /** dictReplace */
    method Replace(key: K, val: V) returns (added: bool)
      requires Valid(State())
      modifies this`ht0, this`ht1, this`rehashidx
      ensures Valid(State())
      ensures added <==> key !in old(Map())
      ensures Map() == old(Map())[key := val]
      ensures iterators > 0 ==> Replaced(old(State()), State(), Entry(key, val))
    {
      hide Valid, Contents, Index, Lookup, Get;
      ghost var start := State();
      MapHas(start, key);
      added := Add(key, val);
      if added {
        ReplacedIs(start, State(), State(), Entry(key, val));
        return;
      }
      ghost var mid := State();
      MapHas(mid, key);
      NotEmpty(mid, key);
      OverwriteChangesMap(mid, key, val);
      var table, idx, p := Locate(key);
      if table == 0 {
        ht0 := Table(ht0.buckets[idx := ht0.buckets[idx][p := Entry(key, val)]], ht0.used);
      } else {
        ht1 := Table(ht1.buckets[idx := ht1.buckets[idx][p := Entry(key, val)]], ht1.used);
      }
      assert State() == Overwrite(mid, key, val);
      ReplacedIs(start, mid, State(), Entry(key, val));
    }

    /** dictGenericDelete: the value of the removed entry, if there was one. */
    method Delete(key: K) returns (r: Option<V>)
      requires Valid(State())
      modifies this`ht0, this`ht1, this`rehashidx
      ensures Valid(State())
      ensures r == MapGet(old(Map()), key)
      ensures Map() == old(Map()) - {key}
      ensures iterators > 0 ==> Deleted(old(State()), State(), key)
    {
      hide Valid, Contents, Index, Lookup, Get;
      if ht0.used == 0 && ht1.used == 0 {
        NothingStored(State(), key);
        return None;
      }
      SomethingStored(State());
      if rehashidx != -1 {
        RehashStep();
      }
      ghost var mid := State();
      SomethingStored(mid);
      MapHas(mid, key);
      var table, idx, p := Locate(key);
      if table == 2 {
        return None;
      }
      FoundValue(mid, key);
      UnlinkRemovesFromMap(mid, key);
      UnlinkIs(mid, key);
      hide Unlink;
      if table == 0 {
        var c := ht0.buckets[idx];
        r := Some(c[p].val);
        ht0 := Table(ht0.buckets[idx := c[..p] + c[p + 1..]], ht0.used - 1);
      } else {
        var c := ht1.buckets[idx];
        r := Some(c[p].val);
        ht1 := Table(ht1.buckets[idx := c[..p] + c[p + 1..]], ht1.used - 1);
      }
      assert State() == Unlink(mid, key);
    }
  }

  // ---------------------------------------------------------------- facts used above

  lemma NothingStored<K, V>(d: Dict<K, V>, k: K)
    requires Valid(d) && d.Count() == 0
    ensures MapGet(Contents(d), k) == None && Lookup(d, k) == None && Contents(d) == map[]
  {
    hide Valid, Contents, Lookup;
    ContentsAgree(d);
  }

  lemma SomethingStored<K, V>(d: Dict<K, V>)
    requires Valid(d)
    ensures d.Count() > 0 ==> d.t0.Size() > 0
    ensures d.Count() == |Contents(d)|
  {
    hide Index, Contents, Lookup;
    ContentsAgree(d);
  }

  lemma EmptyUsed<K, V>(d: Dict<K, V>)
    requires Valid(d) && d.t0.Size() == 0
    ensures d.t0.used == 0
  {
  }

  lemma NotEmpty<K, V>(d: Dict<K, V>, k: K)
    requires Valid(d) && Lookup(d, k).Some?
    ensures d.t0.Size() > 0
  {
  }

  predicate ChainHolds<K(==), V(==)>(hash: K -> nat, t: Table<K, V>, k: K, v: V) {
    && t.Size() > 0
    && var c := t.buckets[Index(hash(k), t.Size())];
       Position(c, k) < |c| && c[Position(c, k)].val == v
  }

  lemma FoundValue<K, V>(d: Dict<K, V>, k: K)
    requires Valid(d) && Lookup(d, k).Some?
    ensures if Get(d.hash, d.t0, k).Some? then ChainHolds(d.hash, d.t0, k, Lookup(d, k).value)
            else ChainHolds(d.hash, d.t1, k, Lookup(d, k).value)
  {
    hide Index;
  }

  lemma UnlinkIs<K, V>(d: Dict<K, V>, k: K)
    requires Lookup(d, k).Some?
    requires if Get(d.hash, d.t0, k).Some? then d.t0.used > 0 else d.t1.used > 0
    ensures var t := if Get(d.hash, d.t0, k).Some? then d.t0 else d.t1;
      && t.Size() > 0
      && var i := Index(d.hash(k), t.Size());
         var c := t.buckets[i];
         var p := Position(c, k);
         && p < |c|
         && var t' := Table(t.buckets[i := c[..p] + c[p + 1..]], t.used - 1);
            Unlink(d, k) == if Get(d.hash, d.t0, k).Some? then d.(t0 := t') else d.(t1 := t')
  {
    hide Index;
  }

  lemma AddedIs<K, V>(start: Dict<K, V>, stepped: Dict<K, V>, mid: Dict<K, V>, end: Dict<K, V>, e: Entry<K, V>)
    requires start.iterators > 0 ==> stepped == start
    requires Resized(stepped, mid)
    requires mid.t0.Size() > 0 && (mid.Rehashing() ==> mid.t1.Size() > 0)
    requires Lookup(start, e.key).Some? <==> Lookup(mid, e.key).Some?
    requires end == if Lookup(mid, e.key).Some? then mid else AddEntry(mid, e)
    ensures start.iterators > 0 ==> Added(start, end, e)
  {
    hide Lookup, ResizedTo;
    if start.iterators > 0 {
      var size: nat :| mid == ResizedTo(stepped, size);
      assert AddedVia(start, end, e, size);
    }
  }

  lemma ReplacedIs<K, V>(start: Dict<K, V>, mid: Dict<K, V>, end: Dict<K, V>, e: Entry<K, V>)
    requires start.iterators > 0 ==> Added(start, mid, e)
    requires Lookup(start, e.key).Some? ==> Lookup(mid, e.key).Some? && end == Overwrite(mid, e.key, e.val)
    requires Lookup(start, e.key) == None ==> end == mid
    ensures start.iterators > 0 ==> Replaced(start, end, e)
  {
    hide Lookup, ResizedTo;
    if start.iterators > 0 {
      var size: nat :| AddedVia(start, mid, e, size);
      assert ReplacedVia(start, end, e, size);
    }
  }

  /** A run of rehash steps from `d`: the buckets still ahead are untouched. */
  ghost predicate Ahead<K, V>(d: Dict<K, V>, d': Dict<K, V>) {
    && d'.hash == d.hash && d'.iterators == d.iterators
    && d'.t0.Size() == d.t0.Size() && d'.t1.Size() == d.t1.Size()
    && 0 <= d.rehashidx <= d'.rehashidx
    && forall i :: d'.rehashidx <= i < d'.t0.Size() ==> d'.t0.buckets[i] == d.t0.buckets[i]
  }

  /** Passing an empty bucket is moving nothing. */
  lemma SkipEmpty<K, V>(d: Dict<K, V>)
    requires Valid(d) && 0 <= d.rehashidx < d.t0.Size() && d.t0.buckets[d.rehashidx] == []
    ensures Valid(d.(rehashidx := d.rehashidx + 1)) && Contents(d.(rehashidx := d.rehashidx + 1)) == Contents(d)
  {
    hide Valid, Contents;
    StepBucketKeepsMap(d);
    assert d.t0.buckets[d.rehashidx := []] == d.t0.buckets;
    assert StepBucket(d) == d.(rehashidx := d.rehashidx + 1);
  }

  /** The buckets from `lo` up to `hi` that hold something. */
  function Busy<K, V>(b: seq<seq<Entry<K, V>>>, lo: nat, hi: nat): (c: nat)
    requires lo <= hi <= |b|
  {
    if lo == hi then 0 else Busy(b, lo, hi - 1) + if b[hi - 1] == [] then 0 else 1
  }

  /** From `lo` to `hi` there are `busy` buckets that hold something and `empty` that do not. */
  ghost predicate Passed<K, V>(b: seq<seq<Entry<K, V>>>, lo: int, hi: int, busy: int, empty: int) {
    0 <= lo <= hi <= |b| && Busy(b, lo, hi) == busy && hi - lo == busy + empty
  }

  /** What a call that asks for `n` buckets passes: as many that hold something, or as many empty ones as it may
      visit, and no more of either. */
  ghost predicate Paced<K, V>(b: seq<seq<Entry<K, V>>>, lo: int, hi: int, n: nat) {
    && 0 <= lo <= hi <= |b|
    && var busy, empty := Busy(b, lo, hi), hi - lo - Busy(b, lo, hi);
       busy <= n && empty <= 10 * n && (busy == n || empty == 10 * n)
  }

  lemma PassedNone<K, V>(b: seq<seq<Entry<K, V>>>, lo: nat)
    requires lo <= |b|
    ensures Passed(b, lo, lo, 0, 0)
  {
  }

  lemma PassedBusy<K, V>(b: seq<seq<Entry<K, V>>>, lo: int, hi: int, busy: int, empty: int)
    requires Passed(b, lo, hi, busy, empty) && hi < |b| && b[hi] != []
    ensures Passed(b, lo, hi + 1, busy + 1, empty)
  {
  }

  lemma {:induction false} PassedEmpty<K, V>(b: seq<seq<Entry<K, V>>>, lo: int, mid: int, hi: int, busy: int, empty: int)
    requires Passed(b, lo, mid, busy, empty) && mid <= hi <= |b| && forall i :: mid <= i < hi ==> b[i] == []
    ensures Passed(b, lo, hi, busy, empty + (hi - mid))
    decreases hi - mid
  {
    if mid < hi {
      PassedEmpty(b, lo, mid, hi - 1, busy, empty);
    }
  }

  lemma PassedRest<K, V>(b: seq<seq<Entry<K, V>>>, lo: int, hi: int, busy: int, empty: int)
    requires Passed(b, lo, hi, busy, empty) && forall i :: hi <= i < |b| ==> b[i] == []
    ensures 0 <= lo <= |b| && Busy(b, lo, |b|) == busy
  {
    PassedEmpty(b, lo, hi, |b|, busy, empty);
  }

  lemma PassedPaced<K, V>(b: seq<seq<Entry<K, V>>>, lo: int, hi: int, busy: int, empty: int, n: nat)
    requires Passed(b, lo, hi, busy, empty) && busy <= n && empty <= 10 * n && (busy == n || empty == 10 * n)
    ensures Paced(b, lo, hi, n)
  {
  }

  lemma NothingAhead<K, V>(d: Dict<K, V>)
    requires Valid(d) && d.t0.used == 0
    ensures forall i :: 0 <= i < d.t0.Size() ==> d.t0.buckets[i] == []
  {
    TotalZero(d.t0.buckets);
  }

  /** There is one such size. */
  lemma NextPowerUnique(size: nat, r: nat, r': nat)
    requires IsNextPower(size, r)
    ensures IsNextPower(size, r') <==> r' == r
  {
    hide Log2, Pow2;
    if IsNextPower(size, r') {
      var k, k' := Log2(r), Log2(r');
      LargerThanFour(k);
      LargerThanFour(k');
      if k < k' {
        Pow2Monotone(k, k' - 1);
        Pow2Step(k');
      } else if k' < k {
        Pow2Monotone(k', k - 1);
        Pow2Step(k);
      }
    }
  }

  lemma SmallSizes(size: nat)
    requires size <= 4
    ensures forall r :: IsNextPower(size, r) <==> r == 4
  {
    forall r ensures IsNextPower(size, r) <==> r == 4 { FirstSize(size, r); }
  }

  lemma FirstSize(size: nat, r: nat)
    requires size <= 4
    ensures IsNextPower(size, r) <==> r == 4
  {
    Log2OfPow2(2);
    NextPowerUnique(size, 4, r);
  }

  lemma LargerThanFour(k: nat)
    requires Pow2(k) >= 4
    ensures k >= 2 && (k > 2 ==> Pow2(k) > 4)
  {
    Pow2Step(k);
    if k > 2 {
      Pow2Monotone(3, k);
    }
  }
}
