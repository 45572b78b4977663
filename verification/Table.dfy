/**
 One chained hash table of dict.c (dictht): a power of two buckets, each a chain of entries,
 and the number of entries stored. A chain is the sequence of entries reached through `next`,
 head first.
 */
module Table {
  import opened Options
  import opened Words

  datatype Entry<+K, +V> = Entry(key: K, val: V)

  datatype Table<+K, +V> = Table(buckets: seq<seq<Entry<K, V>>>, used: nat) {
    /** The field `size`. */
    function Size(): (n: nat) {
      |buckets|
    }
  }

  /** _dictReset. */
  function Reset<K, V>(): (t: Table<K, V>) {
    Table([], 0)
  }

  // ---------------------------------------------------------------- sizes

  /** The exponent of a size. */
  function Log2(size: nat): (k: nat) {
    if size <= 1 then 0 else 1 + Log2(size / 2)
  }

  predicate IsPow2(size: nat) {
    size == Pow2(Log2(size))
  }

  lemma {:induction false} Log2OfPow2(k: nat)
    ensures Log2(Pow2(k)) == k && IsPow2(Pow2(k))
  {
    if k > 0 {
      Log2OfPow2(k - 1);
      assert Pow2(k) / 2 == Pow2(k - 1);
    }
  }

  /** hash & sizemask */
  function Index(h: nat, size: nat): (i: nat)
    requires size > 0
    ensures i < size
  {
    And(h, size - 1)
  }

  lemma IndexIsLow(h: nat, size: nat)
    requires size > 0 && IsPow2(size)
    ensures Index(h, size) == Low(h, Log2(size))
  {
    AndOnes(h, Log2(size));
  }

  // ---------------------------------------------------------------- chains

  /** The position of the entry with key `k` in a chain, or its length. */
  function Position<K(==), V>(c: seq<Entry<K, V>>, k: K): (p: nat)
    ensures p <= |c|
    ensures p < |c| ==> c[p].key == k
    ensures forall q :: 0 <= q < p ==> c[q].key != k
  {
    if c == [] then 0
    else if c[0].key == k then 0
    else 1 + Position(c[1..], k)
  }

  function Total<K, V>(buckets: seq<seq<Entry<K, V>>>): (n: nat) {
    if buckets == [] then 0 else |buckets[0]| + Total(buckets[1..])
  }

  lemma {:induction false} TotalUpdate<K, V>(buckets: seq<seq<Entry<K, V>>>, i: nat, c: seq<Entry<K, V>>)
    requires i < |buckets|
    ensures Total(buckets[i := c]) == Total(buckets) - |buckets[i]| + |c|
  {
    if i == 0 {
      assert buckets[0 := c][1..] == buckets[1..];
    } else {
      assert buckets[i := c][1..] == buckets[1..][i - 1 := c];
      TotalUpdate(buckets[1..], i - 1, c);
    }
  }

  /** Something is stored exactly when some bucket is not empty. */
  lemma {:induction false} TotalZero<K, V>(buckets: seq<seq<Entry<K, V>>>)
    ensures Total(buckets) == 0 <==> forall i :: 0 <= i < |buckets| ==> buckets[i] == []
  {
    if buckets != [] {
      TotalZero(buckets[1..]);
      if Total(buckets) == 0 {
        forall i | 0 <= i < |buckets|
          ensures buckets[i] == []
        {
          if i > 0 {
            assert buckets[i] == buckets[1..][i - 1];
          }
        }
      }
      if forall i :: 0 <= i < |buckets| ==> buckets[i] == [] {
        forall i | 0 <= i < |buckets[1..]|
          ensures buckets[1..][i] == []
        {
          assert buckets[1..][i] == buckets[i + 1];
        }
      }
    }
  }

  // ---------------------------------------------------------------- well-formed tables

  /** Every entry of the chain belongs in bucket `i`, and no key occurs twice. */
  ghost predicate ChainOk<K, V>(hash: K -> nat, c: seq<Entry<K, V>>, i: nat, size: nat)
    requires size > 0
  {
    && (forall p :: 0 <= p < |c| ==> Index(hash(c[p].key), size) == i)
    && (forall p, q :: 0 <= p < q < |c| ==> c[p].key != c[q].key)
  }

  ghost predicate ValidTable<K, V>(hash: K -> nat, t: Table<K, V>) {
    && (t.Size() > 0 ==> IsPow2(t.Size()))
    && t.used == Total(t.buckets)
    && (forall i :: 0 <= i < t.Size() ==> ChainOk(hash, t.buckets[i], i, t.Size()))
  }

  /** The value stored under `k`. */
  function Get<K(==), V>(hash: K -> nat, t: Table<K, V>, k: K): (r: Option<V>) {
    if t.Size() == 0 then None
    else
      var c := t.buckets[Index(hash(k), t.Size())];
      var p := Position(c, k);
      if p < |c| then Some(c[p].val) else None
  }

  /** An entry found anywhere in a well-formed table is the one a lookup finds. */
  lemma Stored<K, V>(hash: K -> nat, t: Table<K, V>, i: nat, p: nat)
    requires ValidTable(hash, t)
    requires i < t.Size() && p < |t.buckets[i]|
    ensures Get(hash, t, t.buckets[i][p].key) == Some(t.buckets[i][p].val)
    ensures i == Index(hash(t.buckets[i][p].key), t.Size()) && p == Position(t.buckets[i], t.buckets[i][p].key)
  {
    assert ChainOk(hash, t.buckets[i], i, t.Size());
  }

  /** Replacing one chain by another well-formed one. */
  lemma ReplaceChain<K, V>(hash: K -> nat, t: Table<K, V>, i: nat, c: seq<Entry<K, V>>)
    requires ValidTable(hash, t)
    requires i < t.Size() && ChainOk(hash, c, i, t.Size())
    ensures t.used - |t.buckets[i]| + |c| >= 0
    ensures ValidTable(hash, Table(t.buckets[i := c], t.used - |t.buckets[i]| + |c|))
  {
    TotalUpdate(t.buckets, i, c);
  }

  // ---------------------------------------------------------------- updates

  /** Insert at the head of the chain. */
  function Insert<K, V>(hash: K -> nat, t: Table<K, V>, e: Entry<K, V>): (r: Table<K, V>)
    requires t.Size() > 0
  {
    var i := Index(hash(e.key), t.Size());
    Table(t.buckets[i := [e] + t.buckets[i]], t.used + 1)
  }

  lemma InsertEffect<K, V>(hash: K -> nat, t: Table<K, V>, e: Entry<K, V>)
    requires ValidTable(hash, t) && t.Size() > 0
    requires Get(hash, t, e.key) == None
    ensures ValidTable(hash, Insert(hash, t, e))
    ensures forall k :: Get(hash, Insert(hash, t, e), k) == if k == e.key then Some(e.val) else Get(hash, t, k)
  {
    hide Index, IsPow2, Total;
    var i := Index(hash(e.key), t.Size());
    var old_, c := t.buckets[i], [e] + t.buckets[i];
    assert ChainOk(hash, old_, i, t.Size());
    assert ChainOk(hash, c, i, t.Size()) by {
      forall p, q | 0 <= p < q < |c|
        ensures c[p].key != c[q].key
      {
        if p == 0 {
          assert c[q] == old_[q - 1];
        }
      }
    }
    ReplaceChain(hash, t, i, c);
    forall k
      ensures Get(hash, Insert(hash, t, e), k) == if k == e.key then Some(e.val) else Get(hash, t, k)
    {
      assert c[1..] == old_;
    }
  }

  /** Unlink the entry with key `k` from its chain. */
  function Remove<K(==), V>(hash: K -> nat, t: Table<K, V>, k: K): (r: Table<K, V>)
    requires t.Size() > 0 && t.used > 0
  {
    var i := Index(hash(k), t.Size());
    var c, p := t.buckets[i], Position(t.buckets[i], k);
    if p < |c| then Table(t.buckets[i := c[..p] + c[p + 1..]], t.used - 1) else t
  }

  lemma PositionAfterRemoval<K, V>(c: seq<Entry<K, V>>, p: nat, k: K)
    requires p < |c| && k != c[p].key
    ensures var c', q := c[..p] + c[p + 1..], Position(c, k);
      Position(c', k) == (if q < p then q else q - 1)
  {
    var c', q := c[..p] + c[p + 1..], Position(c, k);
    var q' := Position(c', k);
    if q < |c| {
      assert q != p;
      assert c'[if q < p then q else q - 1] == c[q];
    }
    if q' < |c'| {
      assert c'[q'] == c[if q' < p then q' else q' + 1];
    }
  }

  lemma ChainAfterRemoval<K, V>(hash: K -> nat, c: seq<Entry<K, V>>, p: nat, i: nat, size: nat)
    requires size > 0 && p < |c| && ChainOk(hash, c, i, size)
    ensures ChainOk(hash, c[..p] + c[p + 1..], i, size)
  {
    hide Index;
    var c' := c[..p] + c[p + 1..];
    assert forall q :: 0 <= q < |c'| ==> c'[q] == c[if q < p then q else q + 1];
  }

  lemma GetAfterRemoval<K, V>(hash: K -> nat, t: Table<K, V>, k: K, x: K)
    requires t.Size() > 0 && t.used > 0
    requires ChainOk(hash, t.buckets[Index(hash(k), t.Size())], Index(hash(k), t.Size()), t.Size())
    ensures Get(hash, Remove(hash, t, k), x) == if x == k then None else Get(hash, t, x)
  {
    hide Index;
    var c := t.buckets[Index(hash(k), t.Size())];
    var p := Position(c, k);
    if p < |c| {
      var c' := c[..p] + c[p + 1..];
      if x == k {
        assert forall q :: 0 <= q < |c'| ==> c'[q] == c[if q < p then q else q + 1];
      } else {
        PositionAfterRemoval(c, p, x);
      }
    }
  }

  lemma RemoveEffect<K, V>(hash: K -> nat, t: Table<K, V>, k: K)
    requires ValidTable(hash, t)
    requires Get(hash, t, k).Some?
    ensures t.Size() > 0 && t.used > 0
    ensures ValidTable(hash, Remove(hash, t, k)) && Remove(hash, t, k).used == t.used - 1
    ensures forall x :: Get(hash, Remove(hash, t, k), x) == if x == k then None else Get(hash, t, x)
  {
    hide Index, IsPow2, Total, ChainOk;
    var i := Index(hash(k), t.Size());
    var c, p := t.buckets[i], Position(t.buckets[i], k);
    TotalZero(t.buckets);
    assert c != [];
    ChainAfterRemoval(hash, c, p, i, t.Size());
    ReplaceChain(hash, t, i, c[..p] + c[p + 1..]);
    forall x
      ensures Get(hash, Remove(hash, t, k), x) == if x == k then None else Get(hash, t, x)
    {
      GetAfterRemoval(hash, t, k, x);
    }
  }

  /** Overwrite the value stored under `k`. */
  function SetValue<K(==), V>(hash: K -> nat, t: Table<K, V>, k: K, v: V): (r: Table<K, V>)
    requires t.Size() > 0
  {
    var i := Index(hash(k), t.Size());
    var c, p := t.buckets[i], Position(t.buckets[i], k);
    if p < |c| then Table(t.buckets[i := c[p := Entry(k, v)]], t.used) else t
  }

  lemma PositionAfterUpdate<K, V>(c: seq<Entry<K, V>>, p: nat, v: V, k: K)
    requires p < |c|
    ensures Position(c[p := Entry(c[p].key, v)], k) == Position(c, k)
  {
    var c' := c[p := Entry(c[p].key, v)];
    assert forall q :: 0 <= q < |c| ==> c'[q].key == c[q].key;
  }

  lemma SetValueEffect<K, V>(hash: K -> nat, t: Table<K, V>, k: K, v: V)
    requires ValidTable(hash, t)
    requires Get(hash, t, k).Some?
    ensures t.Size() > 0 && ValidTable(hash, SetValue(hash, t, k, v))
    ensures forall x :: Get(hash, SetValue(hash, t, k, v), x) == if x == k then Some(v) else Get(hash, t, x)
  {
    hide Index, IsPow2, Total;
    var i := Index(hash(k), t.Size());
    var c, p := t.buckets[i], Position(t.buckets[i], k);
    var c' := c[p := Entry(k, v)];
    assert ChainOk(hash, c, i, t.Size());
    assert forall q :: 0 <= q < |c'| ==> c'[q].key == c[q].key;
    assert ChainOk(hash, c', i, t.Size());
    ReplaceChain(hash, t, i, c');
    forall x
      ensures Get(hash, SetValue(hash, t, k, v), x) == if x == k then Some(v) else Get(hash, t, x)
    {
      PositionAfterUpdate(c, p, v, x);
    }
  }

  /** A new table of empty buckets holds nothing. */
  lemma EmptyBuckets<K, V>(hash: K -> nat, buckets: seq<seq<Entry<K, V>>>)
    requires IsPow2(|buckets|) && forall i :: 0 <= i < |buckets| ==> buckets[i] == []
    ensures ValidTable(hash, Table(buckets, 0))
    ensures forall k :: Get(hash, Table(buckets, 0), k) == None
  {
    TotalZero(buckets);
  }
}
