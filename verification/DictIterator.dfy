/**
 Safe iterators. `entry` and `next` are the pointers entry and nextEntry; an entry is
 identified by its key, which is unique in the dictionary.
 */
module DictIterator {
  import opened Options
  import opened Table
  import opened DictState
  import opened DictSteps

  datatype Iter<+K> = Iter(table: nat, index: int, entry: Option<K>, next: Option<K>)

  /** dictGetSafeIterator */
  function Fresh<K>(): (it: Iter<K>) {
    Iter(0, -1, None, None)
  }

  function Buckets<K, V>(d: Dict<K, V>, table: nat): (b: seq<seq<Entry<K, V>>>) {
    if table == 0 then d.t0.buckets else d.t1.buckets
  }

  /** The chain from the entry with key `y` on. */
  function Suffix<K(==), V>(c: seq<Entry<K, V>>, y: Option<K>): (s: seq<Entry<K, V>>) {
    match y
    case None => []
    case Some(k) => c[Position(c, k)..]
  }

  /** The buckets from number `i` on. */
  function From<K, V>(b: seq<seq<Entry<K, V>>>, i: nat): (es: seq<Entry<K, V>>) {
    if i <= |b| then Flat(b[i..]) else []
  }

  ghost predicate IterOk<K, V>(d: Dict<K, V>, it: Iter<K>) {
    && it.table <= 1 && it.index >= -1
    && (it.table == 1 ==> d.Rehashing())
    && (it.index == -1 ==> it.table == 0 && it.entry == None)
    && (it.entry.Some? ==>
          && 0 <= it.index < |Buckets(d, it.table)|
          && (it.next.Some? ==> Has(Buckets(d, it.table)[it.index], it.next.value) && it.next != it.entry))
  }

  /** The entries in the buckets of `table` from number `i` on, and then in the second table. */
  function Tail<K, V>(d: Dict<K, V>, table: nat, i: nat): (es: seq<Entry<K, V>>) {
    From(Buckets(d, table), i) + (if table == 0 && d.Rehashing() then Flat(d.t1.buckets) else [])
  }

  /** The entries dictNext has still to return, in order. */
  function Remaining<K(==), V>(d: Dict<K, V>, it: Iter<K>): (es: seq<Entry<K, V>>)
    requires it.index >= -1
    requires it.entry.Some? ==> 0 <= it.index < |Buckets(d, it.table)|
  {
    (if it.entry.Some? then Suffix(Buckets(d, it.table)[it.index], it.next) else []) + Tail(d, it.table, it.index + 1)
  }

  predicate Has<K(==), V>(c: seq<Entry<K, V>>, k: K) {
    Position(c, k) < |c|
  }

  // ---------------------------------------------------------------- dictNext

  /** The key of the entry at the head of a chain, as a pointer. */
  function Head<K, V>(c: seq<Entry<K, V>>): (r: Option<K>) {
    if c == [] then None else Some(c[0].key)
  }

  lemma FromStep<K, V>(b: seq<seq<Entry<K, V>>>, i: nat)
    ensures i >= |b| ==> From(b, i) == []
    ensures i < |b| ==> From(b, i) == b[i] + From(b, i + 1)
  {
    if i < |b| {
      assert b[i..][0] == b[i] && b[i..][1..] == b[i + 1..];
    }
  }

  lemma SuffixOfHead<K, V>(c: seq<Entry<K, V>>)
    ensures Suffix(c, Head(c)) == c
  {
    if c != [] {
      assert Position(c, c[0].key) == 0;
      assert c[0..] == c;
    }
  }

  lemma SuffixParts<K, V>(c: seq<Entry<K, V>>, y: K)
    requires Has(c, y) && Distinct(c)
    ensures var s := Suffix(c, Some(y));
      |s| > 0 && s[0] == c[Position(c, y)] && s[0].key == y && Suffix(c, Head(s[1..])) == s[1..] && Head(s[1..]) != Some(y)
      && (s[1..] != [] ==> Has(c, s[1].key))
  {
    var p := Position(c, y);
    var s := c[p..];
    if p + 1 < |c| {
      var z := c[p + 1].key;
      assert s[1..][0] == c[p + 1];
      PositionOf(c, p + 1);
      assert c[p + 1..] == s[1..];
    }
  }

  lemma PositionOf<K, V>(c: seq<Entry<K, V>>, p: nat)
    requires p < |c| && Distinct(c)
    ensures Position(c, c[p].key) == p
  {
  }

  lemma TailStep<K, V>(d: Dict<K, V>, table: nat, i: nat)
    requires table <= 1
    ensures i < |Buckets(d, table)| ==> Tail(d, table, i) == Buckets(d, table)[i] + Tail(d, table, i + 1)
    ensures i >= |Buckets(d, table)| ==>
              Tail(d, table, i) == if table == 0 && d.Rehashing() then Tail(d, 1, 0) else []
  {
    hide Flat;
    FromStep(Buckets(d, table), i);
    FromAll(d.t1.buckets);
  }

  /** Standing on the first entry of a chain, with the rest of the iteration behind it. */
  lemma TakeHead<K, V>(d: Dict<K, V>, it: Iter<K>)
    requires Valid(d) && it.table <= 1 && 0 <= it.index < |Buckets(d, it.table)|
    requires it.entry.Some? && Has(Buckets(d, it.table)[it.index], it.entry.value)
    ensures var s := Suffix(Buckets(d, it.table)[it.index], it.entry);
      var it' := it.(next := Head(s[1..]));
      && |s| > 0 && s[0].key == it.entry.value
      && (it'.next.Some? ==> Has(Buckets(d, it.table)[it.index], it'.next.value) && it'.next != it'.entry)
      && Remaining(d, it') == (s + Tail(d, it.table, it.index + 1))[1..]
      && (s + Tail(d, it.table, it.index + 1))[0] == s[0]
  {
    hide Valid, Tail, Position, Suffix;
    var c := Buckets(d, it.table)[it.index];
    var s := Suffix(c, it.entry);
    ChainDistinct(d, it.table, it.index);
    SuffixParts(c, it.entry.value);
    var rest := Tail(d, it.table, it.index + 1);
    assert (s + rest)[1..] == s[1..] + rest;
  }

  /** Standing at the entry pointer, before nextEntry is read: what remains is the chain from there on. */
  ghost predicate At<K, V>(d: Dict<K, V>, it: Iter<K>, todo: seq<Entry<K, V>>) {
    && it.table <= 1 && 0 <= it.index < |Buckets(d, it.table)|
    && (it.table == 1 ==> d.Rehashing())
    && todo == Suffix(Buckets(d, it.table)[it.index], it.entry) + Tail(d, it.table, it.index + 1)
    && (it.entry.Some? ==> Has(Buckets(d, it.table)[it.index], it.entry.value))
  }

  /** The part of dictNext that looks for the next bucket. */
  method NextBucket<K(==), V>(d: Dict<K, V>, it: Iter<K>) returns (it': Iter<K>, done: bool)
    requires Valid(d) && IterOk(d, it) && it.entry == None
    ensures it'.index >= 0 && it'.table >= it.table
    ensures done ==> Remaining(d, it) == [] && it'.entry == None && IterOk(d, it') && Remaining(d, it') == []
    ensures !done ==> At(d, it', Remaining(d, it))
    ensures it'.table == it.table ==> it'.index == it.index + 1
  {
    hide Valid, Tail, Position, Suffix, Has;
    Shape(d);
    done := false;
    TailStep(d, it.table, it.index + 1);
    it' := it.(index := it.index + 1);
    if it'.index >= |Buckets(d, it'.table)| {
      if d.rehashidx != -1 && it'.table == 0 {
        TailStep(d, 1, 0);
        it' := it'.(table := 1, index := 0);
      } else {
        TailStep(d, it'.table, it'.index + 1);
        return it', true;
      }
    }
    var c := Buckets(d, it'.table)[it'.index];
    SuffixOfHead(c);
    HeadIsThere(c);
    it' := it'.(entry := Head(c));
  }

  function BucketsLeft<K, V>(d: Dict<K, V>, it: Iter<K>): (n: nat) {
    if it.index < |Buckets(d, it.table)| then |Buckets(d, it.table)| - it.index else 0
  }

  lemma AtNothing<K, V>(d: Dict<K, V>, it: Iter<K>, todo: seq<Entry<K, V>>)
    requires At(d, it, todo) && it.entry == None
    ensures IterOk(d, it) && Remaining(d, it) == todo && BucketsLeft(d, it) > 0
  {
    hide Tail;
  }

  lemma AtEntry<K, V>(d: Dict<K, V>, it: Iter<K>, todo: seq<Entry<K, V>>)
    requires Valid(d) && At(d, it, todo) && it.entry.Some?
    ensures var s := Suffix(Buckets(d, it.table)[it.index], it.entry);
      var it' := it.(next := Head(s[1..]));
      && todo != [] && |s| > 0 && s[0] == todo[0] && s[0].key == it.entry.value
      && IterOk(d, it') && Remaining(d, it') == todo[1..]
  {
    hide Valid, Tail, Position, Suffix, Has;
    TakeHead(d, it);
  }

  /** The iterator takes the head off what remains, and says so when nothing remains. */
  ghost predicate Takes<K, V>(d: Dict<K, V>, it: Iter<K>, it': Iter<K>, r: Option<Entry<K, V>>)
    requires IterOk(d, it)
  {
    && IterOk(d, it') && it'.index >= 0
    && if Remaining(d, it) == [] then r == None && Remaining(d, it') == [] && it'.entry == None
       else
         && r == Some(Remaining(d, it)[0]) && Remaining(d, it') == Remaining(d, it)[1..]
         && it'.entry == Some(r.value.key)
  }

  /** dictNext on a safe iterator. */
  method Next<K(==), V>(d: Dict<K, V>, it: Iter<K>) returns (it': Iter<K>, r: Option<Entry<K, V>>, iterators: nat)
    requires Valid(d) && IterOk(d, it)
    ensures iterators == if it.index == -1 then d.iterators + 1 else d.iterators
    ensures Takes(d, it, it', r)
  {
    hide Valid, Remaining, Suffix, At;
    iterators := d.iterators;
    it' := it;
    ghost var todo := Remaining(d, it);
    while true
      invariant IterOk(d, it') && Remaining(d, it') == todo
      invariant it' == it || it'.index >= 0
      invariant iterators == if it.index == -1 && it'.index != -1 then d.iterators + 1 else d.iterators
      decreases 1 - it'.table, BucketsLeft(d, it'), it'.entry.Some?
    {
      if it'.entry == None {
        if it'.index == -1 && it'.table == 0 {
          iterators := iterators + 1;
        }
        var done;
        it', done := NextBucket(d, it');
        if done {
          return it', None, iterators;
        }
      } else {
        FollowNext(d, it');
        it' := it'.(entry := it'.next);
      }
      if it'.entry.Some? {
        AtEntry(d, it', todo);
        var s := Suffix(Buckets(d, it'.table)[it'.index], it'.entry);
        r := Some(s[0]);
        it' := it'.(next := Head(s[1..]));
        return it', r, iterators;
      }
      AtNothing(d, it', todo);
    }
  }

  lemma FollowNext<K, V>(d: Dict<K, V>, it: Iter<K>)
    requires IterOk(d, it) && it.entry.Some?
    ensures At(d, it.(entry := it.next), Remaining(d, it))
  {
    hide Tail, Position, Suffix, Has;
  }

  lemma SuffixOfNone<K, V>(c: seq<Entry<K, V>>)
    ensures Suffix(c, None) == []
  {
  }

  lemma HeadIsThere<K, V>(c: seq<Entry<K, V>>)
    ensures c != [] ==> Has(c, c[0].key)
  {
  }

  lemma FromAll<K, V>(b: seq<seq<Entry<K, V>>>)
    ensures From(b, 0) == Flat(b)
  {
    assert b[0..] == b;
  }

  lemma ChainDistinct<K, V>(d: Dict<K, V>, table: nat, i: nat)
    requires Valid(d) && i < |Buckets(d, table)|
    ensures Distinct(Buckets(d, table)[i])
  {
    hide Index;
    var t := if table == 0 then d.t0 else d.t1;
    assert ChainOk(d.hash, t.buckets[i], i, t.Size());
  }

  // ---------------------------------------------------------------- what callers may do meanwhile

  lemma HasSum<K, V>(a: seq<Entry<K, V>>, b: seq<Entry<K, V>>, k: K)
    ensures Has(a + b, k) <==> Has(a, k) || Has(b, k)
  {
    if Has(a + b, k) {
      assert (a + b)[Position(a + b, k)].key == k;
    }
    if Has(a, k) {
      assert (a + b)[Position(a, k)].key == k;
    }
    if Has(b, k) {
      assert (a + b)[|a| + Position(b, k)].key == k;
    }
  }

  /** A change to a chain that concerns only the key `x`: it is put at the head or taken out. Values may
      change; with no key, only values may. */
  ghost predicate Kept<K, V>(c: seq<Entry<K, V>>, c': seq<Entry<K, V>>, x: Option<K>) {
    || c' == c
    || (x.Some? && !Has(c, x.value) && |c'| > 0 && c'[0].key == x.value && c'[1..] == c)
    || (x.Some? && Has(c, x.value) && c' == c[..Position(c, x.value)] + c[Position(c, x.value) + 1..])
    || (|c'| == |c| && forall q :: 0 <= q < |c| ==> c'[q].key == c[q].key)
  }

  lemma SameKeys<K, V>(c: seq<Entry<K, V>>, c': seq<Entry<K, V>>, k: K)
    requires |c'| == |c| && forall q :: 0 <= q < |c| ==> c'[q].key == c[q].key
    ensures Position(c', k) == Position(c, k)
  {
  }

  /** Every other key stays, and so do the keys that follow it. */
  lemma KeptKeys<K, V>(c: seq<Entry<K, V>>, c': seq<Entry<K, V>>, x: Option<K>, k: K)
    requires Kept(c, c', x) && x != Some(k)
    ensures Has(c', k) <==> Has(c, k)
  {
    if c' == c {
    } else if x.Some? && !Has(c, x.value) && |c'| > 0 && c'[0].key == x.value && c'[1..] == c {
      assert c' == [c'[0]] + c;
      HasSum([c'[0]], c, k);
    } else if x.Some? && Has(c, x.value) && c' == c[..Position(c, x.value)] + c[Position(c, x.value) + 1..] {
      PositionAfterRemoval(c, Position(c, x.value), k);
    } else {
      SameKeys(c, c', k);
    }
  }

  lemma KeptSuffix<K, V>(c: seq<Entry<K, V>>, c': seq<Entry<K, V>>, x: Option<K>, y: K, k: K)
    requires Kept(c, c', x) && x != Some(k) && x != Some(y) && Has(c, y)
    ensures Has(Suffix(c', Some(y)), k) <==> Has(Suffix(c, Some(y)), k)
  {
    var q := Position(c, y);
    if c' == c {
    } else if x.Some? && !Has(c, x.value) && |c'| > 0 && c'[0].key == x.value && c'[1..] == c {
      assert Position(c', y) == 1 + q;
      assert c'[1 + q..] == c[q..];
    } else if x.Some? && Has(c, x.value) && c' == c[..Position(c, x.value)] + c[Position(c, x.value) + 1..] {
      SuffixAfterRemoval(c, Position(c, x.value), y, k);
    } else {
      SameKeys(c, c', y);
      SameKeys(c[q..], c'[q..], k);
    }
  }

  lemma SuffixAfterRemoval<K, V>(c: seq<Entry<K, V>>, p: nat, y: K, k: K)
    requires p < |c| && c[p].key != k && c[p].key != y && Has(c, y)
    ensures Has(Suffix(c[..p] + c[p + 1..], Some(y)), k) <==> Has(Suffix(c, Some(y)), k)
  {
    var c', q := c[..p] + c[p + 1..], Position(c, y);
    PositionAfterRemoval(c, p, y);
    if q < p {
      RemovalInSuffix(c, p, q, k);
    } else {
      assert c'[q - 1..] == c[q..];
    }
  }

  lemma RemovalInSuffix<K, V>(c: seq<Entry<K, V>>, p: nat, q: nat, k: K)
    requires q < p < |c| && c[p].key != k
    ensures Has((c[..p] + c[p + 1..])[q..], k) <==> Has(c[q..], k)
  {
    hide Position;
    var s := c[q..];
    assert (c[..p] + c[p + 1..])[q..] == s[..p - q] + s[p - q + 1..];
    assert s[p - q] == c[p];
    PositionAfterRemoval(s, p - q, k);
  }

  ghost predicate TableKept<K, V>(b: seq<seq<Entry<K, V>>>, b': seq<seq<Entry<K, V>>>, x: Option<K>) {
    |b'| == |b| && forall i :: 0 <= i < |b| ==> Kept(b[i], b'[i], x)
  }

  /** A change to the dictionary that concerns only the key `x`, besides the arrival of a table of
      empty buckets. */
  ghost predicate DictKept<K, V>(d: Dict<K, V>, d': Dict<K, V>, x: Option<K>) {
    && (TableKept(d.t0.buckets, d'.t0.buckets, x) || (|d.t0.buckets| == 0 && NothingBut(d'.t0.buckets, x)))
    && (TableKept(d.t1.buckets, d'.t1.buckets, x) || (!d.Rehashing() && NothingBut(d'.t1.buckets, x)))
    && (d.Rehashing() ==> d'.Rehashing())
  }

  ghost predicate NothingBut<K, V>(b: seq<seq<Entry<K, V>>>, x: Option<K>) {
    forall i, p :: 0 <= i < |b| && 0 <= p < |b[i]| ==> x == Some(b[i][p].key)
  }

  // the membership of a key in what remains

  lemma HasFlat<K, V>(b: seq<seq<Entry<K, V>>>, k: K)
    ensures Has(Flat(b), k) <==> exists i :: 0 <= i < |b| && Has(b[i], k)
  {
    if Has(Flat(b), k) {
      var i, p := FlatOrigin(b, Flat(b)[Position(Flat(b), k)]);
      assert b[i][p].key == k;
      assert Has(b[i], k);
    }
    if exists i :: 0 <= i < |b| && Has(b[i], k) {
      var i :| 0 <= i < |b| && Has(b[i], k);
      FlatHas(b, i, Position(b[i], k));
      var e: Entry<K, V> := b[i][Position(b[i], k)];
      assert e in Flat(b) && e.key == k;
    }
  }

  lemma FlatKept<K, V>(b: seq<seq<Entry<K, V>>>, b': seq<seq<Entry<K, V>>>, x: Option<K>, k: K)
    requires TableKept(b, b', x) && x != Some(k)
    ensures Has(Flat(b'), k) <==> Has(Flat(b), k)
  {
    hide Kept, Has, Flat;
    HasFlat(b, k);
    HasFlat(b', k);
    forall i | 0 <= i < |b|
      ensures Has(b'[i], k) <==> Has(b[i], k)
    {
      KeptKeys(b[i], b'[i], x, k);
    }
  }

  lemma FromKept<K, V>(b: seq<seq<Entry<K, V>>>, b': seq<seq<Entry<K, V>>>, i: nat, x: Option<K>, k: K)
    requires TableKept(b, b', x) && x != Some(k)
    ensures Has(From(b', i), k) <==> Has(From(b, i), k)
  {
    hide Kept, Has, Flat;
    if i <= |b| {
      assert forall j :: 0 <= j < |b| - i ==> b[i..][j] == b[i + j] && b'[i..][j] == b'[i + j];
      FlatKept(b[i..], b'[i..], x, k);
    }
  }

  lemma NothingButHas<K, V>(b: seq<seq<Entry<K, V>>>, x: Option<K>, k: K)
    requires NothingBut(b, x) && x != Some(k)
    ensures !Has(Flat(b), k)
  {
    if Has(Flat(b), k) {
      var i, p := FlatOrigin(b, Flat(b)[Position(Flat(b), k)]);
    }
  }

  lemma FromNothingBut<K, V>(b: seq<seq<Entry<K, V>>>, i: nat, x: Option<K>, k: K)
    requires NothingBut(b, x) && x != Some(k)
    ensures !Has(From(b, i), k)
  {
    hide Has, Flat;
    if i <= |b| {
      assert forall j :: 0 <= j < |b| - i ==> b[i..][j] == b[i + j];
      NothingButHas(b[i..], x, k);
    } else {
      HasNothing<K, V>(k);
    }
  }

  lemma HasNothing<K, V>(k: K)
    ensures !Has<K, V>([], k)
  {
  }

  lemma TailKept<K, V>(d: Dict<K, V>, d': Dict<K, V>, table: nat, i: nat, x: Option<K>, k: K)
    requires Valid(d) && DictKept(d, d', x) && x != Some(k) && table <= 1 && (table == 1 ==> d.Rehashing())
    ensures Has(Tail(d', table, i), k) <==> Has(Tail(d, table, i), k)
  {
    hide Has, Flat, From, TableKept, NothingBut;
    var b, b' := Buckets(d, table), Buckets(d', table);
    Shape(d);
    HasNothing<K, V>(k);
    HasSum(From(b, i), if table == 0 && d.Rehashing() then Flat(d.t1.buckets) else [], k);
    HasSum(From(b', i), if table == 0 && d'.Rehashing() then Flat(d'.t1.buckets) else [], k);
    if TableKept(b, b', x) {
      FromKept(b, b', i, x, k);
    } else {
      FromNothing(b, i);
      FromNothingBut(b', i, x, k);
    }
    if table == 0 {
      FlatNothing<K, V>();
      if TableKept(d.t1.buckets, d'.t1.buckets, x) {
        FlatKept(d.t1.buckets, d'.t1.buckets, x, k);
      } else {
        NothingButHas(d'.t1.buckets, x, k);
      }
    }
  }

  lemma FlatNothing<K, V>()
    ensures Flat<K, V>([]) == []
  {
  }

  lemma FromNothing<K, V>(b: seq<seq<Entry<K, V>>>, i: nat)
    ensures b == [] ==> From(b, i) == []
  {
  }

  /** What callers do meanwhile leaves the iterator in order, and leaves every other key to be
      returned, or not, as before. */
  lemma RemainingKept<K, V>(d: Dict<K, V>, d': Dict<K, V>, it: Iter<K>, x: Option<K>, k: K)
    requires Valid(d) && IterOk(d, it) && DictKept(d, d', x) && (x == None || it.next != x)
    ensures IterOk(d', it)
    ensures x != Some(k) ==> (Has(Remaining(d', it), k) <==> Has(Remaining(d, it), k))
  {
    hide Valid, Has, Tail, Suffix, Kept;
    if it.entry.Some? {
      var c, c' := Buckets(d, it.table)[it.index], Buckets(d', it.table)[it.index];
      assert Kept(c, c', x);
      if it.next.Some? {
        KeptKeys(c, c', x, it.next.value);
        if x != Some(k) {
          KeptSuffix(c, c', x, it.next.value, k);
        }
      } else {
        SuffixOfNone(c);
        SuffixOfNone(c');
      }
      HasSum(Suffix(c, it.next), Tail(d, it.table, it.index + 1), k);
      HasSum(Suffix(c', it.next), Tail(d', it.table, it.index + 1), k);
    } else {
      HasNothing<K, V>(k);
      HasSum([], Tail(d, it.table, it.index + 1), k);
      HasSum([], Tail(d', it.table, it.index + 1), k);
    }
    if x != Some(k) {
      TailKept(d, d', it.table, it.index + 1, x, k);
    }
  }

  // ---------------------------------------------------------------- the operations are such changes

  lemma InsertKept<K, V>(hash: K -> nat, t: Table<K, V>, e: Entry<K, V>)
    requires t.Size() > 0 && Get(hash, t, e.key) == None
    ensures TableKept(t.buckets, Insert(hash, t, e).buckets, Some(e.key))
    ensures NothingBut(t.buckets, Some(e.key)) ==> NothingBut(Insert(hash, t, e).buckets, Some(e.key))
  {
    hide Index;
    var i := Index(hash(e.key), t.Size());
    assert ([e] + t.buckets[i])[1..] == t.buckets[i];
  }

  lemma RemoveKept<K, V>(hash: K -> nat, t: Table<K, V>, k: K)
    requires t.Size() > 0 && t.used > 0
    ensures TableKept(t.buckets, Remove(hash, t, k).buckets, Some(k))
  {
    hide Index;
  }

  lemma SetValueKept<K, V>(hash: K -> nat, t: Table<K, V>, k: K, v: V)
    requires t.Size() > 0
    ensures TableKept(t.buckets, SetValue(hash, t, k, v).buckets, None)
  {
    hide Index;
  }

  lemma TableSame<K, V>(b: seq<seq<Entry<K, V>>>, x: Option<K>)
    ensures TableKept(b, b, x)
  {
  }

  lemma ResizeKept<K, V>(d: Dict<K, V>, size: nat, x: Option<K>)
    requires Valid(d)
    ensures DictKept(d, ResizedTo(d, size), x)
    ensures !d.Rehashing() ==> NothingBut(ResizedTo(d, size).t1.buckets, x)
    ensures d.t0.Size() == 0 ==> NothingBut(ResizedTo(d, size).t0.buckets, x)
    ensures TableKept(d.t0.buckets, ResizedTo(d, size).t0.buckets, x) || |d.t0.buckets| == 0
    ensures TableKept(d.t1.buckets, ResizedTo(d, size).t1.buckets, x) || !d.Rehashing()
  {
    hide Index, IsPow2, Kept, ValidTable;
    TableSame(d.t0.buckets, x);
    TableSame(d.t1.buckets, x);
  }

  /** What a caller may do between two calls of dictNext. */
  datatype Action<+K, +V> =
    | Find
    | Resize(size: nat)
    | Add(e: Entry<K, V>)
    | Replace(e: Entry<K, V>)
    | Delete(key: K)

  ghost predicate Acts<K, V>(d: Dict<K, V>, d': Dict<K, V>, a: Action<K, V>) {
    match a
    case Find => d' == d
    case Resize(size) => d' == ResizedTo(d, size)
    case Add(e) => Added(d, d', e)
    case Replace(e) => Replaced(d, d', e)
    case Delete(k) => Deleted(d, d', k)
  }

  /** The key whose presence an action changes. */
  ghost function Touched<K, V>(d: Dict<K, V>, a: Action<K, V>): (x: Option<K>) {
    match a
    case Find => None
    case Resize(_) => None
    case Add(e) => if Lookup(d, e.key).Some? then None else Some(e.key)
    case Replace(e) => if Lookup(d, e.key).Some? then None else Some(e.key)
    case Delete(k) => Some(k)
  }

  lemma AddKept<K, V>(d: Dict<K, V>, d': Dict<K, V>, e: Entry<K, V>, size: nat)
    requires Valid(d) && AddedVia(d, d', e, size)
    ensures Valid(d') && DictKept(d, d', if Lookup(d, e.key).Some? then None else Some(e.key))
  {
    hide Valid, Index, Get, TableKept, NothingBut, ValidTable;
    var x := if Lookup(d, e.key).Some? then None else Some(e.key);
    ResizedEffect(d, size);
    ResizeKept(d, size, x);
    var mid := ResizedTo(d, size);
    if x.Some? {
      assert Lookup(mid, e.key) == None;
      AddEntryEffect(mid, e);
      TableSame(mid.t0.buckets, x);
      TableSame(mid.t1.buckets, x);
      if mid.Rehashing() {
        InsertKept(d.hash, mid.t1, e);
      } else {
        InsertKept(d.hash, mid.t0, e);
      }
    }
  }

  lemma ReplaceKept<K, V>(d: Dict<K, V>, d': Dict<K, V>, e: Entry<K, V>, size: nat)
    requires Valid(d) && ReplacedVia(d, d', e, size)
    ensures Valid(d') && DictKept(d, d', if Lookup(d, e.key).Some? then None else Some(e.key))
  {
    hide Valid, Index, Get, TableKept, NothingBut, ValidTable, SetValue;
    if Lookup(d, e.key) == None {
      AddKept(d, d', e, size);
    } else {
      ResizedEffect(d, size);
      ResizeKept(d, size, None);
      var mid := ResizedTo(d, size);
      OverwriteEffect(mid, e.key, e.val);
      TableSame(mid.t0.buckets, None);
      TableSame(mid.t1.buckets, None);
      Nonempty(d, e.key);
      if Get(mid.hash, mid.t0, e.key).Some? {
        SetValueKept(d.hash, mid.t0, e.key, e.val);
      } else {
        SetValueKept(d.hash, mid.t1, e.key, e.val);
      }
    }
  }

  /** A key found while nothing is being rehashed is in the first table. */
  lemma Nonempty<K, V>(d: Dict<K, V>, k: K)
    requires Valid(d) && Lookup(d, k).Some?
    ensures d.t0.Size() > 0 && (Get(d.hash, d.t0, k).Some? || (d.Rehashing() && d.t1.Size() > 0))
  {
  }

  lemma DeleteKept<K, V>(d: Dict<K, V>, d': Dict<K, V>, k: K)
    requires Valid(d) && Deleted(d, d', k)
    ensures Valid(d') && DictKept(d, d', Some(k))
  {
    hide Valid, Index, Get, TableKept, NothingBut, ValidTable, Remove;
    TableSame(d.t0.buckets, Some(k));
    TableSame(d.t1.buckets, Some(k));
    if Lookup(d, k).Some? {
      Nonempty(d, k);
      UnlinkEffect(d, k);
      if Get(d.hash, d.t0, k).Some? {
        RemoveKept(d.hash, d.t0, k);
      } else {
        RemoveKept(d.hash, d.t1, k);
      }
    }
  }

  lemma ActionKept<K, V>(d: Dict<K, V>, d': Dict<K, V>, a: Action<K, V>)
    requires Valid(d) && Acts(d, d', a)
    ensures Valid(d') && DictKept(d, d', Touched(d, a))
  {
    hide Valid, Lookup, DictKept;
    match a
    case Find =>
      ResizeKept(d, 0, None);
    case Resize(size) =>
      ResizedEffect(d, size);
      ResizeKept(d, size, None);
    case Add(e) =>
      var size: nat :| AddedVia(d, d', e, size);
      AddKept(d, d', e, size);
    case Replace(e) =>
      var size: nat :| ReplacedVia(d, d', e, size);
      ReplaceKept(d, d', e, size);
    case Delete(x) =>
      DeleteKept(d, d', x);
  }

  /** The entry nextEntry points to is in the dictionary. */
  lemma NextIsThere<K, V>(d: Dict<K, V>, it: Iter<K>)
    requires Valid(d) && IterOk(d, it) && it.entry.Some? && it.next.Some?
    ensures Lookup(d, it.next.value).Some?
  {
    hide Get, Index;
    var b := Buckets(d, it.table);
    var p := Position(b[it.index], it.next.value);
    if it.table == 0 {
      Stored(d.hash, d.t0, it.index, p);
    } else {
      Stored(d.hash, d.t1, it.index, p);
    }
  }

  // ---------------------------------------------------------------- no entry remains twice

  lemma {:induction false} FlatSplit<K, V>(b: seq<seq<Entry<K, V>>>, i: nat)
    requires i <= |b|
    ensures Flat(b) == Flat(b[..i]) + From(b, i)
  {
    if i == 0 {
      assert b[0..] == b;
    } else {
      FlatSplit(b[1..], i - 1);
      assert b[1..][..i - 1] == b[..i][1..];
      assert b[1..][i - 1..] == b[i..];
      assert Flat(b) == b[0] + (Flat(b[..i][1..]) + Flat(b[i..]));
    }
  }

  ghost predicate IsSuffix<K, V>(s: seq<Entry<K, V>>, es: seq<Entry<K, V>>) {
    |s| <= |es| && s == es[|es| - |s|..]
  }

  lemma SuffixDistinct<K, V>(s: seq<Entry<K, V>>, es: seq<Entry<K, V>>)
    requires IsSuffix(s, es) && Distinct(es)
    ensures Distinct(s)
  {
  }

  lemma PartIsSuffix<K, V>(es: seq<Entry<K, V>>, a: seq<Entry<K, V>>, s: seq<Entry<K, V>>)
    requires es == a + s
    ensures IsSuffix(s, es)
  {
  }

  lemma SuffixPart<K, V>(c: seq<Entry<K, V>>, y: Option<K>)
    ensures |Suffix(c, y)| <= |c| && c == c[..|c| - |Suffix(c, y)|] + Suffix(c, y)
  {
    hide Position;
  }

  lemma ChainEnd<K, V>(b: seq<seq<Entry<K, V>>>, i: nat, y: Option<K>)
    requires i < |b|
    ensures IsSuffix(Suffix(b[i], y) + From(b, i + 1), Flat(b))
  {
    hide *;
    var c, pre, s := b[i], Flat(b[..i]), Suffix(b[i], y);
    FlatSplit(b, i);
    FromStep(b, i);
    SuffixPart(c, y);
    var head, rest := c[..|c| - |s|], From(b, i + 1);
    assert pre + ((head + s) + rest) == (pre + head) + (s + rest);
    PartIsSuffix(Flat(b), pre + head, s + rest);
  }

  lemma BucketsEnd<K, V>(b: seq<seq<Entry<K, V>>>, i: nat)
    ensures IsSuffix(From(b, i), Flat(b))
  {
    hide Flat, From;
    if i <= |b| {
      FlatSplit(b, i);
    } else {
      FromStep(b, i);
    }
  }

  lemma SuffixSum<K, V>(s: seq<Entry<K, V>>, es: seq<Entry<K, V>>, more: seq<Entry<K, V>>)
    requires IsSuffix(s, es)
    ensures IsSuffix(s + more, es + more) && IsSuffix(s, more + es)
  {
    assert s + more == (es + more)[|es| - |s|..];
    assert s == (more + es)[|more + es| - |s|..];
  }

  lemma RemainingIsSuffix<K, V>(d: Dict<K, V>, it: Iter<K>)
    requires Valid(d) && IterOk(d, it)
    ensures IsSuffix(Remaining(d, it), Flat(d.t0.buckets) + Flat(d.t1.buckets))
  {
    hide Flat, From, Has, Valid, Suffix, IsSuffix;
    Shape(d);
    FlatNothing<K, V>();
    var b := Buckets(d, it.table);
    var s := if it.entry.Some? then Suffix(b[it.index], it.next) else [];
    var own := s + From(b, it.index + 1);
    assert IsSuffix(own, Flat(b)) by {
      if it.entry.Some? {
        ChainEnd(b, it.index, it.next);
      } else {
        BucketsEnd(b, it.index + 1);
        assert own == From(b, it.index + 1);
      }
    }
    if it.table == 0 {
      SuffixSum(own, Flat(b), Flat(d.t1.buckets));
      assert Remaining(d, it) == own + Flat(d.t1.buckets);
    } else {
      SuffixSum(own, Flat(b), Flat(d.t0.buckets));
      assert Remaining(d, it) == own;
    }
  }

  lemma RemainingDistinct<K, V>(d: Dict<K, V>, it: Iter<K>)
    requires Valid(d) && IterOk(d, it)
    ensures Distinct(Remaining(d, it))
  {
    hide Valid, Remaining, Distinct, IsSuffix, Flat;
    AllDistinct(d);
    RemainingIsSuffix(d, it);
    SuffixDistinct(Remaining(d, it), Flat(d.t0.buckets) + Flat(d.t1.buckets));
  }

  // ---------------------------------------------------------------- a whole iteration

  /** The dictionary, the iterator, and what dictNext has returned so far. */
  datatype Sys<!K, V> = Sys(d: Dict<K, V>, it: Iter<K>, returned: seq<Entry<K, V>>)

  ghost predicate Calls<K, V>(s: Sys<K, V>, s': Sys<K, V>) {
    && IterOk(s.d, s.it)
    && s'.d == s.d.(iterators := if s.it.index == -1 then s.d.iterators + 1 else s.d.iterators)
    && (if Remaining(s.d, s.it) == [] then s'.returned == s.returned && Takes(s.d, s.it, s'.it, None)
        else s'.returned == s.returned + [Remaining(s.d, s.it)[0]] && Takes(s.d, s.it, s'.it, Some(Remaining(s.d, s.it)[0])))
  }

  /** Callers may delete any entry but the one nextEntry points to: the entry just returned, for one. */
  ghost predicate Meanwhile<K, V>(s: Sys<K, V>, s': Sys<K, V>, a: Action<K, V>) {
    && s'.it == s.it && s'.returned == s.returned
    && Acts(s.d, s'.d, a)
    && (a.Delete? ==> s.it.next != Some(a.key))
  }

  /** An iteration: steps[i] is None for a call of dictNext, or what the caller does instead. */
  ghost predicate Iteration<K, V>(ss: seq<Sys<K, V>>, steps: seq<Option<Action<K, V>>>) {
    && |steps| > 0 && |ss| == |steps| + 1
    && Valid(ss[0].d) && ss[0].it == Fresh() && ss[0].returned == [] && steps[0] == None
    && forall i :: 0 <= i < |steps| ==>
         if steps[i] == None then Calls(ss[i], ss[i + 1]) else Meanwhile(ss[i], ss[i + 1], steps[i].value)
  }

  /** How often an entry with key `k` was returned. */
  function Times<K(==), V>(es: seq<Entry<K, V>>, k: K): (n: nat) {
    if es == [] then 0 else Times(es[..|es| - 1], k) + (if es[|es| - 1].key == k then 1 else 0)
  }

  ghost predicate Inv<K, V>(s: Sys<K, V>) {
    Valid(s.d) && IterOk(s.d, s.it)
  }

  /** Once or still to come, for a key that is there. */
  ghost predicate Due<K, V>(s: Sys<K, V>, k: K)
    requires IterOk(s.d, s.it)
  {
    Times(s.returned, k) + (if Has(Remaining(s.d, s.it), k) then 1 else 0) == 1
  }

  lemma ItersDoNotMatter<K, V>(d: Dict<K, V>, n: nat, it: Iter<K>)
    requires Valid(d)
    ensures Valid(d.(iterators := n))
    ensures IterOk(d.(iterators := n), it) <==> IterOk(d, it)
    ensures IterOk(d, it) ==> Remaining(d.(iterators := n), it) == Remaining(d, it)
  {
    hide ValidTable, Suffix, Flat, From, Has, Get;
  }

  lemma CallKeepsDue<K, V>(s: Sys<K, V>, s': Sys<K, V>, k: K)
    requires Inv(s) && Calls(s, s')
    ensures Inv(s')
    ensures Due(s, k) ==> Due(s', k)
  {
    hide Valid, Remaining, Has;
    var todo := Remaining(s.d, s.it);
    ItersDoNotMatter(s.d, s'.d.iterators, s'.it);
    if todo != [] {
      RemainingDistinct(s.d, s.it);
      assert s'.returned[..|s'.returned| - 1] == s.returned;
      HeadOnce(todo, k);
    }
  }

  lemma HeadOnce<K, V>(es: seq<Entry<K, V>>, k: K)
    requires es != [] && Distinct(es)
    ensures Has(es, k) <==> es[0].key == k || Has(es[1..], k)
    ensures es[0].key == k ==> !Has(es[1..], k)
  {
  }

  lemma ActKept<K, V>(d: Dict<K, V>, d': Dict<K, V>, a: Action<K, V>, it: Iter<K>, k: K)
    requires Valid(d) && IterOk(d, it) && Acts(d, d', a)
    requires Lookup(d, k).Some? && Lookup(d', k).Some?
    requires a.Delete? ==> it.next != Some(a.key)
    ensures Valid(d') && IterOk(d', it)
    ensures Has(Remaining(d', it), k) <==> Has(Remaining(d, it), k)
  {
    hide Valid, Remaining, Has, Lookup, DictKept;
    ActionKept(d, d', a);
    if it.entry.Some? && it.next.Some? {
      NextIsThere(d, it);
    }
    NextDoesNotMatter(d, it);
    var it' := if it.entry.Some? then it else it.(next := None);
    RemainingKept(d, d', it', Touched(d, a), k);
    DeletedIsGone(d, d', a);
    NextDoesNotMatter(d', it);
  }

  lemma NextDoesNotMatter<K, V>(d: Dict<K, V>, it: Iter<K>)
    ensures it.entry == None ==> (IterOk(d, it) <==> IterOk(d, it.(next := None)))
    ensures it.entry == None && IterOk(d, it) ==> Remaining(d, it) == Remaining(d, it.(next := None))
  {
  }

  lemma DeletedIsGone<K, V>(d: Dict<K, V>, d': Dict<K, V>, a: Action<K, V>)
    requires Valid(d) && Acts(d, d', a)
    ensures a.Delete? ==> Lookup(d', a.key) == None
  {
    hide Valid, Lookup, Get;
    if a.Delete? && Lookup(d, a.key).Some? {
      UnlinkEffect(d, a.key);
    }
  }

  /** At the start everything is due. */
  lemma DueAtStart<K, V>(d: Dict<K, V>, k: K)
    requires Valid(d) && Lookup(d, k).Some?
    ensures IterOk(d, Fresh()) && Has(Remaining(d, Fresh()), k)
  {
    hide Index, From, Flat, Has;
    FromAll(d.t0.buckets);
    var more := if d.Rehashing() then Flat(d.t1.buckets) else [];
    HasSum([], Flat(d.t0.buckets) + more, k);
    HasSum(Flat(d.t0.buckets), more, k);
    HasFlat(d.t0.buckets, k);
    HasFlat(d.t1.buckets, k);
    if Get(d.hash, d.t0, k).Some? {
      HasBucket(d.hash, d.t0, k);
    } else {
      HasBucket(d.hash, d.t1, k);
    }
  }

  lemma HasBucket<K, V>(hash: K -> nat, t: Table<K, V>, k: K)
    requires Get(hash, t, k).Some?
    ensures t.Size() > 0 && Has(t.buckets[Index(hash(k), t.Size())], k)
  {
    hide Index;
  }

  lemma {:induction false} DueThroughout<K, V>(ss: seq<Sys<K, V>>, steps: seq<Option<Action<K, V>>>, k: K, m: nat)
    requires Iteration(ss, steps) && m <= |steps|
    requires forall i :: 0 <= i <= |steps| ==> Lookup(ss[i].d, k).Some?
    ensures Inv(ss[m]) && Due(ss[m], k)
    ensures m > 0 ==> ss[m].d.iterators > 0 && ss[m].it.index >= 0
  {
    hide Valid, Lookup, IterOk, Remaining, Has, Acts;
    if m == 0 {
      DueAtStart(ss[0].d, k);
    } else {
      DueThroughout(ss, steps, k, m - 1);
      var s, s' := ss[m - 1], ss[m - 1 + 1];
      if steps[m - 1] == None {
        CallKeepsDue(s, s', k);
        CallIsSafe(s, s');
      } else {
        assert Meanwhile(s, s', steps[m - 1].value);
        ActKept(s.d, s'.d, steps[m - 1].value, s.it, k);
        ActsKeepIterators(s.d, s'.d, steps[m - 1].value);
      }
    }
  }

  lemma CallIsSafe<K, V>(s: Sys<K, V>, s': Sys<K, V>)
    requires Calls(s, s') && (s.it.index >= 0 ==> s.d.iterators > 0)
    ensures s'.d.iterators > 0 && s'.it.index >= 0
  {
    hide Remaining;
  }

  lemma ActsKeepIterators<K, V>(d: Dict<K, V>, d': Dict<K, V>, a: Action<K, V>)
    requires Acts(d, d', a)
    ensures d'.iterators == d.iterators
  {
    hide Lookup, Get, Insert, SetValue, Remove, IsPow2;
    match a
    case Find =>
    case Resize(size) =>
    case Add(e) =>
      var size: nat :| AddedVia(d, d', e, size);
    case Replace(e) =>
      var size: nat :| ReplacedVia(d, d', e, size);
    case Delete(x) =>
  }

  /** A safe iterator returns every key that stays in the dictionary from the first call of
      dictNext to the one that returns NULL, exactly once; rehashing is held off meanwhile. */
  lemma SafeIteration<K, V>(ss: seq<Sys<K, V>>, steps: seq<Option<Action<K, V>>>, k: K)
    requires Iteration(ss, steps)
    requires forall i :: 0 <= i <= |steps| ==> Lookup(ss[i].d, k).Some?
    requires steps[|steps| - 1] == None && ss[|steps|].returned == ss[|steps| - 1].returned
    ensures Times(ss[|steps|].returned, k) == 1
    ensures forall i :: 0 < i <= |steps| ==> ss[i].d.iterators > 0
  {
    hide Valid, Lookup, Remaining, Has, Acts;
    forall i | 0 < i <= |steps|
      ensures ss[i].d.iterators > 0
    {
      DueThroughout(ss, steps, k, i);
    }
    var n := |steps|;
    DueThroughout(ss, steps, k, n - 1);
    var s := ss[n - 1];
    assert Calls(ss[n - 1], ss[n - 1 + 1]);
    assert Remaining(s.d, s.it) == [];
    HasNothing<K, V>(k);
  }
}
