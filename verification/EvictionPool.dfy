/** The eviction pool (`evict.c`): a 16-entry array kept in ascending idle order, whose entries share a
    fixed set of cached key buffers. */
module EvictionPool {
  import opened Options

  const EVPOOL_SIZE: nat := 16
  const EVPOOL_CACHED_SDS_SIZE: nat := 255

  type Key = seq<bv8>

  /** A key pointer: null, a string of its own, or the cached buffer with that number. */
  datatype Pointer = Null | Own(data: Key) | Buffer(id: nat)

  datatype PoolEntry = PoolEntry(idle: nat, key: Pointer, cached: nat, dbid: nat)

  /** What an occupied entry stands for. */
  datatype Item = Item(idle: nat, key: Key, dbid: nat)

  // ---------------------------------------------------------------- specification

  ghost predicate Ascending(c: seq<Item>) {
    forall i, j :: 0 <= i < j < |c| ==> c[i].idle <= c[j].idle
  }

  /** The first place whose item is at least as idle. */
  function Place(c: seq<Item>, idle: nat): (k: nat)
    ensures k <= |c|
    ensures forall i :: 0 <= i < k ==> c[i].idle < idle
    ensures k < |c| ==> c[k].idle >= idle
  {
    if c == [] || c[0].idle >= idle then 0 else 1 + Place(c[1..], idle)
  }

  /** The pool after offering it an item: full pools give up their first item for it, or refuse it. */
  function Offered(c: seq<Item>, x: Item): seq<Item> {
    var k := Place(c, x.idle);
    if |c| < EVPOOL_SIZE then c[..k] + [x] + c[k..]
    else if k == 0 then c
    else c[1..k] + [x] + c[k..]
  }

  /** What offering an item loses: nothing, the item itself, or the first item. */
  function Lost(c: seq<Item>, x: Item): seq<Item> {
    if |c| < EVPOOL_SIZE then [] else if Place(c, x.idle) == 0 then [x] else [c[0]]
  }

  lemma AscendingInsert(a: seq<Item>, x: Item, b: seq<Item>)
    requires Ascending(a + b)
    requires (forall i :: 0 <= i < |a| ==> a[i].idle <= x.idle) && (forall i :: 0 <= i < |b| ==> x.idle <= b[i].idle)
    ensures Ascending(a + [x] + b)
  {
    var c, d := a + b, a + [x] + b;
    forall i, j | 0 <= i < j < |d| ensures d[i].idle <= d[j].idle {
      if i < |a| && |a| < j {
        assert d[i] == c[i] && d[j] == c[j - 1];
      } else if j < |a| {
        assert d[i] == c[i] && d[j] == c[j];
      } else if |a| < i {
        assert d[i] == c[i - 1] && d[j] == c[j - 1];
      }
    }
  }

  lemma OfferedAscending(c: seq<Item>, x: Item)
    requires Ascending(c) && |c| <= EVPOOL_SIZE
    ensures Ascending(Offered(c, x)) && |Offered(c, x)| == if |c| < EVPOOL_SIZE then |c| + 1 else EVPOOL_SIZE
  {
    hide Place;
    var k := Place(c, x.idle);
    var full := |c| == EVPOOL_SIZE;
    if !full || k > 0 {
      var a := if full then c[1..k] else c[..k];
      assert a + c[k..] == if full then c[1..] else c;
      AscendingInsert(a, x, c[k..]);
    }
  }

  lemma OfferedMultiset(c: seq<Item>, x: Item)
    requires |c| <= EVPOOL_SIZE
    ensures multiset(Offered(c, x)) + multiset(Lost(c, x)) == multiset(c) + multiset{x}
  {
    hide Place;
    var k := Place(c, x.idle);
    if |c| < EVPOOL_SIZE {
      assert c == c[..k] + c[k..];
    } else if k > 0 {
      assert c == [c[0]] + c[1..k] + c[k..];
    }
  }

  /** Offering keeps the order and keeps the sixteen most idle of the old items and the new one. */
  lemma OfferedKeepsBest(c: seq<Item>, x: Item)
    requires Ascending(c) && |c| <= EVPOOL_SIZE
    ensures Ascending(Offered(c, x)) && |Offered(c, x)| == if |c| < EVPOOL_SIZE then |c| + 1 else EVPOOL_SIZE
    ensures multiset(Offered(c, x)) + multiset(Lost(c, x)) == multiset(c) + multiset{x}
    ensures forall y, z :: y in Lost(c, x) && z in Offered(c, x) ==> y.idle <= z.idle
  {
    hide Place;
    OfferedAscending(c, x);
    OfferedMultiset(c, x);
  }

  function OfferedAll(c: seq<Item>, xs: seq<Item>): seq<Item>
    decreases |xs|
  {
    if xs == [] then c else Offered(OfferedAll(c, xs[..|xs| - 1]), xs[|xs| - 1])
  }

  function LostAll(c: seq<Item>, xs: seq<Item>): seq<Item>
    decreases |xs|
  {
    if xs == [] then []
    else LostAll(c, xs[..|xs| - 1]) + Lost(OfferedAll(c, xs[..|xs| - 1]), xs[|xs| - 1])
  }

  /** What was lost earlier is no more idle than what a full pool keeps after one more offer. */
  lemma LostStaysBelow(c: seq<Item>, x: Item, y: Item)
    requires Ascending(c) && |c| == EVPOOL_SIZE && forall z :: z in c ==> y.idle <= z.idle
    ensures forall z :: z in Offered(c, x) ==> y.idle <= z.idle
  {
    hide Place;
    assert y.idle <= c[0].idle;
  }

  lemma OfferedAllStep(c: seq<Item>, xs: seq<Item>)
    requires xs != []
    ensures var d := OfferedAll(c, xs[..|xs| - 1]);
      && OfferedAll(c, xs) == Offered(d, xs[|xs| - 1])
      && LostAll(c, xs) == LostAll(c, xs[..|xs| - 1]) + Lost(d, xs[|xs| - 1])
  {
    hide Offered, Lost;
  }

  lemma AddUp<T>(kept: multiset<T>, lost: multiset<T>, d: multiset<T>, x: T, lostBefore: multiset<T>,
                 c: multiset<T>, xs: multiset<T>)
    requires kept + lost == d + multiset{x} && d + lostBefore == c + xs
    ensures kept + (lostBefore + lost) == c + (xs + multiset{x})
  {
    assert kept + (lostBefore + lost) == (kept + lost) + lostBefore;
    assert (d + multiset{x}) + lostBefore == (d + lostBefore) + multiset{x};
    assert (c + xs) + multiset{x} == c + (xs + multiset{x});
  }

  lemma {:induction false} OfferedAllMultiset(c: seq<Item>, xs: seq<Item>)
    requires |c| <= EVPOOL_SIZE
    ensures |OfferedAll(c, xs)| <= EVPOOL_SIZE
    ensures multiset(OfferedAll(c, xs)) + multiset(LostAll(c, xs)) == multiset(c) + multiset(xs)
    decreases |xs|
  {
    hide Offered, Lost;
    if xs != [] {
      hide OfferedAll, LostAll;
      var init, x := xs[..|xs| - 1], xs[|xs| - 1];
      var d := OfferedAll(c, init);
      OfferedAllStep(c, xs);
      OfferedAllMultiset(c, init);
      OfferedMultiset(d, x);
      OfferedSize(d, x);
      assert xs == init + [x];
      AddUp(multiset(Offered(d, x)), multiset(Lost(d, x)), multiset(d), x, multiset(LostAll(c, init)),
        multiset(c), multiset(init));
    }
  }

  lemma OfferedSize(c: seq<Item>, x: Item)
    requires |c| <= EVPOOL_SIZE
    ensures |Offered(c, x)| == if |c| < EVPOOL_SIZE then |c| + 1 else EVPOOL_SIZE
  {
    hide Place;
  }

  lemma {:induction false} OfferedAllOrder(c: seq<Item>, xs: seq<Item>)
    requires Ascending(c) && |c| <= EVPOOL_SIZE
    ensures Ascending(OfferedAll(c, xs))
    ensures |OfferedAll(c, xs)| == if |c| + |xs| < EVPOOL_SIZE then |c| + |xs| else EVPOOL_SIZE
    ensures forall y, z :: y in LostAll(c, xs) && z in OfferedAll(c, xs) ==> y.idle <= z.idle
    ensures LostAll(c, xs) != [] ==> |OfferedAll(c, xs)| == EVPOOL_SIZE
    decreases |xs|
  {
    hide Offered, Lost, Ascending;
    if xs != [] {
      hide OfferedAll, LostAll;
      var init, x := xs[..|xs| - 1], xs[|xs| - 1];
      var d := OfferedAll(c, init);
      OfferedAllStep(c, xs);
      OfferedAllOrder(c, init);
      OfferedKeepsBest(d, x);
      LostOnlyWhenFull(d, x);
      forall y, z | y in LostAll(c, xs) && z in OfferedAll(c, xs) ensures y.idle <= z.idle {
        if y in LostAll(c, init) {
          LostStaysBelow(d, x, y);
        }
      }
    }
  }

  /** Offering any number of items keeps the sixteen most idle of the old items and the new ones. */
  lemma OfferedAllKeepsBest(c: seq<Item>, xs: seq<Item>)
    requires Ascending(c) && |c| <= EVPOOL_SIZE
    ensures Ascending(OfferedAll(c, xs))
    ensures |OfferedAll(c, xs)| == if |c| + |xs| < EVPOOL_SIZE then |c| + |xs| else EVPOOL_SIZE
    ensures multiset(OfferedAll(c, xs)) + multiset(LostAll(c, xs)) == multiset(c) + multiset(xs)
    ensures forall y, z :: y in LostAll(c, xs) && z in OfferedAll(c, xs) ==> y.idle <= z.idle
  {
    hide OfferedAll, LostAll, Ascending;
    OfferedAllMultiset(c, xs);
    OfferedAllOrder(c, xs);
  }

  lemma LostOnlyWhenFull(c: seq<Item>, x: Item)
    ensures Lost(c, x) != [] ==> |c| >= EVPOOL_SIZE
  {
  }

  /** The index after the last item that still exists, or zero. */
  function Best(c: seq<Item>, live: set<(nat, Key)>): (k: nat)
    ensures k <= |c|
    ensures k > 0 ==> (c[k - 1].dbid, c[k - 1].key) in live
    ensures forall i :: k <= i < |c| ==> (c[i].dbid, c[i].key) !in live
  {
    if c == [] then 0
    else if (c[|c| - 1].dbid, c[|c| - 1].key) in live then |c|
    else Best(c[..|c| - 1], live)
  }

  // ---------------------------------------------------------------- the array

  /** The cached buffers of the entries are a permutation of the sixteen buffers: sixteen different
      numbers below sixteen. */
  ghost predicate CachedApart(es: seq<PoolEntry>) {
    && (forall i :: 0 <= i < |es| ==> es[i].cached < EVPOOL_SIZE)
    && (forall i, j :: 0 <= i < j < |es| ==> es[i].cached != es[j].cached)
  }

  function KeyOf(e: PoolEntry, buffers: seq<Key>): Key {
    match e.key
    case Own(data) => data
    case Buffer(id) => if id < |buffers| then buffers[id] else []
    case Null => []
  }

  function ItemOf(e: PoolEntry, buffers: seq<Key>): Item {
    Item(e.idle, KeyOf(e, buffers), e.dbid)
  }

  /** The first `n` entries, as items. */
  function Items(es: seq<PoolEntry>, buffers: seq<Key>, n: nat): (c: seq<Item>)
    requires n <= |es|
    ensures |c| == n
  {
    seq(n, i requires 0 <= i < n <= |es| => ItemOf(es[i], buffers))
  }

  /** The first `n` entries are the occupied ones, in ascending idle order; a key in a buffer is in the
      buffer of its own entry. */
  ghost predicate Good(es: seq<PoolEntry>, buffers: seq<Key>, n: nat) {
    && |es| == |buffers| == EVPOOL_SIZE && n <= EVPOOL_SIZE
    && (forall i :: 0 <= i < EVPOOL_SIZE ==> (es[i].key.Null? <==> n <= i))
    && (forall i :: 0 <= i < EVPOOL_SIZE && es[i].key.Buffer? ==> es[i].key.id == es[i].cached)
    && CachedApart(es)
    && Ascending(Items(es, buffers, n))
  }

  /** Making room at `k`: shifting right into the free entries, or left over the first one. Either way
      the freed buffer goes to the vacated entry. */
  function Opened(es: seq<PoolEntry>, k: nat, full: bool): (r: seq<PoolEntry>)
    requires k < |es|
    ensures |r| == |es|
  {
    if full then es[1..k + 1] + [es[k].(cached := es[0].cached)] + es[k + 1..]
    else es[..k] + [es[k].(cached := es[|es| - 1].cached)] + es[k..|es| - 1]
  }

  /** Where the entry at `i` comes from. */
  function Source(n: nat, k: nat, full: bool, i: nat): nat
    requires n > 0
  {
    if full then (if i < k then i + 1 else if i == k then 0 else i)
    else (if i < k then i else if i == k then n - 1 else i - 1)
  }

  lemma OpenedAt(es: seq<PoolEntry>, k: nat, full: bool, i: nat)
    requires k < |es| && i < |es|
    ensures Source(|es|, k, full, i) < |es| && Opened(es, k, full)[i].cached == es[Source(|es|, k, full, i)].cached
    ensures i != k ==> Opened(es, k, full)[i] == es[Source(|es|, k, full, i)]
  {
  }

  lemma OpenedApart(es: seq<PoolEntry>, k: nat, full: bool)
    requires k < |es| && CachedApart(es)
    ensures CachedApart(Opened(es, k, full))
  {
    hide Opened;
    var r := Opened(es, k, full);
    forall i | 0 <= i < |r| ensures r[i].cached < EVPOOL_SIZE { OpenedAt(es, k, full, i); }
    forall i, j | 0 <= i < j < |r| ensures r[i].cached != r[j].cached {
      OpenedAt(es, k, full, i);
      OpenedAt(es, k, full, j);
    }
  }

  /** The new entry: a short key goes into the cached buffer, a long one is copied. */
  function Entered(e: PoolEntry, idle: nat, key: Key, dbid: nat): PoolEntry {
    PoolEntry(idle, if |key| > EVPOOL_CACHED_SDS_SIZE then Own(key) else Buffer(e.cached), e.cached, dbid)
  }

  function Written(buffers: seq<Key>, e: PoolEntry, key: Key): (r: seq<Key>)
    ensures |r| == |buffers|
  {
    if |key| > EVPOOL_CACHED_SDS_SIZE || e.cached >= |buffers| then buffers else buffers[e.cached := key]
  }

  /** Writing the new key disturbs no other entry's key: they use other buffers. */
  lemma WrittenKeeps(es: seq<PoolEntry>, buffers: seq<Key>, k: nat, key: Key, i: nat)
    requires CachedApart(es) && k < |es| && i < |es| && i != k
    requires es[i].key.Buffer? ==> es[i].key.id == es[i].cached
    ensures KeyOf(es[i], Written(buffers, es[k], key)) == KeyOf(es[i], buffers)
  {
  }

  /** Entering `x` at `at`: that entry becomes `x` and every other item stays. */
  lemma EnteredItems(es: seq<PoolEntry>, buffers: seq<Key>, at: nat, x: Item, i: nat)
    requires |es| == |buffers| == EVPOOL_SIZE && CachedApart(es) && at < EVPOOL_SIZE && i < EVPOOL_SIZE
    requires i != at && es[i].key.Buffer? ==> es[i].key.id == es[i].cached
    ensures var es' := es[at := Entered(es[at], x.idle, x.key, x.dbid)];
      ItemOf(es'[i], Written(buffers, es[at], x.key)) == if i == at then x else ItemOf(es[i], buffers)
  {
    hide KeyOf;
    if i != at {
      WrittenKeeps(es, buffers, at, x.key, i);
    } else {
      EnteredKey(es[at], x, buffers);
    }
  }

  lemma EnteredKey(e: PoolEntry, x: Item, buffers: seq<Key>)
    requires e.cached < |buffers|
    ensures KeyOf(Entered(e, x.idle, x.key, x.dbid), Written(buffers, e, x.key)) == x.key
  {
  }

  /** The state of the array after the loop body of evictionPoolPopulate placed an item at `k`. */
  function Placed(es: seq<PoolEntry>, n: nat, k: nat): (r: (seq<PoolEntry>, nat))
    requires |es| == EVPOOL_SIZE && k <= n <= EVPOOL_SIZE && (n == EVPOOL_SIZE ==> k > 0)
    ensures |r.0| == EVPOOL_SIZE && r.1 < EVPOOL_SIZE
  {
    if n == EVPOOL_SIZE then (Opened(es, k - 1, true), k - 1)
    else if k == n then (es, k)
    else (Opened(es, k, false), k)
  }

  lemma PlacedAt(es: seq<PoolEntry>, n: nat, k: nat, i: nat)
    requires |es| == EVPOOL_SIZE && k <= n <= EVPOOL_SIZE && (n == EVPOOL_SIZE ==> k > 0) && i < EVPOOL_SIZE
    ensures var (r, at) := Placed(es, n, k);
      && at == (if n == EVPOOL_SIZE then k - 1 else k)
      && (i != at ==> r[i] == es[if n == EVPOOL_SIZE then (if i < at then i + 1 else i)
                                 else if k == n || i < k then i else i - 1])
  {
    hide Opened;
    if n == EVPOOL_SIZE {
      OpenedAt(es, k - 1, true, i);
    } else if k < n {
      OpenedAt(es, k, false, i);
    }
  }

  lemma PlacedApart(es: seq<PoolEntry>, n: nat, k: nat)
    requires |es| == EVPOOL_SIZE && k <= n <= EVPOOL_SIZE && (n == EVPOOL_SIZE ==> k > 0) && CachedApart(es)
    ensures CachedApart(Placed(es, n, k).0)
  {
    hide Opened, CachedApart;
    if n == EVPOOL_SIZE {
      OpenedApart(es, k - 1, true);
    } else if k < n {
      OpenedApart(es, k, false);
    }
  }

  function Grown(n: nat): nat {
    if n < EVPOOL_SIZE then n + 1 else n
  }

  /** The entries after the item is written at its place. */
  lemma InsertItems(es: seq<PoolEntry>, buffers: seq<Key>, n: nat, k: nat, x: Item)
    requires Good(es, buffers, n) && k <= n && (n == EVPOOL_SIZE ==> k > 0) && k == Place(Items(es, buffers, n), x.idle)
    ensures var (r, at) := Placed(es, n, k);
      var es' := r[at := Entered(r[at], x.idle, x.key, x.dbid)];
      Items(es', Written(buffers, r[at], x.key), Grown(n)) == Offered(Items(es, buffers, n), x)
  {
    hide Place, Placed, KeyOf, Entered, Written, CachedApart, ItemOf, Ascending;
    var c := Items(es, buffers, n);
    var (r, at) := Placed(es, n, k);
    PlacedApart(es, n, k);
    var es' := r[at := Entered(r[at], x.idle, x.key, x.dbid)];
    var b' := Written(buffers, r[at], x.key);
    OfferedSize(c, x);
    forall i: nat | i < Grown(n) ensures Items(es', b', Grown(n))[i] == Offered(c, x)[i] {
      PlacedAt(es, n, k, i);
      EnteredItems(r, buffers, at, x, i);
    }
  }

  lemma InsertFlags(es: seq<PoolEntry>, buffers: seq<Key>, n: nat, k: nat, x: Item)
    requires Good(es, buffers, n) && k <= n && (n == EVPOOL_SIZE ==> k > 0)
    ensures var (r, at) := Placed(es, n, k);
      var es' := r[at := Entered(r[at], x.idle, x.key, x.dbid)];
      && CachedApart(es')
      && forall i :: 0 <= i < EVPOOL_SIZE ==>
           (es'[i].key.Null? <==> Grown(n) <= i) && (es'[i].key.Buffer? ==> es'[i].key.id == es'[i].cached)
  {
    hide Placed, KeyOf, Entered, CachedApart, Items, Ascending;
    var (r, at) := Placed(es, n, k);
    PlacedApart(es, n, k);
    EnteredKeepsApart(r, at, x);
    var es' := r[at := Entered(r[at], x.idle, x.key, x.dbid)];
    forall i: nat | i < EVPOOL_SIZE
      ensures es'[i].key.Null? <==> Grown(n) <= i
      ensures es'[i].key.Buffer? ==> es'[i].key.id == es'[i].cached
    {
      PlacedAt(es, n, k, i);
      EnteredIs(r[at], x);
    }
  }

  /** The array holds what the specification says, in the right order, with its buffers still apart. */
  lemma InsertGood(es: seq<PoolEntry>, buffers: seq<Key>, n: nat, x: Item)
    requires Good(es, buffers, n)
    requires var k := Place(Items(es, buffers, n), x.idle); !(n == EVPOOL_SIZE && k == 0)
    ensures var k := Place(Items(es, buffers, n), x.idle);
      var (r, at) := Placed(es, n, k);
      var es' := r[at := Entered(r[at], x.idle, x.key, x.dbid)];
      var b' := Written(buffers, r[at], x.key);
      Good(es', b', Grown(n)) && Items(es', b', Grown(n)) == Offered(Items(es, buffers, n), x)
  {
    hide Place, Placed, KeyOf, Entered, Written, CachedApart, ItemOf, Ascending, Items, Offered;
    var k := Place(Items(es, buffers, n), x.idle);
    InsertItems(es, buffers, n, k, x);
    InsertFlags(es, buffers, n, k, x);
    OfferedAscending(Items(es, buffers, n), x);
  }

  lemma EnteredIs(e: PoolEntry, x: Item)
    ensures var d := Entered(e, x.idle, x.key, x.dbid);
      !d.key.Null? && (d.key.Buffer? ==> d.key.id == d.cached) && d.cached == e.cached
  {
  }

  lemma EnteredKeepsApart(es: seq<PoolEntry>, at: nat, x: Item)
    requires CachedApart(es) && at < |es|
    ensures CachedApart(es[at := Entered(es[at], x.idle, x.key, x.dbid)])
  {
    EnteredIs(es[at], x);
  }

  // ---------------------------------------------------------------- the pool

  class Pool {
    const entries: array<PoolEntry>
    const buffers: array<Key>
    /** How many entries are occupied. */
    ghost var used: nat

    ghost predicate Valid()
      reads this, entries, buffers
    {
      entries as object != buffers && Good(entries[..], buffers[..], used)
    }

    /** The occupied entries, as items. */
    ghost function Contents(): seq<Item>
      requires used <= entries.Length
      reads this, entries, buffers
    {
      Items(entries[..], buffers[..], used)
    }

    /** evictionPoolAlloc. */
    constructor ()
      ensures Valid() && Contents() == [] && fresh(entries) && fresh(buffers)
    {
      entries := new PoolEntry[EVPOOL_SIZE](i requires i >= 0 => PoolEntry(0, Null, i, 0));
      buffers := new Key[EVPOOL_SIZE](_ => []);
      used := 0;
    }

    /** The search of evictionPoolPopulate: the first empty entry, or the first that is at least as idle. */
    method FindPlace(idle: nat) returns (k: nat)
      requires Valid()
      ensures k == Place(Contents(), idle)
    {
      hide Place, KeyOf, CachedApart, Ascending;
      k := 0;
      while k < EVPOOL_SIZE && !entries[k].key.Null? && entries[k].idle < idle
        invariant k <= used
        invariant forall i :: 0 <= i < k ==> Contents()[i].idle < idle
      {
        assert Contents()[k].idle == entries[k].idle;
        k := k + 1;
      }
      assert k < used ==> Contents()[k].idle == entries[k].idle;
    }

    /** Making room at `k` and passing on the freed buffer. */
    method Open(k: nat, full: bool)
      requires k < entries.Length
      modifies entries
      ensures entries[..] == Opened(old(entries[..]), k, full)
    {
      ghost var es := entries[..];
      if full {
        var cached := entries[0].cached;
        forall i | 0 <= i < k { entries[i] := entries[i + 1]; }
        entries[k] := entries[k].(cached := cached);
      } else {
        var cached := entries[entries.Length - 1].cached;
        forall i | k + 1 <= i < entries.Length { entries[i] := entries[i - 1]; }
        entries[k] := entries[k].(cached := cached);
      }
    }

    /** One round of the loop of evictionPoolPopulate. */
    method Insert(idle: nat, key: Key, dbid: nat)
      requires Valid()
      modifies this, entries, buffers
      ensures Valid() && Contents() == Offered(old(Contents()), Item(idle, key, dbid))
    {
      hide Place, KeyOf, CachedApart, Ascending, Items, Opened, Entered, Written;
      ghost var es, bs, x := entries[..], buffers[..], Item(idle, key, dbid);
      var k := FindPlace(idle);
      if k == 0 && !entries[EVPOOL_SIZE - 1].key.Null? {
        assert Contents() == Offered(Contents(), x);
        return;
      } else if k < EVPOOL_SIZE && entries[k].key.Null? {
      } else {
        if entries[EVPOOL_SIZE - 1].key.Null? {
          Open(k, false);
        } else {
          k := k - 1;
          Open(k, true);
        }
      }
      ghost var r := entries[..];
      InsertGood(es, bs, used, x);
      assert r == Placed(es, used, Place(Items(es, bs, used), idle)).0;
      PlacedApart(es, used, Place(Items(es, bs, used), idle));
      CachedBelow(r, k);
      if |key| > EVPOOL_CACHED_SDS_SIZE {
        entries[k] := entries[k].(key := Own(key));
      } else {
        buffers[entries[k].cached] := key;
        entries[k] := entries[k].(key := Buffer(entries[k].cached));
      }
      entries[k] := entries[k].(idle := idle, dbid := dbid);
      assert entries[..] == r[k := Entered(r[k], idle, key, dbid)] by { EnteredFields(r[k], idle, key, dbid); }
      assert buffers[..] == Written(bs, r[k], key) by { WrittenBuffers(bs, r[k], key); }
      used := Grown(used);
    }

    /** evictionPoolPopulate over the sampled keys and their idle scores. */
    method Populate(samples: seq<Item>)
      requires Valid()
      modifies this, entries, buffers
      ensures Valid() && Contents() == OfferedAll(old(Contents()), samples)
    {
      hide CachedApart, Offered, Items, Ascending;
      ghost var c := Contents();
      for j := 0 to |samples|
        invariant Valid() && used <= entries.Length && Contents() == OfferedAll(c, samples[..j])
      {
        assert samples[..j + 1][..j] == samples[..j];
        Insert(samples[j].idle, samples[j].key, samples[j].dbid);
        assert samples[j] == Item(samples[j].idle, samples[j].key, samples[j].dbid);
      }
      assert samples[..|samples|] == samples;
    }

    /** The pop loop of freeMemoryIfNeeded: entries are taken from the most idle down, and those whose
        key is gone are dropped on the way. */
    method PopBest(live: set<(nat, Key)>) returns (best: Option<Item>)
      requires Valid()
      modifies this, entries
      ensures Valid()
      ensures var c, k := old(Contents()), Best(old(Contents()), live);
        && Contents() == (if k == 0 then [] else c[..k - 1])
        && best == (if k == 0 then None else Some(c[k - 1]))
    {
      hide KeyOf, Best;
      best := None;
      ghost var c := Contents();
      var k := EVPOOL_SIZE - 1;
      while k >= 0
        invariant -1 <= k < EVPOOL_SIZE && Valid() && used <= k + 1
        invariant used <= |c| && Contents() == c[..used]
        invariant forall i :: used <= i < |c| ==> (c[i].dbid, c[i].key) !in live
        decreases k
      {
        if !entries[k].key.Null? {
          var e := entries[k];
          var item := ItemOf(e, buffers[..]);
          assert item == c[k];
          Vacated(entries[..], buffers[..], used);
          entries[k] := entries[k].(key := Null, idle := 0);
          used := used - 1;
          if (item.dbid, item.key) in live {
            best := Some(item);
            BestIs(c, live, k + 1);
            return;
          }
        }
        k := k - 1;
      }
      BestIs(c, live, 0);
    }
  }

  lemma CachedBelow(es: seq<PoolEntry>, i: nat)
    requires CachedApart(es) && i < |es|
    ensures es[i].cached < EVPOOL_SIZE
  {
  }

  /** Emptying the last occupied entry. */
  lemma Vacated(es: seq<PoolEntry>, buffers: seq<Key>, n: nat)
    requires Good(es, buffers, n) && n > 0
    ensures var es' := es[n - 1 := es[n - 1].(key := Null, idle := 0)];
      Good(es', buffers, n - 1) && Items(es', buffers, n - 1) == Items(es, buffers, n)[..n - 1]
  {
    hide KeyOf;
    var es' := es[n - 1 := es[n - 1].(key := Null, idle := 0)];
    assert Items(es', buffers, n - 1) == Items(es, buffers, n)[..n - 1];
  }

  lemma BestIs(c: seq<Item>, live: set<(nat, Key)>, k: nat)
    requires k <= |c| && (k > 0 ==> (c[k - 1].dbid, c[k - 1].key) in live)
    requires forall i :: k <= i < |c| ==> (c[i].dbid, c[i].key) !in live
    ensures Best(c, live) == k
  {
    hide Best;
  }

  lemma EnteredFields(e: PoolEntry, idle: nat, key: Key, dbid: nat)
    ensures Entered(e, idle, key, dbid) ==
      e.(idle := idle, dbid := dbid, key := if |key| > EVPOOL_CACHED_SDS_SIZE then Own(key) else Buffer(e.cached))
  {
  }

  lemma WrittenBuffers(buffers: seq<Key>, e: PoolEntry, key: Key)
    requires e.cached < |buffers|
    ensures Written(buffers, e, key) == if |key| > EVPOOL_CACHED_SDS_SIZE then buffers else buffers[e.cached := key]
  {
  }
}
