/**
 The dictionary of dict.c as a value: two tables, the rehash index and the count of running
 safe iterators; the invariant that every operation keeps; and the one map the two tables
 denote together.

 `hash` is the value dictHashKey has once a lookup has stored it in its `unsigned int`.
 */
module DictState {
  import opened Options
  import opened Table

  datatype Dict<!K, V> = Dict(hash: K -> nat, t0: Table<K, V>, t1: Table<K, V>, rehashidx: int, iterators: nat) {
    /** dictIsRehashing */
    predicate Rehashing() {
      rehashidx != -1
    }

    /** dictSize */
    function Count(): (n: nat) {
      t0.used + t1.used
    }
  }

  /** No key is stored in both tables. */
  ghost predicate Apart<K, V>(d: Dict<K, V>) {
    forall i, p {:trigger d.t0.buckets[i][p]} ::
      0 <= i < d.t0.Size() && 0 <= p < |d.t0.buckets[i]| ==> Get(d.hash, d.t1, d.t0.buckets[i][p].key) == None
  }

  ghost predicate Valid<K, V>(d: Dict<K, V>) {
    && ValidTable(d.hash, d.t0)
    && ValidTable(d.hash, d.t1)
    && (if d.Rehashing() then
          && 0 <= d.rehashidx <= d.t0.Size()
          && d.t0.Size() > 0 && d.t1.Size() > 0
          && (forall i :: 0 <= i < d.rehashidx ==> d.t0.buckets[i] == [])
          && Apart(d)
        else
          d.t1 == Reset())
  }

  /** The value the dictionary holds under `k`, in whichever table it sits. */
  function Lookup<K(==), V>(d: Dict<K, V>, k: K): (r: Option<V>) {
    var r := Get(d.hash, d.t0, k);
    if r.Some? then r else Get(d.hash, d.t1, k)
  }

  lemma ApartLookup<K, V>(d: Dict<K, V>, k: K)
    requires Valid(d)
    ensures Get(d.hash, d.t0, k) == None || Get(d.hash, d.t1, k) == None
  {
    hide Index;
    if Get(d.hash, d.t0, k).Some? && d.Rehashing() {
      var i := Index(d.hash(k), d.t0.Size());
      var p := Position(d.t0.buckets[i], k);
      assert d.t0.buckets[i][p].key == k;
    }
  }

  /** The entries of the first table that a lookup misses there are nowhere in it. */
  lemma ApartFromLookups<K, V>(d: Dict<K, V>)
    requires ValidTable(d.hash, d.t0)
    requires forall k :: Get(d.hash, d.t0, k) == None || Get(d.hash, d.t1, k) == None
    ensures Apart(d)
  {
    hide Index, Get;
    forall i, p | 0 <= i < d.t0.Size() && 0 <= p < |d.t0.buckets[i]|
      ensures Get(d.hash, d.t1, d.t0.buckets[i][p].key) == None
    {
      Stored(d.hash, d.t0, i, p);
    }
  }

  // ---------------------------------------------------------------- the map

  function Flat<K, V>(buckets: seq<seq<Entry<K, V>>>): (es: seq<Entry<K, V>>) {
    if buckets == [] then [] else buckets[0] + Flat(buckets[1..])
  }

  ghost function MapOf<K, V>(es: seq<Entry<K, V>>): (m: map<K, V>) {
    if es == [] then map[] else MapOf(es[1..])[es[0].key := es[0].val]
  }

  /** The map the dictionary stands for. */
  ghost function Contents<K, V>(d: Dict<K, V>): (m: map<K, V>) {
    MapOf(Flat(d.t0.buckets) + Flat(d.t1.buckets))
  }

  ghost predicate Distinct<K, V>(es: seq<Entry<K, V>>) {
    forall p, q :: 0 <= p < q < |es| ==> es[p].key != es[q].key
  }

  lemma {:induction false} MapOfDistinct<K, V>(es: seq<Entry<K, V>>)
    requires Distinct(es)
    ensures |MapOf(es)| == |es|
    ensures forall p :: 0 <= p < |es| ==> es[p].key in MapOf(es) && MapOf(es)[es[p].key] == es[p].val
    ensures forall k :: k in MapOf(es) ==> exists p :: 0 <= p < |es| && es[p].key == k
  {
    if es != [] {
      var rest := es[1..];
      MapOfDistinct(rest);
      assert forall p :: 0 <= p < |rest| ==> rest[p] == es[p + 1];
      assert es[0].key !in MapOf(rest);
      assert |MapOf(es)| == |MapOf(rest)| + 1;
      forall p | 0 <= p < |es|
        ensures es[p].key in MapOf(es) && MapOf(es)[es[p].key] == es[p].val
      {
        if p > 0 {
          assert es[p] == rest[p - 1];
        }
      }
      forall k | k in MapOf(es)
        ensures exists p :: 0 <= p < |es| && es[p].key == k
      {
        if k != es[0].key {
          var p :| 0 <= p < |rest| && rest[p].key == k;
          assert es[p + 1].key == k;
        }
      }
    }
  }

  lemma {:induction false} FlatLength<K, V>(buckets: seq<seq<Entry<K, V>>>)
    ensures |Flat(buckets)| == Total(buckets)
  {
    if buckets != [] {
      FlatLength(buckets[1..]);
    }
  }

  lemma {:induction false} FlatHas<K, V>(buckets: seq<seq<Entry<K, V>>>, i: nat, p: nat)
    requires i < |buckets| && p < |buckets[i]|
    ensures buckets[i][p] in Flat(buckets)
  {
    if i > 0 {
      FlatHas(buckets[1..], i - 1, p);
    }
  }

  lemma {:induction false} FlatOrigin<K, V>(buckets: seq<seq<Entry<K, V>>>, e: Entry<K, V>) returns (i: nat, p: nat)
    requires e in Flat(buckets)
    ensures i < |buckets| && p < |buckets[i]| && buckets[i][p] == e
  {
    if e in buckets[0] {
      i := 0;
      p :| 0 <= p < |buckets[0]| && buckets[0][p] == e;
    } else {
      i, p := FlatOrigin(buckets[1..], e);
      i := i + 1;
    }
  }

  /** Different places hold different keys. */
  ghost predicate KeysApart<K, V>(buckets: seq<seq<Entry<K, V>>>) {
    forall i, p, j, q {:trigger buckets[i][p], buckets[j][q]} ::
      (&& 0 <= i < |buckets| && 0 <= p < |buckets[i]| && 0 <= j < |buckets| && 0 <= q < |buckets[j]|
       && buckets[i][p].key == buckets[j][q].key) ==> i == j && p == q
  }

  lemma {:induction false} FlatDistinct<K, V>(buckets: seq<seq<Entry<K, V>>>)
    requires KeysApart(buckets)
    ensures Distinct(Flat(buckets))
  {
    if buckets != [] {
      var head: seq<Entry<K, V>>, rest: seq<seq<Entry<K, V>>> := buckets[0], buckets[1..];
      forall i, p, j, q | 0 <= i < |rest| && 0 <= p < |rest[i]| && 0 <= j < |rest| && 0 <= q < |rest[j]|
                          && rest[i][p].key == rest[j][q].key
        ensures i == j && p == q
      {
        assert buckets[i + 1][p].key == buckets[j + 1][q].key;
      }
      FlatDistinct(rest);
      var es := Flat(buckets);
      forall p, q | 0 <= p < q < |es|
        ensures es[p].key != es[q].key
      {
        if q < |head| {
          assert buckets[0][p].key != buckets[0][q].key;
        } else if p < |head| {
          var j, r := FlatOrigin(rest, es[q]);
          assert buckets[j + 1][r] == es[q] && buckets[0][p] == es[p];
        }
      }
    }
  }

  lemma TableKeysApart<K, V>(hash: K -> nat, t: Table<K, V>)
    requires ValidTable(hash, t)
    ensures KeysApart(t.buckets)
  {
    hide Get, Index;
    forall i, p, j, q | 0 <= i < t.Size() && 0 <= p < |t.buckets[i]| && 0 <= j < t.Size() && 0 <= q < |t.buckets[j]|
                        && t.buckets[i][p].key == t.buckets[j][q].key
      ensures i == j && p == q
    {
      Stored(hash, t, i, p);
      Stored(hash, t, j, q);
    }
  }

  lemma AllDistinct<K, V>(d: Dict<K, V>)
    requires Valid(d)
    ensures Distinct(Flat(d.t0.buckets) + Flat(d.t1.buckets))
  {
    hide Get, Index, Flat, KeysApart, Valid;
    TableKeysApart(d.hash, d.t0) by { ValidTables(d); }
    TableKeysApart(d.hash, d.t1) by { ValidTables(d); }
    FlatDistinct(d.t0.buckets);
    FlatDistinct(d.t1.buckets);
    var f0, f1 := Flat(d.t0.buckets), Flat(d.t1.buckets);
    forall p, q | 0 <= p < |f0| && 0 <= q < |f1|
      ensures f0[p].key != f1[q].key
    {
      var i, r := FlatOrigin(d.t0.buckets, f0[p]);
      var j, s := FlatOrigin(d.t1.buckets, f1[q]);
      ValidTables(d);
      Stored(d.hash, d.t0, i, r);
      Stored(d.hash, d.t1, j, s);
      ApartLookup(d, f0[p].key);
    }
  }

  lemma ValidTables<K, V>(d: Dict<K, V>)
    requires Valid(d)
    ensures ValidTable(d.hash, d.t0) && ValidTable(d.hash, d.t1)
  {
  }

  /** Looking a key up in a map. */
  ghost function MapGet<K, V>(m: map<K, V>, k: K): (r: Option<V>) {
    if k in m then Some(m[k]) else None
  }

  lemma SameMap<K, V>(m: map<K, V>, m': map<K, V>)
    requires forall k :: MapGet(m', k) == MapGet(m, k)
    ensures m' == m
  {
    assert forall k :: k in m' <==> MapGet(m', k).Some?;
    assert forall k :: k in m <==> MapGet(m, k).Some?;
    assert forall k :: k in m ==> MapGet(m', k) == Some(m[k]);
  }

  lemma ContentsAt<K, V>(d: Dict<K, V>, k: K)
    requires Valid(d)
    ensures MapGet(Contents(d), k) == Lookup(d, k)
  {
    hide Flat, MapOf, Distinct, Index;
    var f0, f1 := Flat(d.t0.buckets), Flat(d.t1.buckets);
    AllDistinct(d);
    MapOfDistinct(f0 + f1);
    if k in Contents(d) {
      var all: seq<Entry<K, V>> := f0 + f1;
      var p :| 0 <= p < |all| && all[p].key == k;
      if p < |f0| {
        var i, r := FlatOrigin(d.t0.buckets, f0[p]);
        Stored(d.hash, d.t0, i, r);
      } else {
        var i, r := FlatOrigin(d.t1.buckets, f1[p - |f0|]);
        Stored(d.hash, d.t1, i, r);
        ApartLookup(d, k);
      }
    }
    if Lookup(d, k).Some? {
      if Get(d.hash, d.t0, k).Some? {
        var i := Index(d.hash(k), d.t0.Size());
        FlatHas(d.t0.buckets, i, Position(d.t0.buckets[i], k));
      } else {
        var i := Index(d.hash(k), d.t1.Size());
        FlatHas(d.t1.buckets, i, Position(d.t1.buckets[i], k));
      }
      assert exists e: Entry<K, V> :: e in f0 + f1 && e.key == k;
    }
  }

  /** The map agrees with lookups, and `used` counts its keys. */
  lemma ContentsAgree<K, V>(d: Dict<K, V>)
    requires Valid(d)
    ensures |Contents(d)| == d.Count()
    ensures forall k :: MapGet(Contents(d), k) == Lookup(d, k)
  {
    assert |Contents(d)| == d.Count() by {
      hide Flat, MapOf, Distinct, Total;
      AllDistinct(d);
      MapOfDistinct(Flat(d.t0.buckets) + Flat(d.t1.buckets));
      FlatLength(d.t0.buckets);
      FlatLength(d.t1.buckets);
    }
    hide *;
    forall k
      ensures MapGet(Contents(d), k) == Lookup(d, k)
    {
      ContentsAt(d, k);
    }
  }

  /** A dictionary denotes a map as soon as its lookups are those of the map. */
  lemma ContentsAre<K, V>(d: Dict<K, V>, m: map<K, V>)
    requires Valid(d)
    requires forall k :: Lookup(d, k) == MapGet(m, k)
    ensures Contents(d) == m
  {
    hide *;
    ContentsAgree(d);
    SameMap(m, Contents(d));
  }
}
