/** One database with cluster mode on (`db.c`): the key dictionary, the expires dictionary, the slot
    index and the per-slot key counts, which every operation keeps in agreement. */
module Keyspace {
  import opened SortedIndex

  const SLOTS: nat := 16384

  type Key = Bytes

  /** The hash slot of each key is an arbitrary function into the slots. */
  type Hash = h: Key -> nat | forall k: Key :: h(k) < SLOTS witness (k: Key) => 0

  // ---------------------------------------------------------------- index entries

  /** The two bytes of a slot number. */
  function Prefix(slot: nat): Bytes
    requires slot < SLOTS
  {
    [slot / 256, slot % 256]
  }

  function Entry(h: Hash, k: Key): Bytes {
    Prefix(h(k)) + k
  }

  lemma EntryKey(h: Hash, k: Key)
    ensures Entry(h, k)[2..] == k
  {
  }

  lemma LessPair(p: Byte, q: Byte, a: Bytes, r: Byte, t: Byte, b: Bytes)
    ensures Less([p, q] + a, [r, t] + b) <==> p < r || (p == r && (q < t || (q == t && Less(a, b))))
  {
    var x, y := [p, q] + a, [r, t] + b;
    assert x[1..] == [q] + a && y[1..] == [t] + b;
    assert x[1..][1..] == a && y[1..][1..] == b;
    assert Less(x, y) <==> p < r || (p == r && Less(x[1..], y[1..]));
    assert Less(x[1..], y[1..]) <==> q < t || (q == t && Less(a, b));
  }

  /** Entries of a smaller slot come before those of a greater one, whatever the keys. */
  lemma PrefixOrder(s: nat, a: Bytes, t: nat, b: Bytes)
    requires s < SLOTS && t < SLOTS
    ensures s < t ==> Less(Prefix(s) + a, Prefix(t) + b)
    ensures Less(Prefix(s) + a, Prefix(t) + b) ==> s <= t
    ensures s == t ==> (Less(Prefix(s) + a, Prefix(t) + b) <==> Less(a, b))
  {
    hide Less;
    LessPair(s / 256, s % 256, a, t / 256, t % 256, b);
  }

  // ---------------------------------------------------------------- agreement

  ghost function KeysIn(dict: map<Key, nat>, h: Hash, slot: nat): set<Key> {
    set k | k in dict && h(k) == slot
  }

  /** The index holds exactly the entries of the keys. */
  ghost predicate Indexed(dict: map<Key, nat>, h: Hash, index: seq<Bytes>) {
    && Sorted(index)
    && (forall k :: k in dict ==> Entry(h, k) in index)
    && (forall e :: e in index ==> |e| >= 2 && e[2..] in dict && e == Entry(h, e[2..]))
  }

  ghost predicate Counted(dict: map<Key, nat>, h: Hash, counts: seq<int>) {
    |counts| == SLOTS && forall s :: 0 <= s < SLOTS ==> counts[s] == |KeysIn(dict, h, s)|
  }

  lemma IndexedAdd(dict: map<Key, nat>, h: Hash, index: seq<Bytes>, k: Key, v: nat)
    requires Indexed(dict, h, index)
    ensures Indexed(dict[k := v], h, Insert(index, Entry(h, k)))
  {
    hide Insert, Sorted, Entry, Prefix;
    InsertSorted(index, Entry(h, k));
    EntryKey(h, k);
    EntryLong(h, k);
  }

  lemma EntryLong(h: Hash, k: Key)
    ensures |Entry(h, k)| >= 2
  {
  }

  lemma IndexedDel(dict: map<Key, nat>, h: Hash, index: seq<Bytes>, k: Key)
    requires Indexed(dict, h, index)
    ensures Indexed(Minus(dict, k), h, Remove(index, Entry(h, k)))
  {
    hide Remove, Sorted, Entry, Prefix;
    RemoveSorted(index, Entry(h, k));
    forall j | j in dict && j != k ensures Entry(h, j) != Entry(h, k) {
      EntryKey(h, j);
      EntryKey(h, k);
    }
  }

  lemma KeysInAdd(dict: map<Key, nat>, h: Hash, k: Key, v: nat, s: nat)
    requires k !in dict
    ensures |KeysIn(dict[k := v], h, s)| == |KeysIn(dict, h, s)| + if s == h(k) then 1 else 0
  {
    if s == h(k) {
      assert KeysIn(dict[k := v], h, s) == KeysIn(dict, h, s) + {k};
    } else {
      assert KeysIn(dict[k := v], h, s) == KeysIn(dict, h, s);
    }
  }

  lemma KeysInDel(dict: map<Key, nat>, h: Hash, k: Key, s: nat)
    requires k in dict
    ensures KeysIn(Minus(dict, k), h, s) == KeysIn(dict, h, s) - {k}
    ensures |KeysIn(Minus(dict, k), h, s)| == |KeysIn(dict, h, s)| - if s == h(k) then 1 else 0
  {
    if s == h(k) {
      assert k in KeysIn(dict, h, s);
    }
  }

  lemma CountedAdd(dict: map<Key, nat>, h: Hash, counts: seq<int>, k: Key, v: nat)
    requires Counted(dict, h, counts) && k !in dict
    ensures Counted(dict[k := v], h, counts[h(k) := counts[h(k)] + 1])
  {
    hide KeysIn;
    var c := counts[h(k) := counts[h(k)] + 1];
    forall s | 0 <= s < SLOTS ensures c[s] == |KeysIn(dict[k := v], h, s)| {
      KeysInAdd(dict, h, k, v, s);
    }
  }

  lemma CountedDel(dict: map<Key, nat>, h: Hash, counts: seq<int>, k: Key)
    requires Counted(dict, h, counts) && k in dict
    ensures Counted(Minus(dict, k), h, counts[h(k) := counts[h(k)] - 1])
  {
    hide KeysIn;
    var c := counts[h(k) := counts[h(k)] - 1];
    forall s | 0 <= s < SLOTS ensures c[s] == |KeysIn(Minus(dict, k), h, s)| {
      KeysInDel(dict, h, k, s);
    }
  }

  lemma CountedSet(dict: map<Key, nat>, h: Hash, counts: seq<int>, k: Key, v: nat)
    requires Counted(dict, h, counts) && k in dict
    ensures Counted(dict[k := v], h, counts)
  {
    forall s | 0 <= s < SLOTS ensures counts[s] == |KeysIn(dict[k := v], h, s)| {
      assert KeysIn(dict[k := v], h, s) == KeysIn(dict, h, s);
    }
  }

  lemma IndexOrder(dict: map<Key, nat>, h: Hash, index: seq<Bytes>, i: nat, j: nat)
    requires Indexed(dict, h, index) && i < j < |index|
    ensures Less(index[i], index[j])
  {
    hide Less;
  }

  lemma EntryAt(dict: map<Key, nat>, h: Hash, index: seq<Bytes>, k: Key) returns (q: nat)
    requires Indexed(dict, h, index) && k in dict
    ensures q < |index| && |index[q]| >= 2 && index[q][2..] == k
  {
    hide Sorted, Prefix;
    assert Entry(h, k) in index;
    q :| q < |index| && index[q] == Entry(h, k);
    EntryKey(h, k);
    EntryLong(h, k);
  }

  lemma IndexedAt(dict: map<Key, nat>, h: Hash, index: seq<Bytes>, i: nat)
    requires Indexed(dict, h, index) && i < |index|
    ensures |index[i]| >= 2 && index[i][2..] in dict && index[i] == Prefix(h(index[i][2..])) + index[i][2..]
  {
    assert index[i] in index;
  }

  /** An entry is below the two bytes of a slot exactly when its own slot is. */
  lemma BelowSlot(dict: map<Key, nat>, h: Hash, index: seq<Bytes>, i: nat, slot: nat)
    requires Indexed(dict, h, index) && i < |index| && slot < SLOTS
    ensures |index[i]| >= 2 && (Less(index[i], Prefix(slot)) <==> h(index[i][2..]) < slot)
  {
    hide Less, Indexed, Prefix;
    IndexedAt(dict, h, index, i);
    var k := index[i][2..];
    assert Prefix(slot) + [] == Prefix(slot);
    PrefixOrder(h(k), k, slot, []);
    assert !Less(k, []) by { NothingBelowEmpty(k); }
  }

  lemma NothingBelowEmpty(k: Bytes)
    ensures !Less(k, [])
  {
  }

  /** Slots do not decrease along the index. */
  lemma SlotsAscend(dict: map<Key, nat>, h: Hash, index: seq<Bytes>, i: nat, j: nat)
    requires Indexed(dict, h, index) && i <= j < |index|
    ensures |index[i]| >= 2 && |index[j]| >= 2 && h(index[i][2..]) <= h(index[j][2..])
  {
    hide Less, Prefix, Indexed;
    IndexedAt(dict, h, index, i);
    IndexedAt(dict, h, index, j);
    if i < j {
      IndexOrder(dict, h, index, i, j);
      PrefixOrder(h(index[i][2..]), index[i][2..], h(index[j][2..]), index[j][2..]);
    }
  }

  /** Seeking the two bytes of a slot that has keys finds an entry of that slot. */
  lemma SeekSlot(dict: map<Key, nat>, h: Hash, index: seq<Bytes>, slot: nat, k: Key)
    requires Indexed(dict, h, index) && slot < SLOTS && k in dict && h(k) == slot
    ensures var p := Seek(index, Prefix(slot));
      p < |index| && |index[p]| >= 2 && index[p][2..] in dict && h(index[p][2..]) == slot
  {
    hide Seek, Less, Prefix, Indexed;
    var q := EntryAt(dict, h, index, k);
    BelowSlot(dict, h, index, q, slot);
    var p := Seek(index, Prefix(slot));
    assert p <= q;
    IndexedAt(dict, h, index, p);
    BelowSlot(dict, h, index, p, slot);
    SlotsAscend(dict, h, index, p, q);
  }

  // ---------------------------------------------------------------- keys of one slot

  /** The keys of the entries from `p` up to `q`. */
  function KeysBetween(index: seq<Bytes>, p: nat, q: nat): (r: seq<Key>)
    requires p <= q <= |index| && forall i :: p <= i < q ==> |index[i]| >= 2
    ensures |r| == q - p
  {
    seq(q - p, i requires 0 <= i < q - p => index[p + i][2..])
  }

  /** How far getKeysInSlot gets: at most `count` entries, all of the slot, stopping at the first other. */
  ghost predicate SlotRun(h: Hash, index: seq<Bytes>, slot: nat, p: nat, q: nat, count: nat)
    requires slot < SLOTS
  {
    && p <= q <= |index| && q - p <= count
    && (forall i :: p <= i < q ==> |index[i]| >= 2 && h(index[i][2..]) == slot)
    && (q - p == count || q == |index| || (|index[q]| >= 2 && h(index[q][2..]) != slot))
  }

  lemma SlotRunIs(h: Hash, index: seq<Bytes>, slot: nat, p: nat, q: nat, count: nat)
    requires slot < SLOTS && SlotRun(h, index, slot, p, q, count)
    ensures p <= q <= |index| && forall i :: p <= i < q ==> |index[i]| >= 2 && h(index[i][2..]) == slot
  {
  }

  lemma SlotRunMember(dict: map<Key, nat>, h: Hash, index: seq<Bytes>, slot: nat, p: nat, q: nat, count: nat, i: nat)
    requires slot < SLOTS && Indexed(dict, h, index) && SlotRun(h, index, slot, p, q, count) && i < q - p
    ensures KeysBetween(index, p, q)[i] in KeysIn(dict, h, slot)
  {
    hide Indexed, Prefix;
    IndexedAt(dict, h, index, p + i);
  }

  lemma SlotRunDistinct(dict: map<Key, nat>, h: Hash, index: seq<Bytes>, slot: nat, p: nat, q: nat, count: nat, i: nat, j: nat)
    requires slot < SLOTS && Indexed(dict, h, index) && SlotRun(h, index, slot, p, q, count) && i < j < q - p
    ensures KeysBetween(index, p, q)[i] != KeysBetween(index, p, q)[j]
  {
    hide Prefix, Less, Indexed, SlotRun;
    SlotRunIs(h, index, slot, p, q, count);
    IndexedAt(dict, h, index, p + i);
    IndexedAt(dict, h, index, p + j);
    IndexOrder(dict, h, index, p + i, p + j);
    LessIrreflexive(index[p + i]);
  }

  /** The keys read are different keys of the slot, and all of them unless `count` was reached. */
  lemma SlotRunKeys(dict: map<Key, nat>, h: Hash, index: seq<Bytes>, slot: nat, p: nat, q: nat, count: nat)
    requires slot < SLOTS && Indexed(dict, h, index) && p == Seek(index, Prefix(slot))
    requires SlotRun(h, index, slot, p, q, count)
    ensures var r := KeysBetween(index, p, q);
      && (forall i, j :: 0 <= i < j < |r| ==> r[i] != r[j])
      && (forall k :: k in r ==> k in KeysIn(dict, h, slot))
      && (|r| < count ==> forall k :: k in KeysIn(dict, h, slot) ==> k in r)
  {
    hide Seek, Prefix, Indexed, KeysIn, KeysBetween;
    var r := KeysBetween(index, p, q);
    forall i | 0 <= i < |r| ensures r[i] in KeysIn(dict, h, slot) {
      SlotRunMember(dict, h, index, slot, p, q, count, i);
    }
    forall i, j | 0 <= i < j < |r| ensures r[i] != r[j] {
      SlotRunDistinct(dict, h, index, slot, p, q, count, i, j);
    }
    if |r| < count {
      forall k | k in KeysIn(dict, h, slot) ensures k in r { SlotRunHas(dict, h, index, slot, p, q, count, k); }
    }
  }

  lemma SlotRunHas(dict: map<Key, nat>, h: Hash, index: seq<Bytes>, slot: nat, p: nat, q: nat, count: nat, k: Key)
    requires slot < SLOTS && Indexed(dict, h, index) && p == Seek(index, Prefix(slot))
    requires SlotRun(h, index, slot, p, q, count) && q - p < count && k in KeysIn(dict, h, slot)
    ensures k in KeysBetween(index, p, q)
  {
    hide Seek, Less, Prefix, Indexed;
    var i := EntryAt(dict, h, index, k);
    BelowSlot(dict, h, index, i, slot);
    assert p <= i;
    if q <= i {
      SlotsAscend(dict, h, index, q, i);
      BelowSlot(dict, h, index, q, slot);
      SlotsAscend(dict, h, index, p, q);
      BelowSlot(dict, h, index, p, slot);
      assert false;
    }
    assert KeysBetween(index, p, q)[i - p] == k;
  }

  // ---------------------------------------------------------------- agreement of all four

  /** Every key with an expire exists, the index is the keys by slot, and the counts count them. */
  ghost predicate Agree(h: Hash, dict: map<Key, nat>, expires: map<Key, int>, index: seq<Bytes>, counts: seq<int>) {
    expires.Keys <= dict.Keys && Indexed(dict, h, index) && Counted(dict, h, counts)
  }

  lemma AgreeParts(h: Hash, dict: map<Key, nat>, expires: map<Key, int>, index: seq<Bytes>, counts: seq<int>)
    requires Agree(h, dict, expires, index, counts)
    ensures |counts| == SLOTS && expires.Keys <= dict.Keys && Indexed(dict, h, index) && Counted(dict, h, counts)
  {
    hide Indexed, KeysIn;
  }

  lemma AgreeAdd(h: Hash, dict: map<Key, nat>, expires: map<Key, int>, index: seq<Bytes>, counts: seq<int>, k: Key, v: nat)
    requires Agree(h, dict, expires, index, counts) && k !in dict
    ensures |counts| == SLOTS
    ensures Agree(h, dict[k := v], expires, Insert(index, Entry(h, k)), counts[h(k) := counts[h(k)] + 1])
  {
    hide Indexed, Counted, Insert, Entry;
    AgreeParts(h, dict, expires, index, counts);
    IndexedAdd(dict, h, index, k, v);
    CountedAdd(dict, h, counts, k, v);
  }

  lemma AgreeDel(h: Hash, dict: map<Key, nat>, expires: map<Key, int>, index: seq<Bytes>, counts: seq<int>, k: Key)
    requires Agree(h, dict, expires, index, counts) && k in dict
    ensures |counts| == SLOTS
    ensures Agree(h, Minus(dict, k), Minus(expires, k), Remove(index, Entry(h, k)), counts[h(k) := counts[h(k)] - 1])
  {
    hide Indexed, Counted, Remove, Entry;
    AgreeParts(h, dict, expires, index, counts);
    IndexedDel(dict, h, index, k);
    CountedDel(dict, h, counts, k);
  }

  lemma AgreeSet(h: Hash, dict: map<Key, nat>, expires: map<Key, int>, index: seq<Bytes>, counts: seq<int>, k: Key, v: nat)
    requires Agree(h, dict, expires, index, counts) && k in dict
    ensures Agree(h, dict[k := v], expires, index, counts)
  {
    hide Indexed, Counted;
    IndexedSet(dict, h, index, k, v);
    CountedSet(dict, h, counts, k, v);
  }

  lemma AgreeExpires(h: Hash, dict: map<Key, nat>, expires: map<Key, int>, index: seq<Bytes>, counts: seq<int>,
                     other: map<Key, int>)
    requires Agree(h, dict, expires, index, counts) && other.Keys <= dict.Keys
    ensures Agree(h, dict, other, index, counts)
  {
    hide Indexed, Counted;
  }

  lemma AgreeEmpty(h: Hash)
    ensures Agree(h, map[], map[], [], seq(SLOTS, _ => 0))
  {
  }

  /** A map without one key. */
  function Minus<V>(m: map<Key, V>, k: Key): map<Key, V> {
    m - {k}
  }

  lemma MinusAbsent<V>(m: map<Key, V>, k: Key)
    ensures k !in m || |m| == 0 ==> Minus(m, k) == m
  {
  }

  lemma MinusAt<V>(m: map<Key, V>, k: Key)
    ensures k !in Minus(m, k)
  {
  }

  /** Deleting a key, present or not. */
  lemma AgreeMinus(h: Hash, dict: map<Key, nat>, expires: map<Key, int>, index: seq<Bytes>, counts: seq<int>, k: Key)
    requires Agree(h, dict, expires, index, counts)
    ensures |counts| == SLOTS
    ensures |expires| == 0 ==> Minus(expires, k) == expires
    ensures k in dict ==>
      Agree(h, Minus(dict, k), Minus(expires, k), Remove(index, Entry(h, k)), counts[h(k) := counts[h(k)] - 1])
    ensures k !in dict ==> Minus(dict, k) == dict && Agree(h, dict, Minus(expires, k), index, counts)
  {
    hide Agree, Entry, Remove;
    AgreeParts(h, dict, expires, index, counts);
    MinusAbsent(expires, k);
    if k in dict {
      AgreeDel(h, dict, expires, index, counts, k);
    } else {
      MinusAbsent(dict, k);
      MinusAbsent(expires, k);
    }
  }

  // ---------------------------------------------------------------- the database

  datatype RenameReply = NoSuchKey | Same | Refused | Renamed

  /** What decides about expiry besides the key: the time, and that nothing expires while loading or on a
      slave. */
  datatype Clock = Clock(now: int, loading: bool, slave: bool)

  /** The maps without the source and the destination, and the entry of the source, if it had one, under the
      destination. */
  function Moved<V>(m: map<Key, V>, src: Key, dst: Key): map<Key, V>
    requires src in m
  {
    (m - {src, dst})[dst := m[src]]
  }

  /** Deleting the destination, adding the new entry and deleting the source is a move. */
  lemma MovedIs<V>(m: map<Key, V>, src: Key, dst: Key)
    requires src != dst
    ensures src in m ==> Minus(Minus(m, dst)[dst := m[src]], src) == Moved(m, src, dst)
    ensures Minus(Minus(m, dst), src) == m - {src, dst}
  {
  }

  /** Setting a key does not depend on whether it was there. */
  lemma MinusThenSet<V>(m: map<Key, V>, k: Key, v: V)
    ensures Minus(m, k)[k := v] == m[k := v] && Minus(Minus(m, k), k) == Minus(m, k)
  {
  }

  class Database {
    const hash: Hash
    var dict: map<Key, nat>
    var expires: map<Key, int>
    var index: seq<Bytes>
    var counts: seq<int>

    ghost predicate Valid()
      reads this
    {
      Agree(hash, dict, expires, index, counts)
    }

    constructor (hash: Hash)
      ensures Valid() && this.hash == hash && dict == map[] && expires == map[]
    {
      hide Agree;
      this.hash := hash;
      dict, expires, index, counts := map[], map[], [], seq(SLOTS, _ => 0);
      new;
      AgreeEmpty(hash);
    }

    /** slotToKeyUpdateKey. */
    method SlotToKeyUpdateKey(key: Key, add: bool)
      requires |counts| == SLOTS
      modifies this
      ensures dict == old(dict) && expires == old(expires)
      ensures counts == old(counts)[hash(key) := old(counts)[hash(key)] + if add then 1 else -1]
      ensures index == if add then Insert(old(index), Entry(hash, key)) else Remove(old(index), Entry(hash, key))
    {
      hide Insert, Remove;
      var slot := hash(key);
      counts := counts[slot := counts[slot] + if add then 1 else -1];
      var indexed := [slot / 256, slot % 256] + key;
      if add {
        index := Insert(index, indexed);
      } else {
        index := Remove(index, indexed);
      }
    }

    /** dbAdd: the program aborts when the key is already there. */
    method Add(key: Key, val: nat)
      requires Valid() && key !in dict
      modifies this
      ensures Valid() && dict == old(dict)[key := val] && expires == old(expires)
    {
      hide Agree, Insert, Remove, Entry;
      AgreeAdd(hash, dict, expires, index, counts, key, val);
      dict := dict[key := val];
      SlotToKeyUpdateKey(key, true);
    }

    /** dbOverwrite: the program aborts when the key is not there. */
    method Overwrite(key: Key, val: nat)
      requires Valid() && key in dict
      modifies this
      ensures Valid() && dict == old(dict)[key := val] && expires == old(expires)
    {
      hide Agree;
      AgreeSet(hash, dict, expires, index, counts, key, val);
      dict := dict[key := val];
    }

    /** expireIfNeeded: a key past its time goes, unless this is a slave; the answer is whether the time has
        passed. Nothing expires while loading. */
    method ExpireIfNeeded(key: Key, c: Clock) returns (expired: bool)
      requires Valid()
      modifies this
      ensures Valid()
      ensures expired <==> key in old(expires) && 0 <= old(expires)[key] < c.now && !c.loading
      ensures expired && !c.slave ==> dict == Minus(old(dict), key) && expires == Minus(old(expires), key)
      ensures !expired || c.slave ==> dict == old(dict) && expires == old(expires)
    {
      hide Agree, Minus;
      ExpiresExist();
      var when := GetExpire(key);
      if when < 0 { return false; }
      if c.loading { return false; }
      if c.slave { return c.now > when; }
      if c.now <= when { return false; }
      expired := SyncDelete(key);
    }

    /** lookupKeyWrite: a key that is past its time here is not found, and is gone. */
    method LookupKeyWrite(key: Key, c: Clock) returns (found: bool)
      requires Valid()
      modifies this
      ensures Valid()
      ensures var due := key in old(expires) && 0 <= old(expires)[key] < c.now && !c.loading && !c.slave;
        && (due ==> dict == Minus(old(dict), key) && expires == Minus(old(expires), key))
        && (!due ==> dict == old(dict) && expires == old(expires))
        && (found <==> key in old(dict) && !due)
      ensures found <==> key in dict
    {
      hide Agree, Minus;
      MinusAt(dict, key);
      var _ := ExpireIfNeeded(key, c);
      found := key in dict;
    }

    /** setKey: adds or overwrites, and makes the key persistent, whether or not it was due to expire. */
    method SetKey(key: Key, val: nat, c: Clock)
      requires Valid()
      modifies this
      ensures Valid() && dict == old(dict)[key := val] && expires == Minus(old(expires), key)
    {
      hide *;
      ghost var d, e := dict, expires;
      var found := LookupKeyWrite(key, c);
      MinusThenSet(d, key, val);
      MinusThenSet(e, key, 0);
      if !found {
        Add(key, val);
      } else {
        Overwrite(key, val);
      }
      var _ := RemoveExpire(key);
    }

    /** dbSyncDelete. */
    method SyncDelete(key: Key) returns (deleted: bool)
      requires Valid()
      modifies this
      ensures Valid() && dict == Minus(old(dict), key) && expires == Minus(old(expires), key)
      ensures deleted <==> key in old(dict)
    {
      hide *;
      ValidIs();
      AgreeMinus(hash, dict, expires, index, counts, key);
      if |expires| > 0 {
        expires := Minus(expires, key);
      }
      deleted := key in dict;
      if deleted {
        dict := Minus(dict, key);
        SlotToKeyUpdateKey(key, false);
      }
      ValidIs();
    }

    lemma ValidIs()
      ensures Valid() <==> Agree(hash, dict, expires, index, counts)
    {
      hide Agree;
    }

    /** removeExpire: the program aborts when the key is not there. */
    method RemoveExpire(key: Key) returns (removed: bool)
      requires Valid() && key in dict
      modifies this
      ensures Valid() && dict == old(dict) && expires == Minus(old(expires), key)
      ensures removed <==> key in old(expires)
    {
      hide Agree;
      removed := key in expires;
      AgreeParts(hash, dict, expires, index, counts);
      AgreeExpires(hash, dict, expires, index, counts, Minus(expires, key));
      expires := Minus(expires, key);
    }

    /** setExpire: the program aborts when the key is not there. */
    method SetExpire(key: Key, when: int)
      requires Valid() && key in dict
      modifies this
      ensures Valid() && dict == old(dict) && expires == old(expires)[key := when]
    {
      hide Agree;
      AgreeParts(hash, dict, expires, index, counts);
      AgreeExpires(hash, dict, expires, index, counts, expires[key := when]);
      expires := expires[key := when];
    }

    /** getExpire, with its safety check. */
    method GetExpire(key: Key) returns (when: int)
      requires Valid()
      ensures when == if key in expires then expires[key] else -1
    {
      hide Agree;
      AgreeParts(hash, dict, expires, index, counts);
      if |expires| == 0 || key !in expires {
        return -1;
      }
      assert key in dict;
      return expires[key];
    }

    /** Emptying the database: both dictionaries, and slotToKeyFlush. */
    method Flush()
      requires Valid()
      modifies this
      ensures Valid() && dict == map[] && expires == map[]
    {
      hide Agree;
      AgreeEmpty(hash);
      dict, expires, index, counts := map[], map[], [], seq(SLOTS, _ => 0);
    }

    /** renameGenericCommand: both names are looked up, and are gone if they are past their time; then the value and
        its expire move to the new name. An expire time of -1 would not, since -1 means none. */
    method Rename(src: Key, dst: Key, nx: bool, c: Clock) returns (reply: RenameReply)
      requires Valid()
      modifies this
      ensures Valid()
      ensures var d, e, here := old(dict), old(expires), !c.loading && !c.slave;
        var srcDue := here && src in e && 0 <= e[src] < c.now;
        var dstDue := here && dst in e && 0 <= e[dst] < c.now;
        && reply == (if src !in d || srcDue then NoSuchKey
                     else if src == dst then Same
                     else if nx && dst in d && !dstDue then Refused
                     else Renamed)
        && (reply == NoSuchKey && !srcDue ==> dict == d && expires == e)
        && (reply == NoSuchKey && srcDue ==> dict == d - {src} && expires == e - {src})
        && (reply == Same || reply == Refused ==> dict == d && expires == e)
        && (reply == Renamed ==> dict == (d - {src, dst})[dst := d[src]])
        && (reply == Renamed ==>
              expires == if src in e && e[src] != -1 then (e - {src, dst})[dst := e[src]] else e - {src, dst})
    {
      hide Agree;
      ghost var d, e := dict, expires;
      var found := LookupKeyWrite(src, c);
      if !found { return NoSuchKey; }
      if src == dst { return Same; }
      var o := dict[src];
      var expire := GetExpire(src);
      found := LookupKeyWrite(dst, c);
      ExpiresExist();
      if found {
        if nx { return Refused; }
        var _ := SyncDelete(dst);
      }
      assert dict == Minus(d, dst) && expires == Minus(e, dst);
      Add(dst, o);
      if expire != -1 { SetExpire(dst, expire); }
      var _ := SyncDelete(src);
      MovedIs(d, src, dst);
      MovedIs(e, src, dst);
      return Renamed;
    }

    lemma ExpiresExist()
      requires Valid()
      ensures forall k :: k in expires ==> k in dict
    {
      hide Indexed, Counted;
    }

    /** getKeysInSlot: up to `count` different keys of the slot, and all of them when there are fewer. */
    method GetKeysInSlot(slot: nat, count: nat) returns (keys: seq<Key>)
      requires Valid() && slot < SLOTS
      ensures |keys| <= count && forall i, j :: 0 <= i < j < |keys| ==> keys[i] != keys[j]
      ensures forall k :: k in keys ==> k in KeysIn(dict, hash, slot)
      ensures |keys| < count ==> forall k :: k in KeysIn(dict, hash, slot) ==> k in keys
    {
      hide Agree, Indexed, Counted, Seek, Entry, KeysIn, Less;
      AgreeParts(hash, dict, expires, index, counts);
      keys := [];
      var p := Seek(index, [slot / 256, slot % 256]);
      var q := p;
      while |keys| < count && q < |index|
        invariant p <= q <= |index| && q - p <= count
        invariant forall i :: p <= i < q ==> |index[i]| >= 2 && hash(index[i][2..]) == slot
        invariant keys == KeysBetween(index, p, q)
        decreases |index| - q
      {
        IndexedAt(dict, hash, index, q);
        PrefixIs(hash(index[q][2..]), slot, index[q]);
        if index[q][0] != slot / 256 || index[q][1] != slot % 256 { break; }
        keys := keys + [index[q][2..]];
        q := q + 1;
      }
      SlotRunKeys(dict, hash, index, slot, p, q, count);
    }

    /** One round of delKeysInSlot: the first entry sought belongs to the slot, and its key goes. */
    method DelFirstInSlot(slot: nat) returns (key: Key)
      requires Valid() && slot < SLOTS && |KeysIn(dict, hash, slot)| != 0
      modifies this
      ensures Valid() && key in KeysIn(old(dict), hash, slot)
      ensures dict == Minus(old(dict), key) && expires == Minus(old(expires), key)
      ensures KeysIn(dict, hash, slot) == KeysIn(old(dict), hash, slot) - {key}
      ensures |counts| == SLOTS && counts[slot] == |KeysIn(dict, hash, slot)|
    {
      hide *;
      ValidIs();
      SlotHasKey(hash, dict, expires, index, counts, slot);
      var p := Seek(index, Prefix(slot));
      key := index[p][2..];
      KeysInDel(dict, hash, key, slot);
      InSlot(dict, hash, key, slot);
      var _ := SyncDelete(key);
      ValidIs();
      SlotCount(hash, dict, expires, index, counts, slot);
    }

    /** delKeysInSlot: it ends, and removes exactly the keys of the slot. */
    method DelKeysInSlot(slot: nat) returns (removed: nat)
      requires Valid() && slot < SLOTS
      modifies this
      ensures Valid() && removed == |KeysIn(old(dict), hash, slot)|
      ensures dict == old(dict) - KeysIn(old(dict), hash, slot)
      ensures expires == old(expires) - KeysIn(old(dict), hash, slot)
    {
      hide *;
      removed := 0;
      ghost var d, e, all := dict, expires, KeysIn(dict, hash, slot);
      ghost var gone: set<Key> := {};
      ValidIs();
      SlotCount(hash, dict, expires, index, counts, slot);
      while counts[slot] != 0
        invariant Valid() && |counts| == SLOTS && counts[slot] == |KeysIn(dict, hash, slot)|
        invariant gone <= all && KeysIn(dict, hash, slot) == all - gone && removed == |gone|
        invariant dict == d - gone && expires == e - gone
        decreases counts[slot]
      {
        var key := DelFirstInSlot(slot);
        MinusMore(d, gone, key);
        MinusMore(e, gone, key);
        OneMoreGone(all, gone, key);
        gone, removed := gone + {key}, removed + 1;
      }
      AllGone(all, gone);
    }
  }

  lemma OneMoreGone(all: set<Key>, gone: set<Key>, k: Key)
    requires gone <= all && k in all - gone
    ensures gone + {k} <= all && all - gone - {k} == all - (gone + {k}) && |gone + {k}| == |gone| + 1
  {
  }

  lemma AllGone(all: set<Key>, gone: set<Key>)
    requires gone <= all
    ensures |all - gone| == 0 ==> gone == all
  {
    if |all - gone| == 0 {
      assert all - gone == {};
    }
  }

  lemma MinusMore<V>(m: map<Key, V>, gone: set<Key>, k: Key)
    ensures Minus(m - gone, k) == m - (gone + {k})
  {
  }

  lemma SlotCount(h: Hash, dict: map<Key, nat>, expires: map<Key, int>, index: seq<Bytes>, counts: seq<int>, slot: nat)
    requires Agree(h, dict, expires, index, counts) && slot < SLOTS
    ensures |counts| == SLOTS && counts[slot] == |KeysIn(dict, h, slot)|
  {
    hide Indexed, KeysIn;
  }

  lemma IndexedSet(dict: map<Key, nat>, h: Hash, index: seq<Bytes>, k: Key, v: nat)
    requires Indexed(dict, h, index) && k in dict
    ensures Indexed(dict[k := v], h, index)
  {
  }

  lemma SlotHasKey(h: Hash, dict: map<Key, nat>, expires: map<Key, int>, index: seq<Bytes>, counts: seq<int>, slot: nat)
    requires Agree(h, dict, expires, index, counts) && slot < SLOTS && |KeysIn(dict, h, slot)| != 0
    ensures var p := Seek(index, Prefix(slot));
      p < |index| && |index[p]| >= 2 && index[p][2..] in dict && h(index[p][2..]) == slot
  {
    hide Seek, Indexed, Counted, Agree;
    AgreeParts(h, dict, expires, index, counts);
    assert KeysIn(dict, h, slot) != {};
    var k :| k in KeysIn(dict, h, slot);
    SeekSlot(dict, h, index, slot, k);
  }

  lemma InSlot(dict: map<Key, nat>, h: Hash, k: Key, slot: nat)
    ensures k in KeysIn(dict, h, slot) <==> k in dict && h(k) == slot
  {
  }

  lemma PrefixIs(s: nat, slot: nat, e: Bytes)
    requires s < SLOTS && slot < SLOTS && |e| >= 2 && e == Prefix(s) + e[2..]
    ensures s == slot <==> e[0] == slot / 256 && e[1] == slot % 256
  {
    assert e[0] == s / 256 && e[1] == s % 256;
  }
}
