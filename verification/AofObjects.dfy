/**
 The rewriter: how the child turns the data it was forked with into commands, at most
 `K` = AOF_REWRITE_ITEMS_PER_CMD items to a command, and why replaying them rebuilds the data.
 */
module AofObjects {
  import opened Options
  import opened Resp
  import opened AofProtocol

  // ---------------------------------------------------------------- chunked commands

  function Join(items: seq<seq<Bytes>>): (args: seq<Bytes>) {
    if items == [] then [] else items[0] + Join(items[1..])
  }

  function Min(a: nat, b: nat): (m: nat) {
    if a < b then a else b
  }

  /** The commands for the items of one object. */
  function Chunks(name: Bytes, key: Bytes, items: seq<seq<Bytes>>, K: nat): (cmds: seq<Command>)
    requires K >= 1
    decreases |items|
  {
    if items == [] then []
    else
      var m := Min(K, |items|);
      [[name, key] + Join(items[..m])] + Chunks(name, key, items[m..], K)
  }

  lemma {:induction false} JoinLength(items: seq<seq<Bytes>>, width: nat)
    requires forall i :: 0 <= i < |items| ==> |items[i]| == width
    ensures |Join(items)| == |items| * width
  {
    if items != [] {
      JoinLength(items[1..], width);
      assert |items| * width == width + (|items| - 1) * width;
    }
  }

  lemma {:induction false} PrintArgsAppend(a: seq<Bytes>, b: seq<Bytes>)
    ensures PrintArgs(a + b) == PrintArgs(a) + PrintArgs(b)
  {
    hide PrintArg;
    if a == [] {
      assert a + b == b;
    } else {
      assert (a + b)[1..] == a[1..] + b;
      PrintArgsAppend(a[1..], b);
    }
  }

  /** The bytes of the items from `i` up to `e`. */
  function Span(items: seq<seq<Bytes>>, i: nat, e: nat): (s: Bytes)
    requires i <= e <= |items|
  {
    PrintArgs(Join(items[i..e]))
  }

  lemma SpanStep(items: seq<seq<Bytes>>, i: nat, e: nat)
    requires i <= e <= |items|
    ensures i == e ==> Span(items, i, e) == []
    ensures i < e ==> Span(items, i, e) == PrintArgs(items[i]) + Span(items, i + 1, e)
  {
    hide PrintArg;
    if i < e {
      assert items[i..e][0] == items[i] && items[i..e][1..] == items[i + 1..e];
      PrintArgsAppend(items[i], Join(items[i + 1..e]));
    }
  }

  /** The first command of the rest: its count line, its name and key, and its items. */
  lemma FirstChunk(name: Bytes, key: Bytes, items: seq<seq<Bytes>>, width: nat, K: nat, i: nat)
    requires K >= 1 && i < |items| && forall j :: 0 <= j < |items| ==> |items[j]| == width
    ensures var m := Min(K, |items| - i);
      PrintLog(Chunks(name, key, items[i..], K)) ==
      Header(STAR, 2 + m * width) + PrintArg(name) + PrintArg(key) + Span(items, i, i + m)
      + PrintLog(Chunks(name, key, items[i + m..], K))
  {
    hide PrintArg, Header, Join;
    var rest := items[i..];
    var m := Min(K, |rest|);
    assert rest[..m] == items[i..i + m] && rest[m..] == items[i + m..];
    JoinLength(items[i..i + m], width);
    var args := Join(items[i..i + m]);
    var argv := [name, key] + args;
    assert |argv| == 2 + m * width;
    PrintArgsAppend([name, key], args);
    assert [name, key][1..] == [key];
    assert [key][1..] == [];
    assert PrintArgs([name, key]) == PrintArg(name) + (PrintArg(key) + []);
    var tail := Chunks(name, key, items[i + m..], K);
    assert Chunks(name, key, rest, K) == [argv] + tail;
    assert ([argv] + tail)[1..] == tail;
  }

  /** rewriteListObject, rewriteSetObject, rewriteSortedSetObject, rewriteHashObject: one loop, with
      one or two strings to an item. */
  method RewriteItems(out: Bytes, name: Bytes, key: Bytes, items: seq<seq<Bytes>>, width: nat, K: nat) returns (r: Bytes)
    requires K >= 1 && forall j :: 0 <= j < |items| ==> |items[j]| == width
    ensures r == out + PrintLog(Chunks(name, key, items, K))
  {
    hide PrintArg, Header, PrintLog, Chunks, Span, PrintArgs;
    r := out;
    var count, left, i := 0, |items|, 0;
    ghost var e := 0;
    ghost var all := out + PrintLog(Chunks(name, key, items, K));
    assert items[0..] == items;
    SpanStep(items, 0, 0);
    while i < |items|
      invariant i <= e <= |items| && left == |items| - i
      invariant count == 0 ==> e == i
      invariant 0 <= count < K
      invariant count > 0 ==> e == Min(i - count + K, |items|)
      invariant r + Span(items, i, e) + PrintLog(Chunks(name, key, items[e..], K)) == all
    {
      if count == 0 {
        var cmdItems := if left > K then K else left;
        FirstChunk(name, key, items, width, K, i);
        SpanStep(items, i, i);
        e := i + cmdItems;
        ghost var h := Header(STAR, 2 + cmdItems * width) + PrintArg(name) + PrintArg(key);
        ghost var r0 := r;
        r := r + Header(STAR, 2 + cmdItems * width);
        r := r + PrintArg(name);
        r := r + PrintArg(key);
        assert r == r0 + h;
        Regroup(r0, h, Span(items, i, e), PrintLog(Chunks(name, key, items[e..], K)));
      }
      SpanStep(items, i, e);
      var bulks := WriteBulks(items[i]);
      assert r + (bulks + Span(items, i + 1, e)) == (r + bulks) + Span(items, i + 1, e);
      r := r + bulks;
      i := i + 1;
      count := count + 1;
      if count == K {
        count := 0;
      }
      left := left - 1;
    }
    SpanStep(items, i, e);
    assert items[e..] == [];
    assert Chunks(name, key, [], K) == [] by { NoChunks(name, key, K); }
    PrintNothing();
  }

  lemma Regroup(r: Bytes, h: Bytes, s: Bytes, t: Bytes)
    ensures r + (h + s + t) == (r + h) + s + t
  {
  }

  lemma NoChunks(name: Bytes, key: Bytes, K: nat)
    requires K >= 1
    ensures Chunks(name, key, [], K) == []
  {
  }

  method WriteBulks(bulks: seq<Bytes>) returns (r: Bytes)
    ensures r == PrintArgs(bulks)
  {
    hide PrintArg;
    r := [];
    var j := 0;
    PrintArgsEnd(bulks, 0);
    while j < |bulks|
      invariant j <= |bulks| && r + PrintArgs(bulks[j..]) == PrintArgs(bulks)
    {
      PrintArgsEnd(bulks, j);
      r := r + PrintArg(bulks[j]);
      j := j + 1;
    }
    PrintArgsEnd(bulks, j);
  }

  /** Every command but the last carries K items, the last one at least one and at most K. */
  lemma {:induction false} ChunkSizes(name: Bytes, key: Bytes, items: seq<seq<Bytes>>, width: nat, K: nat, c: nat)
    requires K >= 1 && (forall j :: 0 <= j < |items| ==> |items[j]| == width) && c < |Chunks(name, key, items, K)|
    ensures var cmd := Chunks(name, key, items, K)[c];
      exists m :: 1 <= m <= K && (c + 1 < |Chunks(name, key, items, K)| ==> m == K)
        && |cmd| == 2 + m * width && cmd[..2] == [name, key]
    decreases |items|
  {
    hide Join;
    var m := Min(K, |items|);
    if c == 0 {
      JoinLength(items[..m], width);
      if m == |items| { NoChunks(name, key, K); }
    } else {
      ChunkSizes(name, key, items[m..], width, K, c - 1);
    }
  }

  // ---------------------------------------------------------------- what the commands do

  const SET: Bytes := [83, 69, 84]
  const RPUSH: Bytes := [82, 80, 85, 83, 72]
  const SADD: Bytes := [83, 65, 68, 68]
  const ZADD: Bytes := [90, 65, 68, 68]
  const HMSET: Bytes := [72, 77, 83, 69, 84]
  const PEXPIREAT: Bytes := [80, 69, 88, 80, 73, 82, 69, 65, 84]

  /** The value types; scores and expire times are kept as the text the log holds. */
  datatype Value =
    | Str(s: Bytes)
    | List(xs: seq<Bytes>)
    | Set(ms: set<Bytes>)
    | ZSet(scores: map<Bytes, Bytes>)
    | Hash(fields: map<Bytes, Bytes>)

  datatype Obj = Obj(value: Value, expire: Option<Bytes>)

  /** Everything stored, by database and key. */
  type Data = map<(int, Bytes), Obj>

  /** The bindings of a flat list a0 b0 a1 b1 ..., the later ones winning. */
  function Pairs(args: seq<Bytes>): (m: map<Bytes, Bytes>) {
    if |args| < 2 then map[] else map[args[0] := args[1]] + Pairs(args[2..])
  }

  /** The same with value before key, as ZADD has it. */
  function Swapped(args: seq<Bytes>): (m: map<Bytes, Bytes>) {
    if |args| < 2 then map[] else map[args[1] := args[0]] + Swapped(args[2..])
  }

  /** Is this a command that adds items to an aggregate? */
  predicate Adds(name: Bytes) {
    name == RPUSH || name == SADD || name == ZADD || name == HMSET
  }

  /** Add items to a value, or start a new one; a value of another type is left alone. */
  function Extend(name: Bytes, v: Option<Value>, args: seq<Bytes>): (r: Value)
    requires Adds(name)
  {
    if name == RPUSH then
      if v == None then List(args) else if v.value.List? then List(v.value.xs + args) else v.value
    else if name == SADD then
      var ms := set a | a in args;
      if v == None then Set(ms) else if v.value.Set? then Set(v.value.ms + ms) else v.value
    else if name == ZADD then
      if v == None then ZSet(Swapped(args)) else if v.value.ZSet? then ZSet(v.value.scores + Swapped(args)) else v.value
    else
      if v == None then Hash(Pairs(args)) else if v.value.Hash? then Hash(v.value.fields + Pairs(args)) else v.value
  }

  /** The commands of the rewriter; any other command does what `other` says. */
  function Apply(other: (Data, int, Command) -> Data, d: Data, db: int, c: Command): (r: Data) {
    if |c| == 3 && c[0] == SET then d[(db, c[1]) := Obj(Str(c[2]), None)]
    else if |c| > 2 && Adds(c[0]) then
      var k := (db, c[1]);
      if k in d then d[k := Obj(Extend(c[0], Some(d[k].value), c[2..]), d[k].expire)]
      else d[k := Obj(Extend(c[0], None, c[2..]), None)]
    else if |c| == 3 && c[0] == PEXPIREAT then
      var k := (db, c[1]);
      if k in d then d[k := d[k].(expire := Some(c[2]))] else d
    else other(d, db, c)
  }

  function DataWorld(other: (Data, int, Command) -> Data): (w: World<Data>) {
    World((d, db, c) => Apply(other, d, db, c), map[])
  }

  // ---------------------------------------------------------------- rebuilding one object

  lemma AddAssociative(x: map<Bytes, Bytes>, y: map<Bytes, Bytes>, z: map<Bytes, Bytes>)
    ensures x + (y + z) == (x + y) + z
  {
  }

  lemma {:induction false} PairsAppend(a: seq<Bytes>, b: seq<Bytes>)
    requires |a| % 2 == 0
    ensures Pairs(a + b) == Pairs(a) + Pairs(b)
    decreases |a|
  {
    if a == [] {
      assert a + b == b;
    } else {
      assert (a + b)[2..] == a[2..] + b;
      PairsAppend(a[2..], b);
      AddAssociative(map[a[0] := a[1]], Pairs(a[2..]), Pairs(b));
    }
  }

  lemma {:induction false} SwappedAppend(a: seq<Bytes>, b: seq<Bytes>)
    requires |a| % 2 == 0
    ensures Swapped(a + b) == Swapped(a) + Swapped(b)
    decreases |a|
  {
    if a == [] {
      assert a + b == b;
    } else {
      assert (a + b)[2..] == a[2..] + b;
      SwappedAppend(a[2..], b);
      AddAssociative(map[a[1] := a[0]], Swapped(a[2..]), Swapped(b));
    }
  }

  predicate Fits(name: Bytes, v: Option<Value>)
    requires Adds(name)
  {
    v == None || (if name == RPUSH then v.value.List? else if name == SADD then v.value.Set?
                  else if name == ZADD then v.value.ZSet? else v.value.Hash?)
  }

  lemma SetAppend(a: seq<Bytes>, b: seq<Bytes>)
    ensures (set x | x in a + b) == (set x | x in a) + (set x | x in b)
  {
  }

  lemma MapSumAssociates(a: map<Bytes, Bytes>, b: map<Bytes, Bytes>, c: map<Bytes, Bytes>)
    ensures a + b + c == a + (b + c)
  {
  }

  /** Adding in two goes is adding at once. */
  lemma ExtendTwice(name: Bytes, v: Option<Value>, a: seq<Bytes>, b: seq<Bytes>)
    requires Adds(name) && Fits(name, v)
    requires name == ZADD || name == HMSET ==> |a| % 2 == 0
    ensures Fits(name, Some(Extend(name, v, a)))
    ensures Extend(name, Some(Extend(name, v, a)), b) == Extend(name, v, a + b)
  {
    hide Pairs, Swapped;
    if name == RPUSH {
      if v.Some? {
        assert v.value.xs + a + b == v.value.xs + (a + b);
      }
    } else if name == SADD {
      SetAppend(a, b);
    } else if name == ZADD {
      SwappedAppend(a, b);
      if v.Some? {
        MapSumAssociates(v.value.scores, Swapped(a), Swapped(b));
      }
    } else {
      PairsAppend(a, b);
      if v.Some? {
        MapSumAssociates(v.value.fields, Pairs(a), Pairs(b));
      }
    }
  }

  /** One adding command, seen from the key. */
  lemma ApplyAdd(other: (Data, int, Command) -> Data, st: Store<Data>, name: Bytes, key: Bytes, args: seq<Bytes>)
    requires Adds(name) && args != []
    ensures var k := (st.selected, key);
      Exec(DataWorld(other), st, [name, key] + args) ==
      Store(st.selected,
            if k in st.data then st.data[k := Obj(Extend(name, Some(st.data[k].value), args), st.data[k].expire)]
            else st.data[k := Obj(Extend(name, None, args), None)])
  {
    hide Extend;
    var c := [name, key] + args;
    assert c[2..] == args && c[0] == name && c[1] == key;
    assert !IsSelect(c);
  }

  ghost function At(d: Data, k: (int, Bytes)): (v: Option<Value>) {
    if k in d then Some(d[k].value) else None
  }

  ghost function ExpireAt(d: Data, k: (int, Bytes)): (t: Option<Bytes>) {
    if k in d then d[k].expire else None
  }

  /** Replaying the chunks adds all the items, wherever the cuts fall. */
  lemma {:induction false} ChunksRebuild(other: (Data, int, Command) -> Data, st: Store<Data>, name: Bytes, key: Bytes,
                                         items: seq<seq<Bytes>>, width: nat, K: nat)
    requires K >= 1 && Adds(name) && items != [] && (forall j :: 0 <= j < |items| ==> |items[j]| == width)
    requires width == if name == ZADD || name == HMSET then 2 else 1
    requires Fits(name, At(st.data, (st.selected, key)))
    ensures var k := (st.selected, key);
      Run(DataWorld(other), st, Chunks(name, key, items, K)) ==
      Store(st.selected, st.data[k := Obj(Extend(name, At(st.data, k), Join(items)), ExpireAt(st.data, k))])
    decreases |items|
  {
    hide Extend, Fits, Join, Exec;
    var w, k := DataWorld(other), (st.selected, key);
    var m := Min(K, |items|);
    var first, rest := Join(items[..m]), items[m..];
    JoinLength(items[..m], width);
    JoinSplit(items, m);
    ApplyAdd(other, st, name, key, first);
    var v := At(st.data, k);
    var d1 := st.data[k := Obj(Extend(name, v, first), ExpireAt(st.data, k))];
    var cmds := Chunks(name, key, items, K);
    assert cmds[0] == [name, key] + first && cmds[1..] == Chunks(name, key, rest, K);
    assert Exec(w, st, cmds[0]) == Store(st.selected, d1);
    if rest == [] {
      assert first + Join(rest) == first by { JoinNothing(); }
    } else {
      ExtendTwice(name, v, first, Join(rest));
      ChunksRebuild(other, Store(st.selected, d1), name, key, rest, width, K);
      var o := Obj(Extend(name, v, Join(items)), ExpireAt(st.data, k));
      assert d1[k := o] == st.data[k := o];
    }
  }

  lemma JoinNothing()
    ensures Join([]) == []
  {
  }

  lemma {:induction false} JoinSplit(items: seq<seq<Bytes>>, m: nat)
    requires m <= |items|
    ensures Join(items) == Join(items[..m]) + Join(items[m..])
  {
    if m > 0 {
      JoinSplit(items[1..], m - 1);
      assert items[1..][..m - 1] == items[..m][1..];
      assert items[1..][m - 1..] == items[m..];
      assert Join(items) == items[0] + (Join(items[..m][1..]) + Join(items[m..]));
    } else {
      assert items[0..] == items;
    }
  }

  // ---------------------------------------------------------------- rebuilding everything

  /** An object as the rewriter walks through it: the order is that of its iterator. */
  datatype Stored =
    | StrO(s: Bytes)
    | ListO(xs: seq<Bytes>)
    | SetO(order: seq<Bytes>)
    | ZSetO(members: seq<(Bytes, Bytes)>)  // (member, score)
    | HashO(fields: seq<(Bytes, Bytes)>)   // (field, value)

  function Singles(xs: seq<Bytes>): (items: seq<seq<Bytes>>) {
    seq(|xs|, i requires 0 <= i < |xs| => [xs[i]])
  }

  function Doubles(ps: seq<(Bytes, Bytes)>): (items: seq<seq<Bytes>>) {
    seq(|ps|, i requires 0 <= i < |ps| => [ps[i].0, ps[i].1])
  }

  function Turned(ps: seq<(Bytes, Bytes)>): (items: seq<seq<Bytes>>) {
    seq(|ps|, i requires 0 <= i < |ps| => [ps[i].1, ps[i].0])
  }

  /** The map an order of pairs stands for. */
  function MapOf(ps: seq<(Bytes, Bytes)>): (m: map<Bytes, Bytes>) {
    if ps == [] then map[] else map[ps[0].0 := ps[0].1] + MapOf(ps[1..])
  }

  function ValueOf(o: Stored): (v: Value) {
    match o
    case StrO(s) => Str(s)
    case ListO(xs) => List(xs)
    case SetO(order) => Set(set x | x in order)
    case ZSetO(ps) => ZSet(MapOf(ps))
    case HashO(ps) => Hash(MapOf(ps))
  }

  /** Aggregates are removed when they become empty. */
  predicate Nonempty(o: Stored) {
    match o
    case StrO(_) => true
    case ListO(xs) => xs != []
    case SetO(order) => order != []
    case ZSetO(ps) => ps != []
    case HashO(ps) => ps != []
  }

  function ObjectCommands(key: Bytes, o: Stored, K: nat): (cmds: seq<Command>)
    requires K >= 1
  {
    match o
    case StrO(s) => [[SET, key, s]]
    case ListO(xs) => Chunks(RPUSH, key, Singles(xs), K)
    case SetO(order) => Chunks(SADD, key, Singles(order), K)
    case ZSetO(ps) => Chunks(ZADD, key, Turned(ps), K)
    case HashO(ps) => Chunks(HMSET, key, Doubles(ps), K)
  }

  /** What an object of one item becomes: a hash is written field first, a sorted set score first. */
  lemma OneItem(key: Bytes, a: Bytes, b: Bytes, K: nat)
    requires K >= 1
    ensures ObjectCommands(key, StrO(a), K) == [[SET, key, a]]
    ensures ObjectCommands(key, ListO([a]), K) == [[RPUSH, key, a]]
    ensures ObjectCommands(key, SetO([a]), K) == [[SADD, key, a]]
    ensures ObjectCommands(key, ZSetO([(a, b)]), K) == [[ZADD, key, b, a]]
    ensures ObjectCommands(key, HashO([(a, b)]), K) == [[HMSET, key, a, b]]
  {
    hide Chunks;
    OneChunk(RPUSH, key, [a], K);
    OneChunk(SADD, key, [a], K);
    OneChunk(ZADD, key, [b, a], K);
    OneChunk(HMSET, key, [a, b], K);
    assert [RPUSH, key] + [a] == [RPUSH, key, a] && [SADD, key] + [a] == [SADD, key, a];
    assert [ZADD, key] + [b, a] == [ZADD, key, b, a] && [HMSET, key] + [a, b] == [HMSET, key, a, b];
    assert Singles([a]) == [[a]] && Turned([(a, b)]) == [[b, a]] && Doubles([(a, b)]) == [[a, b]];
  }

  lemma OneChunk(name: Bytes, key: Bytes, item: seq<Bytes>, K: nat)
    requires K >= 1
    ensures Chunks(name, key, [item], K) == [[name, key] + item]
  {
    assert [item][..1] == [item] && [item][1..] == [];
    assert Join([item]) == item + Join([]) == item;
  }

  lemma {:induction false} JoinSingles(xs: seq<Bytes>)
    ensures Join(Singles(xs)) == xs
  {
    if xs != [] {
      assert Singles(xs)[1..] == Singles(xs[1..]);
      JoinSingles(xs[1..]);
    }
  }

  lemma {:induction false} PairsOfDoubles(ps: seq<(Bytes, Bytes)>)
    ensures Pairs(Join(Doubles(ps))) == MapOf(ps)
  {
    if ps != [] {
      assert Doubles(ps)[1..] == Doubles(ps[1..]);
      PairsOfDoubles(ps[1..]);
      var args := Join(Doubles(ps));
      assert args[2..] == Join(Doubles(ps[1..]));
    }
  }

  lemma {:induction false} SwappedOfTurned(ps: seq<(Bytes, Bytes)>)
    ensures Swapped(Join(Turned(ps))) == MapOf(ps)
  {
    if ps != [] {
      assert Turned(ps)[1..] == Turned(ps[1..]);
      SwappedOfTurned(ps[1..]);
      var args := Join(Turned(ps));
      assert args[2..] == Join(Turned(ps[1..]));
    }
  }

  /** Replaying the commands of an object under a new key rebuilds the object. */
  lemma ObjectRebuilds(other: (Data, int, Command) -> Data, st: Store<Data>, key: Bytes, o: Stored, K: nat)
    requires K >= 1 && Nonempty(o) && (st.selected, key) !in st.data
    ensures Run(DataWorld(other), st, ObjectCommands(key, o, K)) ==
            Store(st.selected, st.data[(st.selected, key) := Obj(ValueOf(o), None)])
  {
    hide Chunks, Join, Pairs, Swapped, Run, DataWorld;
    match o
    case StrO(s) =>
      RunOne(DataWorld(other), st, [SET, key, s]);
      SetWorks(other, st, key, s);
    case ListO(xs) =>
      ChunksRebuild(other, st, RPUSH, key, Singles(xs), 1, K);
      JoinSingles(xs);
    case SetO(order) =>
      ChunksRebuild(other, st, SADD, key, Singles(order), 1, K);
      JoinSingles(order);
    case ZSetO(ps) =>
      ChunksRebuild(other, st, ZADD, key, Turned(ps), 2, K);
      SwappedOfTurned(ps);
    case HashO(ps) =>
      ChunksRebuild(other, st, HMSET, key, Doubles(ps), 2, K);
      PairsOfDoubles(ps);
  }

  lemma SetWorks(other: (Data, int, Command) -> Data, st: Store<Data>, key: Bytes, s: Bytes)
    ensures Exec(DataWorld(other), st, [SET, key, s]) == Store(st.selected, st.data[(st.selected, key) := Obj(Str(s), None)])
  {
  }

  lemma ExpireWorks(other: (Data, int, Command) -> Data, st: Store<Data>, key: Bytes, t: Bytes)
    requires (st.selected, key) in st.data
    ensures var k := (st.selected, key);
      Exec(DataWorld(other), st, [PEXPIREAT, key, t]) == Store(st.selected, st.data[k := st.data[k].(expire := Some(t))])
  {
  }

  /** One key of a snapshot. */
  datatype KeyEntry = KeyEntry(key: Bytes, obj: Stored, expire: Option<Bytes>)

  datatype DbEntries = DbEntries(db: nat, entries: seq<KeyEntry>)

  function EntryCommands(e: KeyEntry, K: nat): (cmds: seq<Command>)
    requires K >= 1
  {
    ObjectCommands(e.key, e.obj, K) + (if e.expire.Some? then [[PEXPIREAT, e.key, e.expire.value]] else [])
  }

  function EntriesCommands(es: seq<KeyEntry>, K: nat): (cmds: seq<Command>)
    requires K >= 1
  {
    if es == [] then [] else EntryCommands(es[0], K) + EntriesCommands(es[1..], K)
  }

  /** rewriteAppendOnlyFileRio: a SELECT for each database that is not empty, then its keys. */
  function SnapshotCommands(dbs: seq<DbEntries>, K: nat): (cmds: seq<Command>)
    requires K >= 1
  {
    if dbs == [] then []
    else
      (if dbs[0].entries == [] then [] else [SelectCommand(dbs[0].db)] + EntriesCommands(dbs[0].entries, K))
      + SnapshotCommands(dbs[1..], K)
  }

  function AddEntries(d: Data, db: int, es: seq<KeyEntry>): (r: Data)
    decreases |es|
  {
    if es == [] then d
    else AddEntries(d[(db, es[0].key) := Obj(ValueOf(es[0].obj), es[0].expire)], db, es[1..])
  }

  /** The data a snapshot is a picture of. */
  function AddSnapshot(d: Data, dbs: seq<DbEntries>): (r: Data)
    decreases |dbs|
  {
    if dbs == [] then d else AddSnapshot(AddEntries(d, dbs[0].db, dbs[0].entries), dbs[1..])
  }

  /** Objects are not empty and keys are new: none stored already, none twice. */
  ghost predicate NewKeys(d: Data, db: int, es: seq<KeyEntry>) {
    && (forall i :: 0 <= i < |es| ==> Nonempty(es[i].obj) && (db, es[i].key) !in d)
    && (forall i, j :: 0 <= i < j < |es| ==> es[i].key != es[j].key)
  }

  ghost predicate NewDbs(d: Data, dbs: seq<DbEntries>) {
    && (forall i :: 0 <= i < |dbs| ==> NewKeys(d, dbs[i].db, dbs[i].entries))
    && (forall i, j :: 0 <= i < j < |dbs| ==> dbs[i].db != dbs[j].db)
  }

  lemma EntryRebuilds(other: (Data, int, Command) -> Data, st: Store<Data>, e: KeyEntry, K: nat)
    requires K >= 1 && Nonempty(e.obj) && (st.selected, e.key) !in st.data
    ensures Run(DataWorld(other), st, EntryCommands(e, K)) ==
            Store(st.selected, st.data[(st.selected, e.key) := Obj(ValueOf(e.obj), e.expire)])
  {
    hide Run, ObjectCommands, Exec, DataWorld, ValueOf;
    var w := DataWorld(other);
    ObjectRebuilds(other, st, e.key, e.obj, K);
    var st1 := Run(w, st, ObjectCommands(e.key, e.obj, K));
    if e.expire.Some? {
      var c := [PEXPIREAT, e.key, e.expire.value];
      RunAppend(w, st, ObjectCommands(e.key, e.obj, K), [c]);
      RunOne(w, st1, c);
      ExpireWorks(other, st1, e.key, e.expire.value);
      var k, o := (st.selected, e.key), Obj(ValueOf(e.obj), e.expire);
      assert st1.data[k := o] == st.data[k := o];
    } else {
      assert ObjectCommands(e.key, e.obj, K) + [] == ObjectCommands(e.key, e.obj, K);
    }
  }

  lemma {:induction false} EntriesRebuild(other: (Data, int, Command) -> Data, st: Store<Data>, es: seq<KeyEntry>, K: nat)
    requires K >= 1 && NewKeys(st.data, st.selected, es)
    ensures Run(DataWorld(other), st, EntriesCommands(es, K)) == Store(st.selected, AddEntries(st.data, st.selected, es))
    decreases |es|
  {
    hide Run, EntryCommands, DataWorld, ValueOf;
    var w := DataWorld(other);
    if es == [] {
      RunNothing(w, st.data);
      assert st == Store(st.selected, st.data);
    } else {
      EntryRebuilds(other, st, es[0], K);
      RunAppend(w, st, EntryCommands(es[0], K), EntriesCommands(es[1..], K));
      var st1 := Run(w, st, EntryCommands(es[0], K));
      EntriesRebuild(other, st1, es[1..], K);
    }
  }

  lemma {:induction false} AddEntriesKeys(d: Data, db: int, es: seq<KeyEntry>, k: (int, Bytes))
    requires k.0 != db
    ensures k in AddEntries(d, db, es) <==> k in d
    decreases |es|
  {
    if es != [] {
      AddEntriesKeys(d[(db, es[0].key) := Obj(ValueOf(es[0].obj), es[0].expire)], db, es[1..], k);
    }
  }

  lemma StillNew(d: Data, dbs: seq<DbEntries>)
    requires dbs != [] && NewDbs(d, dbs)
    ensures NewDbs(AddEntries(d, dbs[0].db, dbs[0].entries), dbs[1..])
  {
    hide AddEntries;
    var d' := AddEntries(d, dbs[0].db, dbs[0].entries);
    forall i | 0 <= i < |dbs[1..]|
      ensures NewKeys(d', dbs[1..][i].db, dbs[1..][i].entries)
    {
      var g := dbs[i + 1];
      assert NewKeys(d, g.db, g.entries);
      forall j | 0 <= j < |g.entries|
        ensures (g.db as int, g.entries[j].key) !in d'
      {
        AddEntriesKeys(d, dbs[0].db, dbs[0].entries, (g.db, g.entries[j].key));
      }
    }
  }

  /** Replaying the rewritten log rebuilds the data it was made from. */
  lemma {:induction false} SnapshotRebuilds(other: (Data, int, Command) -> Data, st: Store<Data>, dbs: seq<DbEntries>, K: nat)
    requires K >= 1 && NewDbs(st.data, dbs)
    ensures Run(DataWorld(other), st, SnapshotCommands(dbs, K)).data == AddSnapshot(st.data, dbs)
    decreases |dbs|
  {
    hide Run, EntriesCommands, DataWorld, AddEntries, Exec;
    var w := DataWorld(other);
    if dbs == [] {
      RunNothing(w, st.data);
      assert Run(w, Store(st.selected, st.data), []) == Store(st.selected, st.data);
      assert st == Store(st.selected, st.data);
      assert SnapshotCommands(dbs, K) == [];
    } else {
      var g, rest := dbs[0], SnapshotCommands(dbs[1..], K);
      StillNew(st.data, dbs);
      if g.entries == [] {
        assert AddEntries(st.data, g.db, []) == st.data by { AddNothing(st.data, g.db); }
        assert [] + rest == rest;
        SnapshotRebuilds(other, st, dbs[1..], K);
      } else {
        var sel, es := [SelectCommand(g.db)], EntriesCommands(g.entries, K);
        RunAppend(w, st, sel + es, rest);
        RunAppend(w, st, sel, es);
        RunOne(w, st, SelectCommand(g.db));
        SelectWorks(w, st, g.db);
        assert NewKeys(st.data, g.db, g.entries);
        EntriesRebuild(other, Store(g.db, st.data), g.entries, K);
        SnapshotRebuilds(other, Run(w, st, sel + es), dbs[1..], K);
      }
    }
  }

  lemma AddNothing(d: Data, db: int)
    ensures AddEntries(d, db, []) == d
  {
  }

  /** So a fork that walks the data gives the protocol the snapshot it needs. */
  lemma ForkIsSound(other: (Data, int, Command) -> Data, s: Sys<Data>, dbs: seq<DbEntries>, K: nat)
    requires K >= 1 && NewDbs(map[], dbs) && AddSnapshot(map[], dbs) == s.data
    requires AllPrintable(SnapshotCommands(dbs, K))
    ensures Sound(DataWorld(other), s, Fork(SnapshotCommands(dbs, K)))
  {
    hide Run, SnapshotCommands, Printable;
    SnapshotRebuilds(other, Store(0, map[]), dbs, K);
  }
}
