/** The epoch and election state of one cluster node (`cluster.c`), its handlers as functions on that
    state, and the imperative server whose methods are proved to compute those functions.

    What a handler reads from outside this state (flags, clocks, other nodes' roles) is a parameter. */
module ClusterNode {
  import opened Options

  type Id = int

  /** currentEpoch, the configEpoch stored for each known node, lastVoteEpoch and failover_auth_*. */
  datatype Node = Node(
    cur: nat,
    cfg: map<Id, nat>,
    lastVote: nat,
    authEpoch: nat,
    authCount: nat,
    authSent: bool)

  datatype Body =
    | Plain
    | Request
    | Ack(to: Id)
    | Update(about: Id, epoch: nat)

  /** A message with the two epochs of its header. */
  datatype Msg = Msg(from: Id, cur: nat, cfg: nat, body: Body)

  /** What a voter looks at besides its epochs: its own role, the requester's role and master, the time
      since its last vote about that master, the claimed slots and its own slot table. */
  datatype Ballot = Ballot(
    voterServes: bool,
    requesterIsMaster: bool,
    masterKnown: bool,
    masterFailed: bool,
    forced: bool,
    votedRecently: bool,
    claimed: seq<bool>,
    owners: seq<Option<Id>>)

  function Max(a: nat, b: nat): nat {
    if a < b then b else a
  }

  // ---------------------------------------------------------------- handlers

  /** Every message from a known node raises currentEpoch and the sender's configEpoch. */
  function OnHeader(n: Node, m: Msg): Node {
    if m.from in n.cfg then
      n.(cur := Max(n.cur, m.cur), cfg := n.cfg[m.from := Max(n.cfg[m.from], m.cfg)])
    else n
  }

  /** Moving a node's own configEpoch to a fresh currentEpoch. */
  function Fresh(n: Node, self: Id): Node {
    n.(cur := n.cur + 1, cfg := n.cfg[self := n.cur + 1])
  }

  predicate Collides(n: Node, self: Id, m: Msg, bothMasters: bool) {
    && m.from in n.cfg && self in n.cfg && bothMasters
    && m.cfg == n.cfg[self] && n.cfg[m.from] == n.cfg[self] && self < m.from
  }

  function OnPlain(n: Node, self: Id, m: Msg, bothMasters: bool): Node {
    var h := OnHeader(n, m);
    if Collides(h, self, m, bothMasters) then Fresh(h, self) else h
  }

  function OnUpdate(n: Node, m: Msg): Node
    requires m.body.Update?
  {
    var h := OnHeader(n, m);
    if m.from in h.cfg && m.body.about in h.cfg && h.cfg[m.body.about] < m.body.epoch then
      h.(cfg := h.cfg[m.body.about := m.body.epoch])
    else h
  }

  predicate IsMaxEpoch(n: Node, e: nat) {
    && n.cur <= e
    && (forall k :: k in n.cfg ==> n.cfg[k] <= e)
    && (e == n.cur || exists k :: k in n.cfg && n.cfg[k] == e)
  }

  /** Slot `j` is free or its owner's configEpoch is no greater than the request's. */
  predicate Yields(cfg: map<Id, nat>, b: Ballot, j: nat, epoch: nat) {
    j < |b.owners| && b.owners[j].Some? && b.owners[j].value in cfg ==> cfg[b.owners[j].value] <= epoch
  }

  /** The slot test of the voter: nobody it knows serves a claimed slot with a greater configEpoch. */
  predicate ClaimsCurrent(cfg: map<Id, nat>, b: Ballot, epoch: nat) {
    forall j :: 0 <= j < |b.claimed| && b.claimed[j] ==> Yields(cfg, b, j, epoch)
  }

  /** Whether the voter, having processed the header, grants its vote. */
  predicate Grants(n: Node, m: Msg, b: Ballot) {
    && m.from in n.cfg
    && b.voterServes
    && n.cur <= m.cur
    && n.lastVote != n.cur
    && !b.requesterIsMaster && b.masterKnown && (b.masterFailed || b.forced)
    && !b.votedRecently
    && ClaimsCurrent(n.cfg, b, m.cfg)
  }

  function OnRequest(n: Node, m: Msg, b: Ballot): Node {
    var h := OnHeader(n, m);
    if Grants(h, m, b) then h.(lastVote := h.cur) else h
  }

  predicate Counts(n: Node, m: Msg, serves: bool) {
    m.from in n.cfg && serves && n.authEpoch <= m.cur
  }

  function OnAck(n: Node, m: Msg, serves: bool): Node {
    var h := OnHeader(n, m);
    if Counts(h, m, serves) then h.(authCount := h.authCount + 1) else h
  }

  function Scheduled(n: Node): Node {
    n.(authCount := 0, authSent := false)
  }

  function Asked(n: Node): Node {
    n.(cur := n.cur + 1, authEpoch := n.cur + 1, authSent := true)
  }

  predicate Elected(n: Node, size: nat) {
    n.authSent && n.authCount >= size / 2 + 1
  }

  function Promoted(n: Node, self: Id): Node
    requires self in n.cfg
  {
    n.(cfg := n.cfg[self := Max(n.cfg[self], n.authEpoch)])
  }

  // ---------------------------------------------------------------- what every handler keeps

  /** currentEpoch dominates every configEpoch the node stores, and its last vote. */
  ghost predicate Dominates(n: Node) {
    n.lastVote <= n.cur && n.authEpoch <= n.cur && forall k :: k in n.cfg ==> n.cfg[k] <= n.cur
  }

  /** A message never advertises a configEpoch above its currentEpoch. */
  ghost predicate Honest(m: Msg) {
    m.cfg <= m.cur && (m.body.Update? ==> m.body.epoch <= m.cur)
  }

  /** Epochs never go back for the nodes that stay known. */
  ghost predicate Grows(a: Node, b: Node) {
    && a.cur <= b.cur && a.lastVote <= b.lastVote && a.authEpoch <= b.authEpoch
    && forall k :: k in a.cfg && k in b.cfg ==> a.cfg[k] <= b.cfg[k]
  }

  /** `b` is strictly above everything `a` knew, for the node `self`. */
  ghost predicate LandsAbove(a: Node, b: Node, self: Id) {
    && self in b.cfg
    && (forall k :: k in a.cfg ==> a.cfg[k] < b.cfg[self])
    && (forall k :: k in b.cfg && k != self ==> b.cfg[k] < b.cfg[self])
  }

  lemma HeaderKeeps(n: Node, m: Msg)
    requires Dominates(n) && Honest(m)
    ensures Dominates(OnHeader(n, m)) && Grows(n, OnHeader(n, m))
    ensures m.from in n.cfg ==> m.cur <= OnHeader(n, m).cur
  {
  }

  /** Processing a header from a known node is the least change that learns both its epochs: every state that
      has grown from the old one and knows them has grown from the new one too. */
  lemma HeaderIsLeast(n: Node, m: Msg, x: Node)
    requires m.from in n.cfg && Grows(n, x) && x.cfg.Keys == n.cfg.Keys && m.cur <= x.cur && m.cfg <= x.cfg[m.from]
    ensures Grows(OnHeader(n, m), x)
    ensures m.cur <= OnHeader(n, m).cur && m.cfg <= OnHeader(n, m).cfg[m.from]
  {
    var h := OnHeader(n, m);
    forall k | k in h.cfg && k in x.cfg ensures h.cfg[k] <= x.cfg[k] {
      assert n.cfg[k] <= x.cfg[k];
    }
  }

  /** A bump or a collision move lands strictly above every configEpoch the node knows. */
  lemma FreshKeeps(n: Node, self: Id)
    requires Dominates(n)
    ensures Dominates(Fresh(n, self)) && Grows(n, Fresh(n, self)) && LandsAbove(n, Fresh(n, self), self)
  {
  }

  lemma UpdateKeeps(n: Node, m: Msg)
    requires Dominates(n) && Honest(m) && m.body.Update?
    ensures Dominates(OnUpdate(n, m)) && Grows(n, OnUpdate(n, m))
  {
    hide OnHeader;
    HeaderKeeps(n, m);
    HeaderKnows(n, m);
  }

  /** An UPDATE teaches the epoch it reports, and no more than its header and that. */
  lemma UpdateIsLeast(n: Node, m: Msg, x: Node)
    requires m.body.Update? && m.from in n.cfg && m.body.about in n.cfg && x.cfg.Keys == n.cfg.Keys
    requires Grows(OnHeader(n, m), x) && m.body.epoch <= x.cfg[m.body.about]
    ensures Grows(OnUpdate(n, m), x) && m.body.about in OnUpdate(n, m).cfg
    ensures m.body.epoch <= OnUpdate(n, m).cfg[m.body.about]
  {
    hide OnHeader;
    HeaderKnows(n, m);
    var h := OnHeader(n, m);
    var u := OnUpdate(n, m);
    forall k | k in u.cfg && k in x.cfg ensures u.cfg[k] <= x.cfg[k] {
      assert k in h.cfg;
    }
  }

  /** Two masters with the same configEpoch that hear from each other: the one with the smaller name moves, above
      everything it knows, and the other one does not. */
  lemma OneOfTwoMoves(a: Node, b: Node, i: Id, j: Id)
    requires Dominates(a) && Dominates(b) && i < j
    requires i in a.cfg && j in a.cfg && i in b.cfg && j in b.cfg
    requires a.cfg[i] == b.cfg[j] && a.cfg[j] <= b.cfg[j] && b.cfg[i] <= a.cfg[i]
    ensures var a' := OnPlain(a, i, Msg(j, b.cur, b.cfg[j], Plain), true);
      var b' := OnPlain(b, j, Msg(i, a.cur, a.cfg[i], Plain), true);
      && a'.cfg.Keys == a.cfg.Keys && b'.cfg.Keys == b.cfg.Keys
      && a'.cfg[i] > a.cfg[i] && LandsAbove(a, a', i) && b'.cfg[j] == b.cfg[j] && a'.cfg[i] != b'.cfg[j]
  {
    var m := Msg(j, b.cur, b.cfg[j], Plain);
    HeaderKeeps(a, m);
    HeaderKnows(a, m);
    FreshKeeps(OnHeader(a, m), i);
  }

  lemma HeaderKnows(n: Node, m: Msg)
    ensures OnHeader(n, m).cfg.Keys == n.cfg.Keys
    ensures OnHeader(n, m) == n.(cur := OnHeader(n, m).cur, cfg := OnHeader(n, m).cfg)
  {
  }

  /** While currentEpoch dominates, the maximum over all known nodes is currentEpoch itself. */
  lemma MaxEpochIsCurrent(n: Node, e: nat)
    requires Dominates(n) && IsMaxEpoch(n, e)
    ensures e == n.cur
  {
  }

  // ---------------------------------------------------------------- the server

  method AnyOf<T(==)>(s: set<T>) returns (x: T)
    requires s != {}
    ensures x in s
  {
    x :| x in s;
  }

  /** clusterGetMaxEpoch. */
  method GetMaxEpoch(n: Node) returns (max: nat)
    ensures IsMaxEpoch(n, max)
  {
    max := 0;
    var left := n.cfg.Keys;
    while left != {}
      invariant left <= n.cfg.Keys
      invariant forall k :: k in n.cfg && k !in left ==> n.cfg[k] <= max
      invariant max == 0 || exists k :: k in n.cfg && n.cfg[k] == max
      decreases left
    {
      var k := AnyOf(left);
      if n.cfg[k] > max { max := n.cfg[k]; }
      left := left - {k};
    }
    if max < n.cur { max := n.cur; }
  }

  /** The loop of the voter over the claimed slots. */
  method TestClaims(cfg: map<Id, nat>, b: Ballot, epoch: nat) returns (ok: bool)
    requires |b.claimed| == |b.owners|
    requires forall j :: 0 <= j < |b.owners| && b.owners[j].Some? ==> b.owners[j].value in cfg
    ensures ok <==> ClaimsCurrent(cfg, b, epoch)
  {
    for j := 0 to |b.claimed|
      invariant forall i :: 0 <= i < j && b.claimed[i] ==> Yields(cfg, b, i, epoch)
    {
      if b.claimed[j] && b.owners[j].Some? && cfg[b.owners[j].value] > epoch {
        assert !Yields(cfg, b, j, epoch);
        return false;
      }
    }
    return true;
  }

  lemma OnlyOne<T>(s: set<T>, x: T)
    requires |s| <= 1 && x in s
    ensures s == {x}
  {
    assert |s - {x}| == |s| - 1;
    assert s == s - {x} + {x};
  }

  class Server {
    const self: Id
    var cur: nat
    var cfg: map<Id, nat>
    var lastVote: nat
    var authEpoch: nat
    var authCount: nat
    var authSent: bool

    function State(): Node
      reads this
    {
      Node(cur, cfg, lastVote, authEpoch, authCount, authSent)
    }

    /** A fresh node knows only itself, with every epoch at zero. */
    constructor (self: Id)
      ensures this.self == self && State() == Node(0, map[self := 0], 0, 0, 0, false)
    {
      this.self := self;
      cur, cfg, lastVote, authEpoch, authCount, authSent := 0, map[self := 0], 0, 0, 0, false;
    }

    /** clusterAddNode: a node is first known at epoch zero. */
    method AddNode(n: Id) returns (ok: bool)
      modifies this`cfg
      ensures ok <==> n !in old(cfg)
      ensures cfg == if ok then old(cfg)[n := 0] else old(cfg)
    {
      ok := n !in cfg;
      if ok { cfg := cfg[n := 0]; }
    }

    /** clusterDelNode, as far as epochs go. */
    method DelNode(n: Id)
      modifies this`cfg
      ensures cfg == old(cfg) - {n}
    {
      cfg := cfg - {n};
    }

    /** CLUSTER SET-CONFIG-EPOCH: only for a node that knows no other and has no epoch yet. */
    method SetConfigEpoch(epoch: int) returns (ok: bool)
      requires self in cfg
      modifies this`cur, this`cfg
      ensures ok <==> epoch >= 0 && |old(cfg)| <= 1 && old(cfg)[self] == 0
      ensures ok ==> cfg == map[self := epoch] && cur >= old(cur) && cur >= epoch && (cur == old(cur) || cur == epoch)
      ensures !ok ==> State() == old(State())
    {
      if epoch < 0 || |cfg| > 1 || cfg[self] != 0 { return false; }
      OnlyOne(cfg.Keys, self);
      cfg := cfg[self := epoch];
      if cur < epoch { cur := epoch; }
      return true;
    }

    /** The epoch part of clusterProcessPacket, for every message type. */
    method ProcessHeader(m: Msg)
      modifies this`cur, this`cfg
      ensures State() == OnHeader(old(State()), m)
      ensures m.from in old(cfg) ==>
        && cur >= old(cur) && cur >= m.cur && (cur == old(cur) || cur == m.cur)
        && cfg == old(cfg)[m.from := if m.cfg > old(cfg)[m.from] then m.cfg else old(cfg)[m.from]]
      ensures m.from !in old(cfg) ==> cur == old(cur) && cfg == old(cfg)
    {
      if m.from in cfg {
        if m.cur > cur { cur := m.cur; }
        if m.cfg > cfg[m.from] {
          cfg := cfg[m.from := m.cfg];
        }
        assert cfg == old(cfg)[m.from := Max(old(cfg)[m.from], m.cfg)];
      }
    }

    /** clusterHandleConfigEpochCollision, after the header of a ping or pong: of two masters that find out about
        each other with the same configEpoch, the one with the smaller name moves to a new one. */
    method ProcessPlain(m: Msg, bothMasters: bool) returns (ghost moved: bool)
      requires self in cfg
      modifies this`cur, this`cfg
      ensures State() == OnPlain(old(State()), self, m, bothMasters)
      ensures self != m.from ==>
        (moved <==> m.from in old(cfg) && bothMasters && old(cfg)[m.from] <= m.cfg == old(cfg)[self] && self < m.from)
      ensures moved ==> cur == old(cur) + 1 > m.cur || cur == m.cur + 1 > old(cur)
      ensures moved ==> cfg == old(cfg)[m.from := m.cfg][self := cur]
      ensures !moved ==> State() == OnHeader(old(State()), m)
    {
      moved := false;
      ProcessHeader(m);
      if m.from in cfg && bothMasters && m.cfg == cfg[self] {
        if cfg[m.from] != cfg[self] { return; }
        if m.from <= self { return; }
        cur := cur + 1;
        cfg := cfg[self := cur];
        moved := true;
      }
    }

    /** The UPDATE case of clusterProcessPacket. */
    method ProcessUpdate(m: Msg)
      requires m.body.Update?
      modifies this`cur, this`cfg
      ensures State() == OnUpdate(old(State()), m) && cur == OnHeader(old(State()), m).cur
      ensures m.from in old(cfg) && m.body.about in old(cfg) ==>
        var before := OnHeader(old(State()), m).cfg;
        cfg == before[m.body.about := if before[m.body.about] < m.body.epoch then m.body.epoch else before[m.body.about]]
      ensures m.from !in old(cfg) || m.body.about !in old(cfg) ==> cfg == OnHeader(old(State()), m).cfg
    {
      ProcessHeader(m);
      if m.from !in cfg || m.body.about !in cfg { return; }
      if cfg[m.body.about] >= m.body.epoch { return; }
      cfg := cfg[m.body.about := m.body.epoch];
    }

    /** clusterBumpConfigEpochWithoutConsensus: moves exactly when the node's own epoch is zero or is
        not the greatest one it knows. */
    method BumpWithoutConsensus() returns (moved: bool)
      requires self in cfg
      modifies this`cur, this`cfg
      ensures forall e :: IsMaxEpoch(old(State()), e) ==> (moved <==> old(cfg[self]) == 0 || old(cfg[self]) != e)
      ensures old(Dominates(State())) ==> (moved <==> old(cfg[self]) == 0 || old(cfg[self]) != old(cur))
      ensures State() == if moved then Fresh(old(State()), self) else old(State())
      ensures moved ==> cur == old(cur) + 1 && cfg == old(cfg)[self := old(cur) + 1]
    {
      var max := GetMaxEpoch(State());
      ghost var before := State();
      assert Dominates(before) ==> max == cur by {
        if Dominates(before) { MaxEpochIsCurrent(before, max); }
      }
      forall e | IsMaxEpoch(before, e) ensures e == max {
      }
      if cfg[self] == 0 || cfg[self] != max {
        cur := cur + 1;
        cfg := cfg[self := cur];
        return true;
      }
      return false;
    }

    /** clusterSendFailoverAuthIfNeeded, after the header of the request. */
    method SendFailoverAuthIfNeeded(m: Msg, b: Ballot) returns (granted: bool)
      requires |b.claimed| == |b.owners|
      requires forall j :: 0 <= j < |b.owners| && b.owners[j].Some? ==> b.owners[j].value in cfg
      modifies this`cur, this`cfg, this`lastVote
      ensures State() == OnRequest(old(State()), m, b)
      ensures granted <==> Grants(OnHeader(old(State()), m), m, b)
      ensures granted <==>
        && m.from in old(cfg) && b.voterServes && m.cur >= old(cur) && m.cur != old(lastVote)
        && !b.requesterIsMaster && b.masterKnown && (b.masterFailed || b.forced) && !b.votedRecently
        && forall j :: 0 <= j < |b.claimed| && b.claimed[j] && b.owners[j].Some? ==>
             old(cfg)[b.owners[j].value] <= m.cfg
      ensures lastVote == if granted then m.cur else old(lastVote)
      ensures cur == OnHeader(old(State()), m).cur && cfg == OnHeader(old(State()), m).cfg
    {
      ProcessHeader(m);
      HeaderKnows(old(State()), m);
      assert cfg == OnHeader(old(State()), m).cfg;
      assert cfg.Keys == old(cfg).Keys;
      if m.from !in cfg { return false; }
      if !b.voterServes { return false; }
      if m.cur < cur { return false; }
      if lastVote == cur { return false; }
      if b.requesterIsMaster || !b.masterKnown || (!b.masterFailed && !b.forced) { return false; }
      if b.votedRecently { return false; }
      var ok := TestClaims(cfg, b, m.cfg);
      if !ok { return false; }
      lastVote := cur;
      return true;
    }

    /** The FAILOVER_AUTH_ACK case of clusterProcessPacket. */
    method ProcessAck(m: Msg, serves: bool)
      modifies this`cur, this`cfg, this`authCount
      ensures State() == OnAck(old(State()), m, serves)
      ensures authCount == old(authCount) + if m.from in old(cfg) && serves && m.cur >= old(authEpoch) then 1 else 0
    {
      ProcessHeader(m);
      if m.from in cfg && serves && m.cur >= authEpoch {
        authCount := authCount + 1;
      }
    }

    /** One call of clusterHandleSlaveFailover past its preconditions: schedule an election, ask for
        votes, or take over with the votes of more than half of the masters. The winner's configEpoch becomes
        the epoch of its election. */
    method HandleSlaveFailover(retryElapsed: bool, tooEarly: bool, expired: bool, size: nat)
      returns (asked: bool, won: bool)
      requires self in cfg
      modifies this`cur, this`cfg, this`authEpoch, this`authCount, this`authSent
      ensures asked <==> !retryElapsed && !tooEarly && !expired && !old(authSent)
      ensures won <==> !retryElapsed && !tooEarly && !expired && old(authSent) && 2 * old(authCount) > size
      ensures won <==> !retryElapsed && !tooEarly && !expired && Elected(old(State()), size)
      ensures State() ==
        if retryElapsed then Scheduled(old(State()))
        else if asked then Asked(old(State()))
        else if won then Promoted(old(State()), self)
        else old(State())
      ensures retryElapsed ==> authCount == 0 && !authSent && cur == old(cur) && authEpoch == old(authEpoch)
      ensures asked ==> cur == authEpoch == old(cur) + 1 && authSent && authCount == old(authCount)
      ensures won ==> cfg[self] >= authEpoch && (cfg[self] == authEpoch || cfg[self] == old(cfg)[self])
      ensures won ==> cur == old(cur) && authEpoch == old(authEpoch)
      ensures self in cfg && old(cfg)[self] <= cfg[self] && cfg == old(cfg)[self := cfg[self]]
      ensures !won ==> cfg == old(cfg)
    {
      asked, won := false, false;
      if retryElapsed {
        authCount := 0;
        authSent := false;
        return;
      }
      if tooEarly { return; }
      if expired { return; }
      if !authSent {
        cur := cur + 1;
        authEpoch := cur;
        authSent := true;
        return true, false;
      }
      if authCount >= size / 2 + 1 {
        if cfg[self] < authEpoch {
          cfg := cfg[self := authEpoch];
        }
        won := true;
        assert cfg == old(cfg)[self := Max(old(cfg)[self], authEpoch)];
      }
    }
  }
}
