/** The cluster as a message-passing system over the node handlers: epoch domination, vote uniqueness
    and election safety in every state of every run (`cluster.c`, Redis Cluster Specification sections
    on configuration epochs and on slave election and promotion). */
module ClusterProtocol {
  import opened ClusterNode

  datatype Vote = Vote(voter: Id, epoch: nat, candidate: Id)

  /** A won election: the epoch, the voters whose acks of that epoch were counted, the number of acks
      counted before the request went out, and the cluster size the quorum was computed from. */
  datatype Victory = Victory(who: Id, epoch: nat, voters: set<Id>, stale: nat, size: nat)

  /** The history of the current attempt: who was counted since the request, and how many acks were
      counted between the scheduling of the attempt and its request. */
  datatype Attempt = Attempt(voters: set<Id>, stale: nat)

  /** The whole cluster: the nodes, everything ever sent (acks leave when they are read), and the
      history of attempts, votes and victories. */
  datatype Sys = Sys(
    nodes: map<Id, Node>,
    attempts: map<Id, Attempt>,
    net: set<Msg>,
    votes: set<Vote>,
    wins: set<Victory>)

  /** What node `i` can do. `about` is the node whose configEpoch goes in the header: the sender, or
      its master when the sender is a slave. */
  datatype Step =
    | Learn(i: Id, n: Id)
    | Forget(i: Id, n: Id)
    | Send(i: Id, about: Id)
    | SendUpdate(i: Id, about: Id, n: Id)
    | ReceivePlain(i: Id, m: Msg, bothMasters: bool)
    | ReceiveUpdate(i: Id, m: Msg)
    | ReceiveRequest(i: Id, m: Msg, ballot: Ballot)
    | ReceiveAck(i: Id, m: Msg, serves: bool)
    | Bump(i: Id)
    | SetConfigEpoch(i: Id, epoch: nat)
    | Schedule(i: Id)
    | AskVotes(i: Id, about: Id)
    | Win(i: Id, size: nat)

  predicate Enabled(s: Sys, step: Step) {
    && step.i in s.nodes && step.i in s.nodes[step.i].cfg && step.i in s.attempts
    && var n := s.nodes[step.i];
       match step
       case Learn(i, k) => k !in n.cfg
       case Forget(i, k) => k in n.cfg && k != i
       case Send(i, about) => about in n.cfg
       case SendUpdate(i, about, k) => about in n.cfg && k in n.cfg
       case ReceivePlain(i, m, _) => m in s.net && m.body.Plain?
       case ReceiveUpdate(i, m) => m in s.net && m.body.Update?
       case ReceiveRequest(i, m, _) => m in s.net && m.body.Request?
       case ReceiveAck(i, m, _) => m in s.net && m.body == Ack(i)
       case Bump(i) => n.cfg[i] == 0 || n.cfg[i] != n.cur
       case SetConfigEpoch(i, _) => n.cfg == map[i := 0]
       case Schedule(i) => true
       case AskVotes(i, about) => about in n.cfg && !n.authSent
       case Win(i, size) => Elected(n, size)
  }

  /** The new state of the acting node. */
  function NodeAfter(n: Node, step: Step): Node
    requires step.i in n.cfg && (step.ReceiveUpdate? ==> step.m.body.Update?)
  {
    match step
    case Learn(i, k) => n.(cfg := n.cfg[k := 0])
    case Forget(i, k) => n.(cfg := n.cfg - {k})
    case Send(i, about) => n
    case SendUpdate(i, about, k) => n
    case ReceivePlain(i, m, bothMasters) => OnPlain(n, i, m, bothMasters)
    case ReceiveUpdate(i, m) => OnUpdate(n, m)
    case ReceiveRequest(i, m, ballot) => OnRequest(n, m, ballot)
    case ReceiveAck(i, m, serves) => OnAck(n, m, serves)
    case Bump(i) => Fresh(n, i)
    case SetConfigEpoch(i, epoch) => n.(cfg := n.cfg[i := epoch], cur := Max(n.cur, epoch))
    case Schedule(i) => Scheduled(n)
    case AskVotes(i, about) => Asked(n)
    case Win(i, size) => Promoted(n, i)
  }

  predicate VoteCast(n: Node, step: Step) {
    step.ReceiveRequest? && Grants(OnHeader(n, step.m), step.m, step.ballot)
  }

  /** The messages after the step: an ack is read once, everything else may be read again. */
  function NetAfter(n: Node, net: set<Msg>, step: Step): set<Msg>
    requires step.i in n.cfg
    requires step.Send? || step.SendUpdate? || step.AskVotes? ==> step.about in n.cfg
    requires step.SendUpdate? ==> step.n in n.cfg
  {
    if step.Send? then net + {Msg(step.i, n.cur, n.cfg[step.about], Plain)}
    else if step.SendUpdate? then net + {Msg(step.i, n.cur, n.cfg[step.about], Update(step.n, n.cfg[step.n]))}
    else if step.AskVotes? then net + {Msg(step.i, n.cur + 1, n.cfg[step.about], Request)}
    else if VoteCast(n, step) then
      var h := OnHeader(n, step.m);
      net + {Msg(step.i, h.cur, if step.i in h.cfg then h.cfg[step.i] else 0, Ack(step.m.from))}
    else if step.ReceiveAck? then net - {step.m}
    else net
  }

  function AttemptAfter(n: Node, a: Attempt, step: Step): Attempt {
    if step.Schedule? then Attempt({}, 0)
    else if step.ReceiveAck? && Counts(OnHeader(n, step.m), step.m, step.serves) then
      if n.authSent then a.(voters := a.voters + {step.m.from}) else a.(stale := a.stale + 1)
    else a
  }

  function Next(s: Sys, step: Step): Sys
    requires Enabled(s, step)
  {
    var n, a := s.nodes[step.i], s.attempts[step.i];
    Sys(
      s.nodes[step.i := NodeAfter(n, step)],
      s.attempts[step.i := AttemptAfter(n, a, step)],
      NetAfter(n, s.net, step),
      if VoteCast(n, step) then s.votes + {Vote(step.i, OnHeader(n, step.m).cur, step.m.from)} else s.votes,
      if step.Win? then s.wins + {Victory(step.i, n.authEpoch, a.voters, a.stale, step.size)} else s.wins)
  }

  /** Every node starts with all its epochs at zero; it knows itself and possibly others. */
  ghost predicate Start(s: Sys) {
    && s.net == {} && s.votes == {} && s.wins == {} && s.attempts.Keys == s.nodes.Keys
    && forall i :: i in s.nodes ==> Unused(s.nodes[i], i) && s.attempts[i] == Attempt({}, 0)
  }

  ghost predicate Unused(n: Node, i: Id) {
    i in n.cfg && n == Node(0, n.cfg, 0, 0, 0, false) && forall k :: k in n.cfg ==> n.cfg[k] == 0
  }

  ghost predicate IsRun(ss: seq<Sys>, steps: seq<Step>) {
    && |ss| == |steps| + 1 && Start(ss[0])
    && forall k :: 0 <= k < |steps| ==> Enabled(ss[k], steps[k]) && ss[k + 1] == Next(ss[k], steps[k])
  }

  // ---------------------------------------------------------------- epochs

  ghost predicate EpochsOk(s: Sys) {
    && (forall i :: i in s.nodes ==> Dominates(s.nodes[i]) && i in s.nodes[i].cfg)
    && (forall m :: m in s.net ==> Honest(m) && m.from in s.nodes)
    && s.attempts.Keys == s.nodes.Keys
  }

  lemma NodeKeeps(n: Node, step: Step)
    requires step.i in n.cfg && (step.ReceiveUpdate? ==> step.m.body.Update?)
    requires Dominates(n)
    requires step.ReceivePlain? || step.ReceiveUpdate? || step.ReceiveRequest? || step.ReceiveAck? ==> Honest(step.m)
    requires step.Learn? ==> step.n !in n.cfg
    requires step.Forget? ==> step.n != step.i
    requires step.SetConfigEpoch? ==> n.cfg == map[step.i := 0]
    ensures Dominates(NodeAfter(n, step)) && Grows(n, NodeAfter(n, step)) && step.i in NodeAfter(n, step).cfg
  {
    hide OnHeader, Grants;
    if step.ReceivePlain? {
      HeaderKeeps(n, step.m);
      HeaderKnows(n, step.m);
      FreshKeeps(OnHeader(n, step.m), step.i);
    } else if step.ReceiveUpdate? {
      hide OnUpdate;
      UpdateKeeps(n, step.m);
      UpdateKnows(n, step.m);
    } else if step.ReceiveRequest? || step.ReceiveAck? {
      HeaderKeeps(n, step.m);
      HeaderKnows(n, step.m);
    }
  }

  lemma UpdateKnows(n: Node, m: Msg)
    requires m.body.Update?
    ensures OnUpdate(n, m).cfg.Keys == n.cfg.Keys
  {
    hide OnHeader;
    HeaderKnows(n, m);
    var h := OnHeader(n, m);
    if m.body.about in h.cfg {
      assert h.cfg[m.body.about := m.body.epoch].Keys == h.cfg.Keys;
    }
  }

  lemma NetKeeps(n: Node, net: set<Msg>, step: Step)
    requires Dominates(n) && step.i in n.cfg
    requires step.Send? || step.SendUpdate? || step.AskVotes? ==> step.about in n.cfg
    requires step.SendUpdate? ==> step.n in n.cfg
    requires step.ReceiveRequest? ==> Honest(step.m)
    ensures forall m :: m in NetAfter(n, net, step) ==> m in net || (Honest(m) && m.from == step.i)
  {
    hide OnHeader, Grants;
    if step.ReceiveRequest? {
      HeaderKeeps(n, step.m);
    }
  }

  lemma EpochStep(s: Sys, step: Step)
    requires EpochsOk(s) && Enabled(s, step)
    ensures EpochsOk(Next(s, step))
    ensures Grows(s.nodes[step.i], Next(s, step).nodes[step.i])
  {
    hide NodeAfter, NetAfter, AttemptAfter, VoteCast, Dominates, Grows, Honest;
    NodeKeeps(s.nodes[step.i], step);
    NetKeeps(s.nodes[step.i], s.net, step);
  }

  // ---------------------------------------------------------------- votes

  ghost predicate VotesBounded(s: Sys) {
    forall v :: v in s.votes ==>
      && v.voter in s.nodes && v.epoch <= s.nodes[v.voter].lastVote
      && v.candidate in s.nodes && v.epoch <= s.nodes[v.candidate].authEpoch
  }

  /** A node grants at most one vote per epoch. */
  ghost predicate OneVotePerEpoch(votes: set<Vote>) {
    forall v, w :: v in votes && w in votes && v.voter == w.voter && v.epoch == w.epoch ==> v == w
  }

  ghost predicate RequestsBounded(s: Sys) {
    forall m :: m in s.net && m.body.Request? ==>
      m.from in s.nodes && m.cur <= s.nodes[m.from].authEpoch
  }

  /** An ack in flight stands for a vote, and no vote has two acks in flight. */
  ghost predicate AcksOk(s: Sys) {
    && (forall m :: m in s.net && m.body.Ack? ==> Vote(m.from, m.cur, m.body.to) in s.votes)
    && (forall m, k ::
          m in s.net && k in s.net && m.body.Ack? && k.body.Ack? && m.from == k.from && m.cur == k.cur ==> m == k)
  }

  ghost predicate VotesOk(s: Sys) {
    VotesBounded(s) && OneVotePerEpoch(s.votes) && RequestsBounded(s) && AcksOk(s)
  }

  /** What casting a vote requires and does. */
  lemma CastFacts(n: Node, step: Step)
    requires step.i in n.cfg && VoteCast(n, step) && Dominates(n) && Honest(step.m)
    ensures OnHeader(n, step.m).cur == step.m.cur && n.lastVote < step.m.cur
    ensures NodeAfter(n, step).lastVote == step.m.cur && NodeAfter(n, step).authEpoch == n.authEpoch
  {
    hide ClaimsCurrent;
    HeaderKeeps(n, step.m);
    HeaderKnows(n, step.m);
  }

  /** Only asking for votes changes the election epoch. */
  lemma AuthFacts(n: Node, step: Step)
    requires step.i in n.cfg && (step.ReceiveUpdate? ==> step.m.body.Update?)
    ensures !step.AskVotes? ==> NodeAfter(n, step).authEpoch == n.authEpoch
    ensures !step.AskVotes? && !step.Schedule? ==> NodeAfter(n, step).authSent == n.authSent
    ensures !step.ReceiveAck? && !step.Schedule? ==> NodeAfter(n, step).authCount == n.authCount
  {
    hide Grants, Counts, Collides;
  }

  ghost predicate IsNewAck(n: Node, net: set<Msg>, step: Step, m: Msg)
    requires step.i in n.cfg
    requires step.Send? || step.SendUpdate? || step.AskVotes? ==> step.about in n.cfg
    requires step.SendUpdate? ==> step.n in n.cfg
  {
    m in NetAfter(n, net, step) && m.body.Ack? && m !in net
  }

  /** What a step does to the messages: at most one request or one ack appears. */
  lemma NetFacts(n: Node, net: set<Msg>, step: Step)
    requires Dominates(n) && step.i in n.cfg
    requires step.Send? || step.SendUpdate? || step.AskVotes? ==> step.about in n.cfg
    requires step.SendUpdate? ==> step.n in n.cfg
    requires step.ReceiveRequest? ==> Honest(step.m)
    ensures forall m :: m in NetAfter(n, net, step) && m.body.Request? && m !in net ==>
      step.AskVotes? && m.from == step.i && m.cur == n.cur + 1
    ensures forall m :: m in NetAfter(n, net, step) && m.body.Ack? && m !in net ==>
      VoteCast(n, step) && m.from == step.i && m.cur == step.m.cur && m.body.to == step.m.from
    ensures forall m, k :: IsNewAck(n, net, step, m) && IsNewAck(n, net, step, k) ==> m == k
    ensures step.ReceiveAck? ==> NetAfter(n, net, step) == net - {step.m}
  {
    hide VoteCast, NodeAfter, OnHeader, Grants;
    if VoteCast(n, step) {
      IsCast(n, step);
      CastFacts(n, step);
    }
    if step.ReceiveAck? && VoteCast(n, step) {
      IsCast(n, step);
    }
  }

  lemma IsCast(n: Node, step: Step)
    requires VoteCast(n, step)
    ensures step.ReceiveRequest?
  {
  }

  lemma VotesStep(s: Sys, step: Step)
    requires EpochsOk(s) && VotesOk(s) && Enabled(s, step)
    ensures VotesOk(Next(s, step))
  {
    BoundsStep(s, step);
    AcksStep(s, step);
  }

  lemma BoundsStep(s: Sys, step: Step)
    requires EpochsOk(s) && VotesOk(s) && Enabled(s, step)
    ensures VotesBounded(Next(s, step)) && OneVotePerEpoch(Next(s, step).votes) && RequestsBounded(Next(s, step))
  {
    hide NodeAfter, NetAfter, AttemptAfter, VoteCast, AcksOk, OnHeader, Grants, Honest, Dominates;
    var n := s.nodes[step.i];
    EpochStep(s, step);
    NetFacts(n, s.net, step);
    if VoteCast(n, step) {
      IsCast(n, step);
      CastFacts(n, step);
      AuthFacts(n, step);
    }
    if step.AskVotes? {
      assert NodeAfter(n, step) == Asked(n) by { AskedIs(n, step); }
    }
  }

  lemma AskedIs(n: Node, step: Step)
    requires step.i in n.cfg && step.AskVotes?
    ensures NodeAfter(n, step) == Asked(n)
  {
  }

  lemma AcksStep(s: Sys, step: Step)
    requires EpochsOk(s) && VotesOk(s) && Enabled(s, step)
    ensures AcksOk(Next(s, step))
  {
    hide NodeAfter, NetAfter, AttemptAfter, VoteCast, OnHeader, Grants, Honest, Dominates, RequestsBounded;
    var n := s.nodes[step.i];
    NetFacts(n, s.net, step);
    if VoteCast(n, step) {
      IsCast(n, step);
      CastFacts(n, step);
    }
    var net := NetAfter(n, s.net, step);
    forall m, k | m in net && k in net && m.body.Ack? && k.body.Ack? && m.from == k.from && m.cur == k.cur
      ensures m == k
    {
      assert m !in s.net && k !in s.net ==> IsNewAck(n, s.net, step, m) && IsNewAck(n, s.net, step, k);
    }
  }

  // ---------------------------------------------------------------- counting

  /** The count is the voters seen since the request plus the acks seen before it; every voter seen
      since the request voted for this node in this epoch, and has no ack left in flight. */
  ghost predicate AttemptOk(s: Sys, i: Id)
    requires i in s.nodes && i in s.attempts
  {
    var n, a := s.nodes[i], s.attempts[i];
    && (!n.authSent ==> a.voters == {})
    && n.authCount == |a.voters| + a.stale
    && (forall v :: v in a.voters ==> Vote(v, n.authEpoch, i) in s.votes)
    && (n.authSent ==> forall m :: m in s.net && m.body == Ack(i) && m.cur == n.authEpoch ==> m.from !in a.voters)
  }

  ghost predicate AttemptsOk(s: Sys) {
    s.attempts.Keys == s.nodes.Keys && forall i :: i in s.nodes ==> AttemptOk(s, i)
  }

  ghost predicate WinsOk(s: Sys) {
    forall w :: w in s.wins ==>
      && (forall v :: v in w.voters ==> Vote(v, w.epoch, w.who) in s.votes)
      && |w.voters| + w.stale >= w.size / 2 + 1
  }

  lemma AttemptsStep(s: Sys, step: Step)
    requires EpochsOk(s) && VotesOk(s) && AttemptsOk(s) && Enabled(s, step)
    ensures AttemptsOk(Next(s, step))
  {
    hide NodeAfter, NetAfter, AttemptAfter, VoteCast, OnHeader, Grants, Honest, Dominates, VotesOk, AttemptOk;
    forall i | i in s.nodes ensures AttemptOk(Next(s, step), i) {
      if i == step.i { ActorStep(s, step); } else { BystanderStep(s, step, i); }
    }
  }

  /** Nothing another node does touches this node's attempt, except a fresh ack in flight. */
  lemma BystanderStep(s: Sys, step: Step, i: Id)
    requires EpochsOk(s) && VotesOk(s) && AttemptsOk(s) && Enabled(s, step) && i in s.nodes && i != step.i
    ensures AttemptOk(Next(s, step), i)
  {
    hide NodeAfter, NetAfter, AttemptAfter, VoteCast, OnHeader, Grants, Honest, Dominates, RequestsBounded;
    var n := s.nodes[step.i];
    assert AttemptOk(s, i);
    NetFacts(n, s.net, step);
    if VoteCast(n, step) {
      IsCast(n, step);
      CastFacts(n, step);
    }
  }

  lemma ActorStep(s: Sys, step: Step)
    requires EpochsOk(s) && VotesOk(s) && AttemptsOk(s) && Enabled(s, step)
    ensures AttemptOk(Next(s, step), step.i)
  {
    hide NodeAfter, NetAfter, OnHeader, Grants, Honest, Dominates, VoteCast, AttemptAfter;
    var n, a := s.nodes[step.i], s.attempts[step.i];
    assert AttemptOk(s, step.i);
    NetFacts(n, s.net, step);
    if step.ReceiveAck? {
      AckStep(s, step);
    } else {
      AuthFacts(n, step);
      assert AttemptAfter(n, a, step) == if step.Schedule? then Attempt({}, 0) else a by { AttemptIs(n, a, step); }
      if step.Schedule? {
        ScheduledIs(n, step);
      } else if step.AskVotes? {
        AskedIs(n, step);
      } else if VoteCast(n, step) {
        IsCast(n, step);
        CastFacts(n, step);
      }
    }
  }

  lemma AttemptIs(n: Node, a: Attempt, step: Step)
    requires !step.ReceiveAck?
    ensures AttemptAfter(n, a, step) == if step.Schedule? then Attempt({}, 0) else a
  {
  }

  lemma ScheduledIs(n: Node, step: Step)
    requires step.i in n.cfg && step.Schedule?
    ensures NodeAfter(n, step) == Scheduled(n)
  {
  }

  /** Reading an ack: after the request it is a new voter of this epoch; before it, a stale one. */
  lemma AckStep(s: Sys, step: Step)
    requires EpochsOk(s) && VotesOk(s) && AttemptsOk(s) && Enabled(s, step) && step.ReceiveAck?
    ensures AttemptOk(Next(s, step), step.i)
  {
    hide NetAfter, OnHeader, Grants, Honest, Dominates, VoteCast, RequestsBounded;
    var n, a, m := s.nodes[step.i], s.attempts[step.i], step.m;
    assert AttemptOk(s, step.i);
    NetFacts(n, s.net, step);
    HeaderKnows(n, m);
    NotCast(n, step);
    assert Vote(m.from, m.cur, step.i) in s.votes;
    var n', a' := NodeAfter(n, step), AttemptAfter(n, a, step);
    if Counts(OnHeader(n, m), m, step.serves) && n.authSent {
      assert m.cur == n.authEpoch;
      assert a'.voters == a.voters + {m.from};
      forall k | k in s.net - {m} && k.body == Ack(step.i) && k.cur == n.authEpoch ensures k.from !in a'.voters {
      }
    }
  }

  lemma NotCast(n: Node, step: Step)
    requires !step.ReceiveRequest?
    ensures !VoteCast(n, step)
  {
  }

  lemma WinsStep(s: Sys, step: Step)
    requires EpochsOk(s) && AttemptsOk(s) && WinsOk(s) && Enabled(s, step)
    ensures WinsOk(Next(s, step))
  {
    hide NodeAfter, NetAfter, AttemptAfter, VoteCast, OnHeader, Grants, Honest, Dominates;
    assert AttemptOk(s, step.i);
  }

  // ---------------------------------------------------------------- every run

  ghost predicate Inv(s: Sys) {
    EpochsOk(s) && VotesOk(s) && AttemptsOk(s) && WinsOk(s)
  }

  lemma StartKeeps(s: Sys)
    requires Start(s)
    ensures Inv(s)
  {
  }

  lemma {:induction false} RunKeeps(ss: seq<Sys>, steps: seq<Step>, k: nat)
    requires IsRun(ss, steps) && k <= |steps|
    ensures Inv(ss[k])
  {
    hide Start, Next, Enabled, EpochsOk, VotesOk, AttemptsOk, WinsOk;
    if k == 0 {
      StartKeeps(ss[0]);
    } else {
      RunKeeps(ss, steps, k - 1);
      assert ss[k - 1 + 1] == Next(ss[k - 1], steps[k - 1]);
      EpochStep(ss[k - 1], steps[k - 1]);
      VotesStep(ss[k - 1], steps[k - 1]);
      AttemptsStep(ss[k - 1], steps[k - 1]);
      WinsStep(ss[k - 1], steps[k - 1]);
    }
  }

  /** Epoch domination: in every state of every run, each node's currentEpoch is at least every
      configEpoch it stores, and every message carries configEpochs no greater than its currentEpoch. */
  lemma EpochDomination(ss: seq<Sys>, steps: seq<Step>, k: nat)
    requires IsRun(ss, steps) && k <= |steps|
    ensures forall i, p :: i in ss[k].nodes && p in ss[k].nodes[i].cfg ==> ss[k].nodes[i].cfg[p] <= ss[k].nodes[i].cur
    ensures forall m :: m in ss[k].net ==> m.cfg <= m.cur && (m.body.Update? ==> m.body.epoch <= m.cur)
  {
    hide VotesOk, AttemptsOk, WinsOk, Start;
    RunKeeps(ss, steps, k);
    forall i, p | i in ss[k].nodes && p in ss[k].nodes[i].cfg ensures ss[k].nodes[i].cfg[p] <= ss[k].nodes[i].cur {
      assert Dominates(ss[k].nodes[i]);
    }
    assert forall m :: m in ss[k].net ==> Honest(m);
  }

  /** Epochs are monotone: a node's currentEpoch never decreases along a run, nor does the configEpoch
      it stores for a node it never forgets. */
  lemma {:induction false} EpochsMonotone(ss: seq<Sys>, steps: seq<Step>, j: nat, k: nat, i: Id)
    requires IsRun(ss, steps) && j <= k <= |steps| && i in ss[j].nodes
    ensures i in ss[k].nodes && ss[j].nodes[i].cur <= ss[k].nodes[i].cur
    ensures forall p ::
      p in ss[j].nodes[i].cfg && (forall t :: j <= t <= k ==> i in ss[t].nodes && p in ss[t].nodes[i].cfg) ==>
        ss[j].nodes[i].cfg[p] <= ss[k].nodes[i].cfg[p]
    decreases k
  {
    hide NodeAfter, NetAfter, AttemptAfter, VoteCast, Start, EpochsOk, VotesOk, AttemptsOk, WinsOk;
    if j < k {
      EpochsMonotone(ss, steps, j, k - 1, i);
      RunKeeps(ss, steps, k - 1);
      assert ss[k - 1 + 1] == Next(ss[k - 1], steps[k - 1]);
      EpochStep(ss[k - 1], steps[k - 1]);
      assert Grows(ss[k - 1].nodes[i], ss[k].nodes[i]);
    }
  }

  /** A bump, or a collision move, puts the node's own configEpoch strictly above every configEpoch it
      knew before the step and above every other one it knows after. */
  lemma MovesLandAbove(ss: seq<Sys>, steps: seq<Step>, k: nat)
    requires IsRun(ss, steps) && k < |steps|
    requires var step := steps[k];
      step.Bump? || (step.ReceivePlain? && step.i in ss[k].nodes
        && Collides(OnHeader(ss[k].nodes[step.i], step.m), step.i, step.m, step.bothMasters))
    ensures LandsAbove(ss[k].nodes[steps[k].i], ss[k + 1].nodes[steps[k].i], steps[k].i)
  {
    hide NetAfter, AttemptAfter, VoteCast, Start, VotesOk, AttemptsOk, WinsOk, OnHeader;
    RunKeeps(ss, steps, k);
    var n, step := ss[k].nodes[steps[k].i], steps[k];
    assert ss[k + 1] == Next(ss[k], step);
    assert Dominates(n);
    if step.Bump? {
      FreshKeeps(n, step.i);
    } else {
      HeaderKeeps(n, step.m);
      HeaderKnows(n, step.m);
      FreshKeeps(OnHeader(n, step.m), step.i);
      AboveEarlier(n, OnHeader(n, step.m), Fresh(OnHeader(n, step.m), step.i), step.i);
    }
  }

  lemma AboveEarlier(a: Node, b: Node, c: Node, self: Id)
    requires Grows(a, b) && a.cfg.Keys == b.cfg.Keys && LandsAbove(b, c, self)
    ensures LandsAbove(a, c, self)
  {
  }

  /** A node grants at most one vote per epoch, in every run. */
  lemma VotesAreUnique(ss: seq<Sys>, steps: seq<Step>, k: nat)
    requires IsRun(ss, steps) && k <= |steps|
    ensures OneVotePerEpoch(ss[k].votes)
  {
    hide EpochsOk, AttemptsOk, WinsOk, Start, VotesBounded, RequestsBounded, AcksOk, OneVotePerEpoch;
    RunKeeps(ss, steps, k);
  }

  /** The count of a candidate that has asked for votes is a set of votes for it in that epoch if and only if
      no ack was counted between the scheduling of the attempt and its request. */
  lemma CountIsVotes(ss: seq<Sys>, steps: seq<Step>, k: nat, i: Id)
    requires IsRun(ss, steps) && k <= |steps| && i in ss[k].nodes
    ensures i in ss[k].attempts
    ensures forall v :: v in ss[k].attempts[i].voters ==> Vote(v, ss[k].nodes[i].authEpoch, i) in ss[k].votes
    ensures ss[k].nodes[i].authCount == |ss[k].attempts[i].voters| <==> ss[k].attempts[i].stale == 0
  {
    hide EpochsOk, VotesOk, WinsOk, Start, Next, Enabled;
    RunKeeps(ss, steps, k);
    assert AttemptOk(ss[k], i);
  }

  lemma {:induction false} CardSubset<T>(a: set<T>, b: set<T>)
    requires a <= b
    ensures |a| <= |b|
  {
    if a != {} {
      var x :| x in a;
      CardSubset(a - {x}, b - {x});
    }
  }

  /** Two majorities of one electorate share a voter. */
  lemma MajoritiesMeet<T>(a: set<T>, b: set<T>, all: set<T>) returns (x: T)
    requires a <= all && b <= all && |all| < |a| + |b|
    ensures x in a && x in b
  {
    assert |a + b| + |a * b| == |a| + |b|;
    CardSubset(a + b, all);
    assert a * b != {};
    x :| x in a * b;
  }

  lemma SharedVoter(s: Sys, v: Victory, w: Victory, x: Id)
    requires WinsOk(s) && OneVotePerEpoch(s.votes) && v in s.wins && w in s.wins && v.epoch == w.epoch
    requires x in v.voters && x in w.voters
    ensures v.who == w.who
  {
    assert Vote(x, v.epoch, v.who) in s.votes;
    assert Vote(x, w.epoch, w.who) in s.votes;
  }

  /** In every run, different winners of one epoch have no voter in common. */
  lemma WinnersShareNoVoter(ss: seq<Sys>, steps: seq<Step>, k: nat, v: Victory, w: Victory)
    requires IsRun(ss, steps) && k <= |steps| && v in ss[k].wins && w in ss[k].wins && v.epoch == w.epoch
    requires v.who != w.who
    ensures v.voters !! w.voters
    ensures |v.voters| + v.stale >= Quorum(v.size) && |w.voters| + w.stale >= Quorum(w.size)
  {
    hide EpochsOk, AttemptsOk, Start, VotesBounded, RequestsBounded, AcksOk, Next, Enabled;
    RunKeeps(ss, steps, k);
    forall x | x in v.voters ensures x !in w.voters {
      if x in w.voters {
        SharedVoter(ss[k], v, w, x);
        assert false;
      }
    }
  }

  /** Two victories in one epoch that together had more voters than there are masters are of one node. */
  lemma OneWinnerPerEpoch(ss: seq<Sys>, steps: seq<Step>, k: nat, v: Victory, w: Victory, masters: set<Id>)
    requires IsRun(ss, steps) && k <= |steps| && v in ss[k].wins && w in ss[k].wins && v.epoch == w.epoch
    requires v.voters <= masters && w.voters <= masters && |v.voters| + |w.voters| > |masters|
    ensures v.who == w.who
  {
    hide IsRun;
    if v.who != w.who {
      WinnersShareNoVoter(ss, steps, k, v, w);
      var x := MajoritiesMeet(v.voters, w.voters, masters);
      assert false;
    }
  }

  // ---------------------------------------------------------------- how many stale acks it takes

  function Quorum(size: nat): nat {
    size / 2 + 1
  }

  /** By how much two quorums exceed the electorate: one for an odd size, two for an even one. */
  function Threshold(size: nat): nat {
    2 * Quorum(size) - size
  }

  /** All candidates count only acks of the given masters, against their number. */
  ghost predicate FixedMasters(steps: seq<Step>, masters: set<Id>) {
    forall k :: 0 <= k < |steps| ==>
      && (steps[k].ReceiveAck? ==> (steps[k].serves <==> steps[k].m.from in masters))
      && (steps[k].Win? ==> steps[k].size == |masters|)
  }

  ghost predicate Within(s: Sys, masters: set<Id>) {
    && (forall i :: i in s.attempts ==> s.attempts[i].voters <= masters)
    && (forall w :: w in s.wins ==> w.voters <= masters && w.size == |masters|)
  }

  lemma {:induction false} WithinRun(ss: seq<Sys>, steps: seq<Step>, k: nat, masters: set<Id>)
    requires IsRun(ss, steps) && k <= |steps| && FixedMasters(steps, masters)
    ensures Within(ss[k], masters)
  {
    hide NodeAfter, NetAfter, VoteCast, OnHeader;
    if k > 0 {
      WithinRun(ss, steps, k - 1, masters);
      assert ss[k - 1 + 1] == Next(ss[k - 1], steps[k - 1]);
    }
  }

  /** The sharp bound: in every run with a fixed set of masters, two different nodes win one epoch only if the
      two attempts together counted at least as many stale acks as two quorums exceed the electorate. */
  lemma TwoWinnersNeedStale(ss: seq<Sys>, steps: seq<Step>, k: nat, v: Victory, w: Victory, masters: set<Id>)
    requires IsRun(ss, steps) && k <= |steps| && FixedMasters(steps, masters)
    requires v in ss[k].wins && w in ss[k].wins && v.epoch == w.epoch && v.who != w.who
    ensures v.stale + w.stale >= Threshold(|masters|)
  {
    hide Start, Next, Enabled;
    WithinRun(ss, steps, k, masters);
    WinnersShareNoVoter(ss, steps, k, v, w);
    assert |v.voters + w.voters| == |v.voters| + |w.voters|;
    CardSubset(v.voters + w.voters, masters);
  }

  // ---------------------------------------------------------------- elections without stale acks

  /** No ack is counted between the scheduling of an attempt and its request. */
  ghost predicate NoStaleAcks(ss: seq<Sys>, steps: seq<Step>)
    requires IsRun(ss, steps)
  {
    forall k :: 0 <= k < |steps| && CountsAck(ss[k], steps[k]) ==> ss[k].nodes[steps[k].i].authSent
  }

  ghost predicate CountsAck(s: Sys, step: Step)
    requires step.i in s.nodes
  {
    step.ReceiveAck? && Counts(OnHeader(s.nodes[step.i], step.m), step.m, step.serves)
  }

  ghost predicate Clean(s: Sys) {
    (forall i :: i in s.attempts ==> s.attempts[i].stale == 0) && (forall w :: w in s.wins ==> w.stale == 0)
  }

  lemma {:induction false} CleanRun(ss: seq<Sys>, steps: seq<Step>, k: nat)
    requires IsRun(ss, steps) && k <= |steps| && NoStaleAcks(ss, steps)
    ensures Clean(ss[k])
  {
    hide NodeAfter, NetAfter, VoteCast, OnHeader;
    if k > 0 {
      CleanRun(ss, steps, k - 1);
      assert ss[k - 1 + 1] == Next(ss[k - 1], steps[k - 1]);
    }
  }

  /** With a fixed set of masters and no stale acks, at most one node wins any epoch. */
  lemma ElectionSafety(ss: seq<Sys>, steps: seq<Step>, k: nat, v: Victory, w: Victory, masters: set<Id>)
    requires IsRun(ss, steps) && k <= |steps| && FixedMasters(steps, masters) && NoStaleAcks(ss, steps)
    requires v in ss[k].wins && w in ss[k].wins && v.epoch == w.epoch
    ensures v.who == w.who
  {
    hide Start, Next, Enabled;
    CleanRun(ss, steps, k);
    if v.who != w.who {
      TwoWinnersNeedStale(ss, steps, k, v, w, masters);
    }
  }
}
