/** Why election safety needs its condition, and that the condition is exact: failover_auth_count is zeroed
    when an attempt is scheduled, but failover_auth_epoch moves only when the votes are asked for. Acks of
    the previous attempt that arrive in between are counted. For every size of the electorate there is a
    run in which two slaves win one epoch with no more stale acks than two quorums exceed the electorate. */
module ClusterStaleAcks {
  import opened ClusterNode
  import opened ClusterProtocol

  // The masters are 1 to m. The two slaves of master 1 ask for a manual failover, which masters grant also
  // while master 1 is up.
  const FIRST: Id := 0
  const SECOND: Id := -1

  predicate Numbered(i: Id, lo: int, hi: nat) {
    lo < i <= hi
  }

  function Between(lo: nat, hi: nat): (r: set<Id>) {
    set i | lo < i <= hi && Numbered(i, lo, hi)
  }

  lemma {:induction false} BetweenSize(lo: nat, hi: nat)
    requires lo <= hi
    ensures |Between(lo, hi)| == hi - lo
  {
    if lo < hi {
      BetweenSize(lo, hi - 1);
      assert Between(lo, hi) == Between(lo, hi - 1) + {hi};
    }
  }

  function Zero(m: nat): map<Id, nat> {
    map i | -2 < i <= m && Numbered(i, -2, m) :: 0
  }

  function N(m: nat, cur: nat, lastVote: nat, authEpoch: nat, authCount: nat, authSent: bool): Node {
    Node(cur, Zero(m), lastVote, authEpoch, authCount, authSent)
  }

  /** The parts of a state: the masters that voted in epoch 1 and in epoch 2, the two slaves with their
      attempts, messages that are there and victories that happened. */
  datatype View = View(
    one: set<Id>, two: set<Id>,
    first: Node, second: Node, firstTry: Attempt, secondTry: Attempt,
    net: set<Msg>, wins: set<Victory>)

  function MasterNode(m: nat, v: View, i: Id): Node {
    if i in v.two then N(m, 2, 2, 0, 0, false) else if i in v.one then N(m, 1, 1, 0, 0, false)
    else N(m, 0, 0, 0, 0, false)
  }

  predicate IsSlave(c: Id) {
    c == FIRST || c == SECOND
  }

  function SlaveOf(v: View, c: Id): Node {
    if c == FIRST then v.first else v.second
  }

  function TryOf(v: View, c: Id): Attempt {
    if c == FIRST then v.firstTry else v.secondTry
  }

  function With(v: View, c: Id, n: Node, a: Attempt): View {
    if c == FIRST then v.(first := n, firstTry := a) else v.(second := n, secondTry := a)
  }

  ghost predicate Looks(s: Sys, m: nat, v: View) {
    && (forall i :: -1 <= i <= m <==> i in s.nodes) && (forall i :: -1 <= i <= m <==> i in s.attempts)
    && (forall i :: 1 <= i <= m ==> s.nodes[i] == MasterNode(m, v, i))
    && (forall c :: IsSlave(c) ==> c in s.nodes && c in s.attempts && s.nodes[c] == SlaveOf(v, c) && s.attempts[c] == TryOf(v, c))
    && v.net <= s.net && v.wins <= s.wins
  }

  function Voter(): Ballot {
    Ballot(true, false, true, false, true, false, [], [])
  }

  function Bystander(): Ballot {
    Voter().(voterServes := false)
  }

  function Ask(from: Id, epoch: nat): Msg {
    Msg(from, epoch, 0, Request)
  }

  function Yes(from: Id, epoch: nat, to: Id): Msg {
    Msg(from, epoch, 0, Ack(to))
  }

  // ---------------------------------------------------------------- one step at a time

  lemma HeaderAt(m: nat, n: Node, msg: Msg)
    requires n.cfg == Zero(m) && msg.cfg == 0 && -1 <= msg.from <= m
    ensures OnHeader(n, msg) == n.(cur := Max(n.cur, msg.cur))
  {
    assert Zero(m)[msg.from := 0] == Zero(m);
  }

  /** A master that has not voted since votes for the slave that asks. */
  lemma Votes(s: Sys, m: nat, v: View, i: Id, c: Id, e: nat)
    requires Looks(s, m, v) && 1 <= i <= m && IsSlave(c) && Ask(c, e) in v.net
    requires (e == 1 && i !in v.one + v.two) || (e == 2 && i !in v.two)
    ensures Enabled(s, ReceiveRequest(i, Ask(c, e), Voter()))
    ensures Looks(Next(s, ReceiveRequest(i, Ask(c, e), Voter())), m,
      (if e == 1 then v.(one := v.one + {i}) else v.(two := v.two + {i})).(net := v.net + {Yes(i, e, c)}))
  {
    hide OnHeader;
    HeaderAt(m, s.nodes[i], Ask(c, e));
  }

  /** A slave only takes the header of somebody else's request. */
  lemma Hears(s: Sys, m: nat, v: View, e: nat)
    requires Looks(s, m, v) && Ask(FIRST, e) in v.net && v.second.cfg == Zero(m)
    ensures Enabled(s, ReceiveRequest(SECOND, Ask(FIRST, e), Bystander()))
    ensures Looks(Next(s, ReceiveRequest(SECOND, Ask(FIRST, e), Bystander())), m,
      v.(second := v.second.(cur := Max(v.second.cur, e))))
  {
    hide OnHeader;
    HeaderAt(m, v.second, Ask(FIRST, e));
  }

  lemma Schedules(s: Sys, m: nat, v: View, c: Id)
    requires Looks(s, m, v) && IsSlave(c) && SlaveOf(v, c).cfg == Zero(m)
    ensures Enabled(s, Schedule(c))
    ensures Looks(Next(s, Schedule(c)), m, With(v, c, Scheduled(SlaveOf(v, c)), Attempt({}, 0)))
  {
  }

  lemma Asks(s: Sys, m: nat, v: View, c: Id)
    requires Looks(s, m, v) && m >= 1 && IsSlave(c) && SlaveOf(v, c).cfg == Zero(m) && !SlaveOf(v, c).authSent
    ensures Enabled(s, AskVotes(c, 1))
    ensures Looks(Next(s, AskVotes(c, 1)), m,
      With(v, c, Asked(SlaveOf(v, c)), TryOf(v, c)).(net := v.net + {Ask(c, SlaveOf(v, c).cur + 1)}))
  {
  }

  function Counted(a: Attempt, sent: bool, i: Id): Attempt {
    if sent then a.(voters := a.voters + {i}) else a.(stale := a.stale + 1)
  }

  lemma TakesAck(s: Sys, m: nat, v: View, c: Id, i: Id, e: nat)
    requires Looks(s, m, v) && IsSlave(c) && 1 <= i <= m && Yes(i, e, c) in v.net && SlaveOf(v, c).cfg == Zero(m)
    requires SlaveOf(v, c).authEpoch <= e <= SlaveOf(v, c).cur
    ensures Enabled(s, ReceiveAck(c, Yes(i, e, c), true))
    ensures var n := SlaveOf(v, c);
      Looks(Next(s, ReceiveAck(c, Yes(i, e, c), true)), m,
        With(v, c, n.(authCount := n.authCount + 1), Counted(TryOf(v, c), n.authSent, i)).(
          net := v.net - {Yes(i, e, c)}))
  {
    hide OnHeader;
    HeaderAt(m, SlaveOf(v, c), Yes(i, e, c));
  }

  lemma Wins(s: Sys, m: nat, v: View, c: Id)
    requires Looks(s, m, v) && IsSlave(c) && SlaveOf(v, c).cfg == Zero(m)
    requires SlaveOf(v, c).authSent && SlaveOf(v, c).authCount >= Quorum(m)
    ensures Enabled(s, Win(c, m))
    ensures Looks(Next(s, Win(c, m)), m,
      With(v, c, Promoted(SlaveOf(v, c), c), TryOf(v, c)).(
        wins := v.wins + {Victory(c, SlaveOf(v, c).authEpoch, TryOf(v, c).voters, TryOf(v, c).stale, m)}))
  {
  }

  // ---------------------------------------------------------------- the run

  /** A run with masters 1 to m that ends in `s`. */
  ghost predicate Ends(ss: seq<Sys>, steps: seq<Step>, m: nat, s: Sys) {
    IsRun(ss, steps) && FixedMasters(steps, Between(0, m)) && ss[|steps|] == s
  }

  lemma Extend(ss: seq<Sys>, steps: seq<Step>, m: nat, s: Sys, step: Step)
    returns (tt: seq<Sys>, more: seq<Step>, t: Sys)
    requires Ends(ss, steps, m, s) && Enabled(s, step)
    requires step.ReceiveAck? ==> step.serves && 1 <= step.m.from <= m
    requires step.Win? ==> step.size == m
    ensures Ends(tt, more, m, t) && t == Next(s, step)
  {
    hide Start, Next, Enabled;
    BetweenSize(0, m);
    t := Next(s, step);
    tt, more := ss + [t], steps + [step];
  }

  /** Fewer messages may be remembered than there are. */
  lemma Forget(s: Sys, m: nat, v: View, net: set<Msg>)
    requires Looks(s, m, v) && net <= v.net
    ensures Looks(s, m, v.(net := net))
  {
    hide N;
  }

  function Calm(m: nat): View {
    View({}, {}, N(m, 0, 0, 0, 0, false), N(m, 0, 0, 0, 0, false), Attempt({}, 0), Attempt({}, 0), {}, {})
  }

  lemma Begin(m: nat) returns (ss: seq<Sys>, steps: seq<Step>, s: Sys)
    ensures Ends(ss, steps, m, s) && Looks(s, m, Calm(m))
  {
    var f, o := N(m, 0, 0, 0, 0, false), Attempt({}, 0);
    s := Sys(map i | -2 < i <= m && Numbered(i, -2, m) :: f, map i | -2 < i <= m && Numbered(i, -2, m) :: o, {}, {}, {});
    ss, steps := [s], [];
  }

  /** The first slave asks in epoch 1; masters 1 to k have voted for it, and their acks are late. */
  function Delayed(m: nat, k: nat): View {
    Calm(m).(one := Between(0, k), first := N(m, 1, 0, 1, 0, true), net := {Ask(FIRST, 1)} + Late(k))
  }

  function Late(k: nat): (r: set<Msg>) {
    set i | 0 < i <= k && Numbered(i, 0, k) :: Yes(i, 1, FIRST)
  }

  lemma {:induction false} Delay(m: nat, k: nat) returns (ss: seq<Sys>, steps: seq<Step>, s: Sys)
    requires 1 <= m && k <= m
    ensures Ends(ss, steps, m, s) && Looks(s, m, Delayed(m, k))
  {
    hide Looks, Next, Enabled, Ends, Zero;
    if k == 0 {
      ss, steps, s := Begin(m);
      Schedules(s, m, Calm(m), FIRST);
      ss, steps, s := Extend(ss, steps, m, s, Schedule(FIRST));
      Asks(s, m, Calm(m), FIRST);
      ss, steps, s := Extend(ss, steps, m, s, AskVotes(FIRST, 1));
      assert {} + {Ask(FIRST, 1)} == Delayed(m, 0).net;
      assert Between(0, 0) == {};
    } else {
      ss, steps, s := Delay(m, k - 1);
      var v := Delayed(m, k - 1);
      Votes(s, m, v, k, FIRST, 1);
      ss, steps, s := Extend(ss, steps, m, s, ReceiveRequest(k, Ask(FIRST, 1), Voter()));
      assert Between(0, k) == Between(0, k - 1) + {k};
      assert Delayed(m, k).net == v.net + {Yes(k, 1, FIRST)};
    }
  }

  /** It schedules its next attempt and then counts `k` of the late acks. */
  function Overtaken(m: nat, stale: nat, k: nat): View
    requires k <= stale
  {
    Delayed(m, stale).(first := N(m, 1, 0, 1, k, false), firstTry := Attempt({}, k),
      net := {Ask(FIRST, 1)} + Late(stale - k))
  }

  lemma {:induction false} Overtake(m: nat, stale: nat, k: nat) returns (ss: seq<Sys>, steps: seq<Step>, s: Sys)
    requires 1 <= m && k <= stale <= m
    ensures Ends(ss, steps, m, s) && Looks(s, m, Overtaken(m, stale, k))
    decreases k
  {
    hide Looks, Next, Enabled, Ends, Zero;
    if k == 0 {
      ss, steps, s := Delay(m, stale);
      Schedules(s, m, Delayed(m, stale), FIRST);
      ss, steps, s := Extend(ss, steps, m, s, Schedule(FIRST));
    } else {
      ss, steps, s := Overtake(m, stale, k - 1);
      var v, i := Overtaken(m, stale, k - 1), stale - k + 1;
      assert Numbered(i, 0, stale - (k - 1));
      TakesAck(s, m, v, FIRST, i, 1);
      ss, steps, s := Extend(ss, steps, m, s, ReceiveAck(FIRST, Yes(i, 1, FIRST), true));
      var n := SlaveOf(v, FIRST);
      var u := With(v, FIRST, n.(authCount := n.authCount + 1), Counted(TryOf(v, FIRST), n.authSent, i)).(
        net := v.net - {Yes(i, 1, FIRST)});
      Forget(s, m, u, Overtaken(m, stale, k).net);
    }
  }

  /** It asks in epoch 2; the second slave hears of epoch 1 and asks in epoch 2 too. Masters 1 to `k` have
      voted for the first and masters `k` + 1 to `k` + `l` for the second. */
  function Contested(m: nat, stale: nat, k: nat, l: nat): View {
    View(Between(0, stale), Between(0, k + l),
      N(m, 2, 0, 2, stale + k, true), N(m, 2, 0, 2, l, true),
      Attempt(Between(0, k), stale), Attempt(Between(k, k + l), 0),
      {Ask(FIRST, 2), Ask(SECOND, 2)}, {})
  }

  lemma Contest(m: nat, stale: nat) returns (ss: seq<Sys>, steps: seq<Step>, s: Sys)
    requires 1 <= m && stale <= m
    ensures Ends(ss, steps, m, s) && Looks(s, m, Contested(m, stale, 0, 0))
  {
    hide Looks, Next, Enabled, Ends, Zero;
    ss, steps, s := Overtake(m, stale, stale);
    var v := Overtaken(m, stale, stale);
    Asks(s, m, v, FIRST);
    ss, steps, s := Extend(ss, steps, m, s, AskVotes(FIRST, 1));
    v := v.(first := N(m, 2, 0, 2, stale, true), net := v.net + {Ask(FIRST, 2)});
    Hears(s, m, v, 1);
    ss, steps, s := Extend(ss, steps, m, s, ReceiveRequest(SECOND, Ask(FIRST, 1), Bystander()));
    v := v.(second := N(m, 1, 0, 0, 0, false));
    Schedules(s, m, v, SECOND);
    ss, steps, s := Extend(ss, steps, m, s, Schedule(SECOND));
    Asks(s, m, v, SECOND);
    ss, steps, s := Extend(ss, steps, m, s, AskVotes(SECOND, 1));
    v := v.(second := N(m, 2, 0, 2, 0, true), net := v.net + {Ask(SECOND, 2)});
    assert Looks(s, m, v);
    Forget(s, m, v, {Ask(FIRST, 2), Ask(SECOND, 2)});
    assert Between(0, 0) == {};
  }

  /** One more master votes in epoch 2, and its ack is counted. */
  lemma Elect(ss: seq<Sys>, steps: seq<Step>, m: nat, s: Sys, v: View, c: Id, i: Id)
    returns (tt: seq<Sys>, more: seq<Step>, t: Sys)
    requires Ends(ss, steps, m, s) && Looks(s, m, v) && IsSlave(c) && 1 <= i <= m && i !in v.two
    requires v.net == {Ask(FIRST, 2), Ask(SECOND, 2)}
    requires var n := SlaveOf(v, c); n == N(m, 2, 0, 2, n.authCount, true)
    ensures var n, a := SlaveOf(v, c), TryOf(v, c);
      && Ends(tt, more, m, t)
      && Looks(t, m, With(v, c, N(m, 2, 0, 2, n.authCount + 1, true), Attempt(a.voters + {i}, a.stale)).(two := v.two + {i}))
  {
    hide Looks, Next, Enabled, Ends, Zero;
    Votes(s, m, v, i, c, 2);
    tt, more, t := Extend(ss, steps, m, s, ReceiveRequest(i, Ask(c, 2), Voter()));
    var u := v.(two := v.two + {i}, net := v.net + {Yes(i, 2, c)});
    TakesAck(t, m, u, c, i, 2);
    tt, more, t := Extend(tt, more, m, t, ReceiveAck(c, Yes(i, 2, c), true));
    var n, a := SlaveOf(v, c), TryOf(v, c);
    var w := With(u, c, N(m, 2, 0, 2, n.authCount + 1, true), Attempt(a.voters + {i}, a.stale)).(
      net := u.net - {Yes(i, 2, c)});
    assert Looks(t, m, w);
    Forget(t, m, w, v.net);
  }

  lemma {:induction false} ElectFirst(m: nat, stale: nat, k: nat) returns (ss: seq<Sys>, steps: seq<Step>, s: Sys)
    requires 1 <= m && stale <= m && k <= m
    ensures Ends(ss, steps, m, s) && Looks(s, m, Contested(m, stale, k, 0))
    decreases k
  {
    hide Looks, Next, Enabled, Ends, Zero;
    if k == 0 {
      ss, steps, s := Contest(m, stale);
    } else {
      ss, steps, s := ElectFirst(m, stale, k - 1);
      ss, steps, s := Elect(ss, steps, m, s, Contested(m, stale, k - 1, 0), FIRST, k);
      assert Between(0, k) == Between(0, k - 1) + {k};
      assert Between(k, k) == Between(k - 1, k - 1) == {};
    }
  }

  lemma {:induction false} ElectSecond(m: nat, stale: nat, k: nat, l: nat)
    returns (ss: seq<Sys>, steps: seq<Step>, s: Sys)
    requires 1 <= m && stale <= m && k + l <= m
    ensures Ends(ss, steps, m, s) && Looks(s, m, Contested(m, stale, k, l))
    decreases l
  {
    hide Looks, Next, Enabled, Ends, Zero;
    if l == 0 {
      ss, steps, s := ElectFirst(m, stale, k);
    } else {
      ss, steps, s := ElectSecond(m, stale, k, l - 1);
      ss, steps, s := Elect(ss, steps, m, s, Contested(m, stale, k, l - 1), SECOND, k + l);
      assert Between(0, k + l) == Between(0, k + l - 1) + {k + l};
      assert Between(k, k + l) == Between(k, k + l - 1) + {k + l};
    }
  }

  /** For every electorate two slaves win one epoch with as few stale acks as the sharp bound allows. */
  lemma StaleAcksElectTwo(m: nat) returns (ss: seq<Sys>, steps: seq<Step>, v: Victory, w: Victory)
    requires m >= 1
    ensures IsRun(ss, steps) && FixedMasters(steps, Between(0, m)) && |Between(0, m)| == m
    ensures v in ss[|steps|].wins && w in ss[|steps|].wins && v.epoch == w.epoch && v.who != w.who
    ensures v.stale + w.stale == Threshold(m)
  {
    hide Next, Enabled, Looks, Start;
    BetweenSize(0, m);
    var stale := Threshold(m);
    var k := Quorum(m) - stale;
    var s;
    ss, steps, s := ElectSecond(m, stale, k, Quorum(m));
    var u := Contested(m, stale, k, Quorum(m));
    Wins(s, m, u, FIRST);
    ss, steps, s := Extend(ss, steps, m, s, Win(FIRST, m));
    v := Victory(FIRST, 2, Between(0, k), stale, m);
    u := u.(first := Promoted(u.first, FIRST), wins := u.wins + {v});
    Wins(s, m, u, SECOND);
    ss, steps, s := Extend(ss, steps, m, s, Win(SECOND, m));
    w := Victory(SECOND, 2, Between(k, k + Quorum(m)), 0, m);
    Victories(s, m, u.(second := Promoted(u.second, SECOND), wins := u.wins + {w}));
  }

  lemma Victories(s: Sys, m: nat, v: View)
    requires Looks(s, m, v)
    ensures v.wins <= s.wins
  {
  }

  // ---------------------------------------------------------------- the exact condition

  /** A run with masters 1 to m in which two nodes win one epoch with at most `stale` stale acks. */
  ghost predicate TwoWin(ss: seq<Sys>, steps: seq<Step>, m: nat, stale: nat) {
    && IsRun(ss, steps) && FixedMasters(steps, Between(0, m))
    && exists v, w :: v in ss[|steps|].wins && w in ss[|steps|].wins && v.epoch == w.epoch && v.who != w.who
         && v.stale + w.stale <= stale
  }

  /** One winner per epoch, exactly: with `m` masters some run elects two nodes in one epoch with at most
      `stale` stale acks in their attempts if and only if `stale` reaches the threshold, one for an odd and
      two for an even number of masters. */
  lemma StaleAcksDecide(m: nat, stale: nat)
    requires m >= 1
    ensures (exists ss, steps :: TwoWin(ss, steps, m, stale)) <==> stale >= Threshold(m)
    ensures Threshold(m) == if m % 2 == 1 then 1 else 2
  {
    hide IsRun, FixedMasters;
    BetweenSize(0, m);
    if exists ss, steps :: TwoWin(ss, steps, m, stale) {
      var ss, steps :| TwoWin(ss, steps, m, stale);
      EnoughStale(ss, steps, m, stale);
    }
    if stale >= Threshold(m) {
      var ss, steps, v, w := StaleAcksElectTwo(m);
      EnoughWins(ss, steps, m, stale, v, w);
    }
  }

  lemma EnoughStale(ss: seq<Sys>, steps: seq<Step>, m: nat, stale: nat)
    requires TwoWin(ss, steps, m, stale)
    ensures stale >= Threshold(m)
  {
    hide Start, Next, Enabled, FixedMasters;
    BetweenSize(0, m);
    var v, w :| v in ss[|steps|].wins && w in ss[|steps|].wins && v.epoch == w.epoch && v.who != w.who
      && v.stale + w.stale <= stale;
    TwoWinnersNeedStale(ss, steps, |steps|, v, w, Between(0, m));
  }

  lemma EnoughWins(ss: seq<Sys>, steps: seq<Step>, m: nat, stale: nat, v: Victory, w: Victory)
    requires IsRun(ss, steps) && FixedMasters(steps, Between(0, m))
    requires v in ss[|steps|].wins && w in ss[|steps|].wins && v.epoch == w.epoch && v.who != w.who
    requires v.stale + w.stale <= stale
    ensures TwoWin(ss, steps, m, stale)
  {
    hide Start, Next, Enabled, FixedMasters;
  }
}
