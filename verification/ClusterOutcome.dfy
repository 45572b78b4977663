/** What elections and messages bring about: a winner holds the epoch it won, every vote is deserved, and
    what is sent is learned by whoever receives it. */
module ClusterOutcome {
  import opened Options
  import opened ClusterNode
  import opened ClusterProtocol

  // ---------------------------------------------------------------- winners

  /** Every winner has the epoch it won, or a later one. */
  ghost predicate WinnersHold(s: Sys) {
    forall w :: w in s.wins ==>
      w.who in s.nodes && w.who in s.nodes[w.who].cfg && w.epoch <= s.nodes[w.who].cfg[w.who]
  }

  lemma WinnersStep(s: Sys, step: Step)
    requires EpochsOk(s) && WinnersHold(s) && Enabled(s, step)
    ensures WinnersHold(Next(s, step))
  {
    hide NetAfter, AttemptAfter, VoteCast, NodeAfter, Grants, OnHeader, Honest;
    EpochStep(s, step);
    if step.Win? {
      WinIs(s.nodes[step.i], step);
    }
  }

  lemma WinIs(n: Node, step: Step)
    requires step.Win? && step.i in n.cfg
    ensures var r := NodeAfter(n, step);
      && r.cur == n.cur && r.authEpoch == n.authEpoch
      && r.cfg == n.cfg[step.i := if n.cfg[step.i] < n.authEpoch then n.authEpoch else n.cfg[step.i]]
  {
  }

  /** Winning: in every run the winner's own configEpoch becomes the epoch it won, unless it is later already, and
      no other configEpoch it knows changes. */
  lemma WinnerTakesEpoch(ss: seq<Sys>, steps: seq<Step>, k: nat) returns (w: Victory)
    requires IsRun(ss, steps) && k < |steps| && steps[k].Win?
    ensures w in ss[k + 1].wins && w.who == steps[k].i && w.who in ss[k].nodes && w.who in ss[k].nodes[w.who].cfg
    ensures w.epoch == ss[k].nodes[w.who].authEpoch && 2 * ss[k].nodes[w.who].authCount > w.size == steps[k].size
    ensures w.who in ss[k + 1].nodes
    ensures var known := ss[k].nodes[w.who].cfg;
      ss[k + 1].nodes[w.who].cfg == known[w.who := if known[w.who] < w.epoch then w.epoch else known[w.who]]
  {
    hide NetAfter, AttemptAfter, VoteCast, NodeAfter, Start;
    var s, i := ss[k], steps[k].i;
    assert ss[k + 1] == Next(s, steps[k]);
    WinIs(s.nodes[i], steps[k]);
    w := Victory(i, s.nodes[i].authEpoch, s.attempts[i].voters, s.attempts[i].stale, steps[k].size);
  }

  /** And it keeps it: in every later state each winner is known to itself at the epoch it won or a later one. */
  lemma {:induction false} WinnersKeepEpoch(ss: seq<Sys>, steps: seq<Step>, k: nat)
    requires IsRun(ss, steps) && k <= |steps|
    ensures WinnersHold(ss[k])
  {
    hide Next, Enabled, EpochsOk, VotesOk, AttemptsOk, WinsOk;
    if k > 0 {
      WinnersKeepEpoch(ss, steps, k - 1);
      RunKeeps(ss, steps, k - 1);
      assert ss[k - 1 + 1] == Next(ss[k - 1], steps[k - 1]);
      WinnersStep(ss[k - 1], steps[k - 1]);
    }
  }

  /** The epoch an election is held in is new to the candidate, later than every configEpoch it knows, and is the
      epoch of its request. */
  lemma ElectionEpochIsNew(ss: seq<Sys>, steps: seq<Step>, k: nat)
    requires IsRun(ss, steps) && k < |steps| && steps[k].AskVotes?
    ensures var i := steps[k].i;
      && i in ss[k].nodes && i in ss[k + 1].nodes && ss[k + 1].nodes[i].cfg == ss[k].nodes[i].cfg
      && ss[k + 1].nodes[i].authEpoch == ss[k + 1].nodes[i].cur == ss[k].nodes[i].cur + 1
      && (forall p :: p in ss[k].nodes[i].cfg ==> ss[k].nodes[i].cfg[p] < ss[k + 1].nodes[i].authEpoch)
      && steps[k].about in ss[k].nodes[i].cfg
      && Msg(i, ss[k + 1].nodes[i].authEpoch, ss[k].nodes[i].cfg[steps[k].about], Request) in ss[k + 1].net
  {
    hide AttemptAfter, VoteCast, NodeAfter, Start;
    EpochDomination(ss, steps, k);
    assert ss[k + 1] == Next(ss[k], steps[k]);
    AskedIs(ss[k].nodes[steps[k].i], steps[k]);
  }

  // ---------------------------------------------------------------- votes

  /** What the voter has to find: a slave of a master that failed or gave way, no recent vote about that master,
      and no claimed slot served by a node it knows at a later epoch than the claim's. */
  ghost predicate Deserves(n: Node, m: Msg, b: Ballot) {
    && m.from in n.cfg && b.voterServes && !b.requesterIsMaster && b.masterKnown && (b.masterFailed || b.forced)
    && !b.votedRecently
    && forall j :: 0 <= j < |b.claimed| && j < |b.owners| && b.claimed[j] ==>
         b.owners[j].Some? && b.owners[j].value in n.cfg ==> n.cfg[b.owners[j].value] <= m.cfg
  }

  lemma GrantsIs(n: Node, m: Msg, b: Ballot)
    ensures Grants(OnHeader(n, m), m, b) <==> Deserves(n, m, b) && n.cur <= m.cur && n.lastVote != m.cur
  {
    var h := OnHeader(n, m);
    if m.from in n.cfg {
      if ClaimsCurrent(h.cfg, b, m.cfg) {
        forall j | 0 <= j < |b.claimed| && j < |b.owners| && b.claimed[j] && b.owners[j].Some? && b.owners[j].value in n.cfg
          ensures n.cfg[b.owners[j].value] <= m.cfg
        {
          assert Yields(h.cfg, b, j, m.cfg);
        }
      }
    }
  }

  /** lastVoteEpoch is the epoch of a vote, and requests are of epochs after zero. */
  ghost predicate LastVotesReal(s: Sys) {
    && (forall i :: i in s.nodes ==> s.nodes[i].lastVote == 0 || HasVoted(s.votes, i, s.nodes[i].lastVote))
    && (forall m :: m in s.net && m.body.Request? ==> m.cur > 0)
  }

  ghost predicate HasVoted(votes: set<Vote>, i: Id, epoch: nat) {
    exists c :: Vote(i, epoch, c) in votes
  }

  lemma LastVoteIs(n: Node, step: Step)
    requires step.i in n.cfg && (step.ReceiveUpdate? ==> step.m.body.Update?)
    ensures NodeAfter(n, step).lastVote == if VoteCast(n, step) then OnHeader(n, step.m).cur else n.lastVote
  {
    hide Grants, Counts, Collides;
  }

  lemma LastVotesStep(s: Sys, step: Step)
    requires EpochsOk(s) && LastVotesReal(s) && Enabled(s, step)
    ensures LastVotesReal(Next(s, step))
  {
    hide NetAfter, AttemptAfter, VoteCast, NodeAfter, Grants, OnHeader, Honest, Dominates;
    var n, t := s.nodes[step.i], Next(s, step);
    NetFacts(n, s.net, step);
    LastVoteIs(n, step);
    forall i | i in t.nodes && t.nodes[i].lastVote != 0 ensures HasVoted(t.votes, i, t.nodes[i].lastVote) {
      if i == step.i && VoteCast(n, step) {
        IsCast(n, step);
        assert Vote(i, OnHeader(n, step.m).cur, step.m.from) in t.votes;
      } else {
        var c :| Vote(i, s.nodes[i].lastVote, c) in s.votes;
        assert Vote(i, s.nodes[i].lastVote, c) in t.votes;
      }
    }
  }

  lemma {:induction false} LastVotesRun(ss: seq<Sys>, steps: seq<Step>, k: nat)
    requires IsRun(ss, steps) && k <= |steps|
    ensures LastVotesReal(ss[k])
  {
    hide Next, Enabled, EpochsOk, VotesOk, AttemptsOk, WinsOk, HasVoted;
    if k > 0 {
      LastVotesRun(ss, steps, k - 1);
      RunKeeps(ss, steps, k - 1);
      assert ss[k - 1 + 1] == Next(ss[k - 1], steps[k - 1]);
      LastVotesStep(ss[k - 1], steps[k - 1]);
    }
  }

  /** A vote is cast if and only if it is deserved, the request is of no earlier epoch than the voter's, and the
      voter has not voted in that epoch before. The vote is for the requester in the epoch of the request. */
  lemma VotesAreDeserved(ss: seq<Sys>, steps: seq<Step>, k: nat)
    requires IsRun(ss, steps) && k < |steps| && steps[k].ReceiveRequest?
    ensures var i, m := steps[k].i, steps[k].m;
      && i in ss[k].nodes
      && var cast := Deserves(ss[k].nodes[i], m, steps[k].ballot) && ss[k].nodes[i].cur <= m.cur
                     && !HasVoted(ss[k].votes, i, m.cur);
         && ss[k + 1].votes == (if cast then ss[k].votes + {Vote(i, m.cur, m.from)} else ss[k].votes)
         && (cast ==> exists a :: a in ss[k + 1].net && a.from == i && a.cur == m.cur && a.body == Ack(m.from))
  {
    hide NodeAfter, AttemptAfter, Grants, OnHeader, Start, AttemptsOk, WinsOk, RequestsBounded, AcksOk, Deserves;
    RunKeeps(ss, steps, k);
    LastVotesRun(ss, steps, k);
    var s, step := ss[k], steps[k];
    var n, m := s.nodes[step.i], step.m;
    assert ss[k + 1] == Next(s, step);
    GrantsIs(n, m, step.ballot);
    if VoteCast(n, step) {
      CastFacts(n, step);
      var h := OnHeader(n, m);
      var a := Msg(step.i, h.cur, if step.i in h.cfg then h.cfg[step.i] else 0, Ack(m.from));
      assert a in ss[k + 1].net && a.from == step.i && a.cur == m.cur;
    }
    if HasVoted(s.votes, step.i, m.cur) && n.cur <= m.cur {
      var c :| Vote(step.i, m.cur, c) in s.votes;
      assert n.lastVote <= n.cur;
    }
  }

  // ---------------------------------------------------------------- messages

  /** What is sent stays on its way, except acks, which are read once. */
  lemma {:induction false} StaysSent(ss: seq<Sys>, steps: seq<Step>, k: nat, l: nat, m: Msg)
    requires IsRun(ss, steps) && k <= l <= |steps| && m in ss[k].net && !m.body.Ack?
    ensures m in ss[l].net
    decreases l
  {
    hide NodeAfter, AttemptAfter, VoteCast, Start;
    if k < l {
      StaysSent(ss, steps, k, l - 1, m);
      assert ss[l - 1 + 1] == Next(ss[l - 1], steps[l - 1]);
    }
  }

  /** Epochs spread: a ping, pong or UPDATE can be received at any later moment, and whoever receives it and knows
      the sender then has a currentEpoch no earlier than the sender had, knows the sender no earlier than
      the header says, and the node an UPDATE is about no earlier than the sender did. */
  lemma EpochsSpread(ss: seq<Sys>, steps: seq<Step>, k: nat, l: nat) returns (m: Msg)
    requires IsRun(ss, steps) && k < l < |steps| && (steps[k].Send? || steps[k].SendUpdate?)
    requires steps[k].i in ss[k].nodes && steps[k].about in ss[k].nodes[steps[k].i].cfg
    ensures m in ss[l].net && m.from == steps[k].i
    ensures var n := ss[k].nodes[steps[k].i];
      (steps[l].ReceivePlain? || steps[l].ReceiveUpdate?) && steps[l].m == m ==>
        && steps[l].i in ss[l].nodes && steps[l].i in ss[l + 1].nodes
        && var r := ss[l + 1].nodes[steps[l].i];
           m.from in ss[l].nodes[steps[l].i].cfg ==>
             && n.cur <= r.cur && m.from in r.cfg && n.cfg[steps[k].about] <= r.cfg[m.from]
             && (steps[k].SendUpdate? && steps[k].n in ss[l].nodes[steps[l].i].cfg ==>
                   steps[k].n in n.cfg && steps[k].n in r.cfg && n.cfg[steps[k].n] <= r.cfg[steps[k].n])
  {
    hide NodeAfter, AttemptAfter, VoteCast, Start, Collides;
    var n, about := ss[k].nodes[steps[k].i], steps[k].about;
    assert ss[k + 1] == Next(ss[k], steps[k]);
    m := Msg(steps[k].i, n.cur, n.cfg[about], if steps[k].Send? then Plain else Update(steps[k].n, n.cfg[steps[k].n]));
    StaysSent(ss, steps, k + 1, l, m);
    if (steps[l].ReceivePlain? || steps[l].ReceiveUpdate?) && steps[l].m == m {
      assert ss[l + 1] == Next(ss[l], steps[l]);
      RunKeeps(ss, steps, l);
      if m.from in ss[l].nodes[steps[l].i].cfg { Learned(ss[l].nodes[steps[l].i], steps[l]); }
    }
  }

  lemma Learned(n: Node, step: Step)
    requires step.i in n.cfg && Dominates(n) && (step.ReceivePlain? || (step.ReceiveUpdate? && step.m.body.Update?))
    requires step.m.from in n.cfg && Honest(step.m)
    ensures var r := NodeAfter(n, step);
      && step.m.cur <= r.cur && r.cfg.Keys == n.cfg.Keys && step.m.cfg <= r.cfg[step.m.from]
      && (step.ReceiveUpdate? && step.m.body.about in n.cfg ==> step.m.body.epoch <= r.cfg[step.m.body.about])
  {
  }
}
