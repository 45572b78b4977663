/** The steps of the cluster protocol, done by the methods of a server. */
module ClusterServer {
  import opened ClusterNode
  import opened ClusterProtocol

  /** What a voter is shown about slots fits its slot table and the nodes it knows. */
  ghost predicate BallotFits(n: Node, step: Step) {
    step.ReceiveRequest? ==>
      && |step.ballot.claimed| == |step.ballot.owners|
      && forall j :: 0 <= j < |step.ballot.owners| && step.ballot.owners[j].Some? ==> step.ballot.owners[j].value in n.cfg
  }

  /** Whatever step the protocol takes in a state of a run, the server with the acting node's state gets to the
      state the protocol says. */
  method Act(server: Server, ghost s: Sys, step: Step)
    requires EpochsOk(s) && Enabled(s, step) && server.self == step.i && server.State() == s.nodes[step.i]
    requires BallotFits(server.State(), step)
    modifies server
    ensures server.State() == Next(s, step).nodes[step.i]
  {
    hide OnHeader, OnPlain, OnUpdate, OnRequest, OnAck, NetAfter, AttemptAfter, VoteCast;
    match step
    case Learn(i, k) => var _ := server.AddNode(k);
    case Forget(i, k) => server.DelNode(k);
    case Send(i, about) =>
    case SendUpdate(i, about, k) =>
    case ReceivePlain(i, m, bothMasters) => var _ := server.ProcessPlain(m, bothMasters);
    case ReceiveUpdate(i, m) => server.ProcessUpdate(m);
    case ReceiveRequest(i, m, ballot) => var _ := server.SendFailoverAuthIfNeeded(m, ballot);
    case ReceiveAck(i, m, serves) => server.ProcessAck(m, serves);
    case Bump(i) => var _ := server.BumpWithoutConsensus();
    case SetConfigEpoch(i, epoch) => var _ := server.SetConfigEpoch(epoch);
    case Schedule(i) => var _, _ := server.HandleSlaveFailover(true, false, false, 0);
    case AskVotes(i, about) => var _, _ := server.HandleSlaveFailover(false, false, false, 0);
    case Win(i, size) => var _, _ := server.HandleSlaveFailover(false, false, false, size);
  }
}
