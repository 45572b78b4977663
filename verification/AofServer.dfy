/** The parent's side of the rewrite protocol, done by the buffers of aof.c: each call does to file and buffers
    what one step of the protocol says. */
module AofServer {
  import opened Options
  import opened Resp
  import opened AofBuffers
  import opened AofProtocol

  /** The file and the two buffers hold what the state says. */
  ghost predicate Holds<D>(log: Writer, diff: RewriteBuffer, s: Sys<D>)
    reads log, diff
  {
    && log.Valid() && diff.Valid()
    && log.file == s.file && log.aofBuf == s.buf && diff.Contents() == s.rewriteBuf
  }

  /** feedAppendOnlyFile, after the command has been executed in database `db`. */
  method Feed<D>(log: Writer, diff: RewriteBuffer, ghost w: World<D>, ghost s: Sys<D>,
                 on: bool, child: bool, selected: int, db: nat, cmd: Command)
    requires Holds(log, diff, s) && on == s.on && child == s.child.Some? && selected == s.selected
    modifies log, diff
    ensures Holds(log, diff, Next(w, s, AofProtocol.Feed(db, cmd)))
  {
    hide Concat, PrintCommand, SelectCommand;
    var buf := [];
    ghost var cs := Logged(selected, db, cmd);
    if db != selected {
      buf := CatCommand(buf, SelectCommand(db));
    }
    buf := CatCommand(buf, cmd);
    assert buf == PrintLog(cs) by { PrintLogged(selected, db, cmd); }
    if on {
      log.Feed(buf);
    }
    if child {
      diff.Append(buf);
    }
  }

  lemma PrintLogged(selected: int, db: nat, cmd: Command)
    ensures db == selected ==> PrintLog(Logged(selected, db, cmd)) == [] + PrintCommand(cmd)
    ensures db != selected ==>
      PrintLog(Logged(selected, db, cmd)) == [] + PrintCommand(SelectCommand(db)) + PrintCommand(cmd)
  {
    hide PrintCommand, SelectCommand;
    assert [cmd][1..] == [] && PrintLog([cmd]) == PrintCommand(cmd) + [] == PrintCommand(cmd);
    var select := SelectCommand(db);
    assert [select, cmd][1..] == [cmd] && PrintLog([select, cmd]) == PrintCommand(select) + PrintLog([cmd]);
  }

  /** flushAppendOnlyFile: the step Flush(n), where n is all of aof_buf, what a failed write left behind, or
      nothing. */
  method Flush<D>(log: Writer, diff: RewriteBuffer, ghost w: World<D>, ghost s: Sys<D>,
                  force: bool, policy: Policy, syncInProgress: bool, now: int, result: int, truncateOk: bool)
    returns (exited: bool, ghost n: nat)
    requires Holds(log, diff, s) && -1 <= result <= |log.aofBuf|
    modifies log
    ensures n <= |s.buf| && log.file == Next(w, s, AofProtocol.Flush(n)).file
    ensures !exited ==> Holds(log, diff, Next(w, s, AofProtocol.Flush(n)))
    ensures result == |s.buf| && (force || policy != EverySec || !syncInProgress) ==> !exited && n == |s.buf|
  {
    hide Concat;
    exited, n := log.Flush(force, policy, syncInProgress, now, result, truncateOk);
  }

  /** aofChildWriteDiffData: the step ParentSend(n), where n is what the pipe took. */
  method SendDiff<D>(log: Writer, diff: RewriteBuffer, ghost w: World<D>, ghost s: Sys<D>, stop: bool, writes: seq<int>)
    returns (sent: Bytes)
    requires Holds(log, diff, s) && s.child.Some? && stop == s.stopSending
    modifies diff
    ensures stop ==> sent == [] && Holds(log, diff, s)
    ensures !stop ==>
      && |sent| <= |s.rewriteBuf| && Holds(log, diff, Next(w, s, ParentSend(|sent|)))
      && Next(w, s, ParentSend(|sent|)).pipe == s.pipe + sent
  {
    hide Concat;
    var calls;
    sent, calls := diff.WriteDiffData(stop, writes);
    assert s.rewriteBuf[..|sent|] == sent;
  }

  /** backgroundRewriteDoneHandler, for a child that exited well with the file `tmp`: what the child does not have
      is written after it, and the new file replaces the old one if that and rename(2) succeed. */
  method RewriteDone<D>(log: Writer, diff: RewriteBuffer, ghost w: World<D>, ghost s: Sys<D>,
                        tmp: Bytes, writes: seq<int>, renamed: bool)
    returns (ok: bool)
    requires Holds(log, diff, s) && Enabled(s, DoneOk) && tmp == s.child.value.tmp
    modifies log, diff
    ensures Holds(log, diff, Next(w, s, if ok then DoneOk else DoneError))
  {
    hide Concat;
    var complete, written, blocks := diff.WriteAll(writes);
    ok := complete && renamed;
    if ok {
      log.file, log.aofBuf := tmp + written, [];
      log.currentSize := |log.file|;
    }
    ConcatNothing();
    diff.blocks := [];
  }
}
