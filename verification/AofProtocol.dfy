/**
 The append only file as a protocol between the server, its log and a rewriting child: commands
 are fed, the buffer is flushed, the child is forked, diffs trickle through a pipe in pieces, the
 '!' handshake stops them, and the new log replaces the old one. Steps of parent and child
 interleave freely, and the child may fail at any point.
 */
module AofProtocol {
  import opened Options
  import opened Resp

  // ---------------------------------------------------------------- replaying a log

  /** What commands do: `apply(data, db, command)`, starting from no data. */
  datatype World<!D> = World(apply: (D, int, Command) -> D, empty: D)

  /** The data, and the database selected by the log so far. */
  datatype Store<D> = Store(selected: int, data: D)

  /** "SELECT" */
  const SELECT: Bytes := [83, 69, 76, 69, 67, 84]

  predicate IsSelect(c: Command) {
    |c| == 2 && c[0] == SELECT
  }

  function SelectCommand(db: nat): (c: Command) {
    [SELECT, Decimal(db)]
  }

  function Exec<D>(w: World<D>, st: Store<D>, c: Command): (r: Store<D>) {
    if IsSelect(c) then Store(ParseInt(c[1]), st.data)
    else Store(st.selected, w.apply(st.data, st.selected, c))
  }

  function Run<D>(w: World<D>, st: Store<D>, cmds: seq<Command>): (r: Store<D>)
    decreases |cmds|
  {
    if cmds == [] then st else Run(w, Exec(w, st, cmds[0]), cmds[1..])
  }

  lemma {:induction false} RunAppend<D>(w: World<D>, st: Store<D>, a: seq<Command>, b: seq<Command>)
    ensures Run(w, st, a + b) == Run(w, Run(w, st, a), b)
    decreases |a|
  {
    hide Exec;
    if a == [] {
      assert a + b == b;
    } else {
      assert (a + b)[1..] == a[1..] + b;
      RunAppend(w, Exec(w, st, a[0]), a[1..], b);
    }
  }

  lemma SelectWorks<D>(w: World<D>, st: Store<D>, db: nat)
    ensures Exec(w, st, SelectCommand(db)) == Store(db, st.data)
  {
    hide ParseInt;
    ParseDecimal(db, []);
    assert Decimal(db) + [] == Decimal(db);
  }

  // ---------------------------------------------------------------- the system

  datatype Phase = Rewriting | Asked | Finished

  /** The child: the commands that encode the data it was forked with, the diff it has read
      (aof_child_diff), and its file once that is finished. */
  datatype Child = Child(phase: Phase, snapshot: seq<Command>, diff: Bytes, tmp: Bytes)

  /** `on` is AOF_ON, otherwise AOF_WAIT_REWRITE; `rewriteBuf` is what the blocks hold. The last two
      fields are history: what was fed since the fork. */
  datatype Sys<D> = Sys(
    data: D, selected: int, on: bool,
    file: Bytes, buf: Bytes,
    child: Option<Child>, rewriteBuf: Bytes, pipe: Bytes,
    stopSending: bool, askPending: bool, ackPending: bool,
    fed: seq<Command>)

  datatype Step =
    | Feed(db: nat, cmd: Command)
    | Flush(n: nat)
    | Fork(snapshot: seq<Command>)
    | ParentSend(n: nat)
    | ChildRead(n: nat)
    | ChildAsk
    | ParentAck(delivered: bool)
    | ChildFinish
    | ChildFail
    | DoneOk
    | DoneError

  /** What feedAppendOnlyFile logs for a command: SELECT first if the database changed. */
  function Logged(selected: int, db: nat, cmd: Command): (cs: seq<Command>) {
    if db != selected then [SelectCommand(db), cmd] else [cmd]
  }

  predicate Enabled<D>(s: Sys<D>, step: Step) {
    match step
    case Feed(db, cmd) => true
    case Flush(n) => n <= |s.buf|
    case Fork(snapshot) => s.child == None
    case ParentSend(n) => s.child.Some? && !s.stopSending && n <= |s.rewriteBuf|
    case ChildRead(n) => s.child.Some? && s.child.value.phase == Rewriting && n <= |s.pipe|
    case ChildAsk => s.child.Some? && s.child.value.phase == Rewriting
    case ParentAck(_) => s.child.Some? && s.askPending
    case ChildFinish => s.child.Some? && s.child.value.phase == Asked && s.ackPending
    case ChildFail => s.child.Some? && s.child.value.phase != Finished
    case DoneOk => s.child.Some? && s.child.value.phase == Finished
    case DoneError => s.child.Some? && s.child.value.phase == Finished
  }

  /** The label cleanup of backgroundRewriteDoneHandler. */
  function Cleanup<D>(s: Sys<D>): (r: Sys<D>) {
    s.(child := None, rewriteBuf := [], pipe := [])
  }

  function Next<D>(w: World<D>, s: Sys<D>, step: Step): (r: Sys<D>)
    requires Enabled(s, step)
  {
    match step
    case Feed(db, cmd) =>
      var bytes := PrintLog(Logged(s.selected, db, cmd));
      s.(data := w.apply(s.data, db, cmd),
         selected := db,
         buf := if s.on then s.buf + bytes else s.buf,
         rewriteBuf := if s.child.Some? then s.rewriteBuf + bytes else s.rewriteBuf,
         fed := s.fed + Logged(s.selected, db, cmd))
    case Flush(n) =>
      s.(file := s.file + s.buf[..n], buf := s.buf[n..])
    case Fork(snapshot) =>
      s.(child := Some(Child(Rewriting, snapshot, [], [])), selected := -1, pipe := [],
         stopSending := false, askPending := false, ackPending := false, fed := [])
    case ParentSend(n) =>
      s.(pipe := s.pipe + s.rewriteBuf[..n], rewriteBuf := s.rewriteBuf[n..])
    case ChildRead(n) =>
      s.(child := Some(s.child.value.(diff := s.child.value.diff + s.pipe[..n])), pipe := s.pipe[n..])
    case ChildAsk =>
      s.(child := Some(s.child.value.(phase := Asked)), askPending := true)
    case ParentAck(delivered) =>
      s.(askPending := false, stopSending := true, ackPending := delivered)
    case ChildFinish =>
      var c := s.child.value;
      var diff := c.diff + s.pipe;
      s.(child := Some(c.(phase := Finished, diff := diff, tmp := PrintLog(c.snapshot) + diff)),
         pipe := [], ackPending := false)
    case ChildFail => Cleanup(s)
    case DoneError => Cleanup(s)
    case DoneOk =>
      Cleanup(s.(file := s.child.value.tmp + s.rewriteBuf, buf := [], on := true, selected := -1))
  }

  /** What the steps are given: commands the format can hold, that are not SELECT themselves, and a
      child that encodes the data it sees. */
  ghost predicate Sound<D>(w: World<D>, s: Sys<D>, step: Step) {
    match step
    case Feed(db, cmd) => Printable(cmd) && !IsSelect(cmd) && db <= INT_MAX
    case Fork(snapshot) =>
      && (forall i :: 0 <= i < |snapshot| ==> Printable(snapshot[i]))
      && Run(w, Store(0, w.empty), snapshot).data == s.data
    case _ => true
  }

  ghost predicate AllPrintable(cmds: seq<Command>) {
    forall i :: 0 <= i < |cmds| ==> Printable(cmds[i])
  }

  /** The log in file and buffer holds the commands `log`, and they rebuild the data. */
  ghost predicate LogIs<D>(w: World<D>, s: Sys<D>, log: seq<Command>) {
    && AllPrintable(log)
    && s.file + s.buf == PrintLog(log)
    && Run(w, Store(0, w.empty), log).data == s.data
    && (s.selected != -1 ==> Run(w, Store(0, w.empty), log).selected == s.selected)
  }

  /** Where a run may start: with a log that matches the data, or waiting for the first rewrite. */
  ghost predicate Start<D>(w: World<D>, s: Sys<D>) {
    && s.child == None && s.rewriteBuf == [] && s.selected == -1
    && (s.on ==> exists log :: LogIs(w, s, log))
  }

  // ---------------------------------------------------------------- invariants

  /** Conservation: each byte fed since the fork is in exactly one place, in order. */
  ghost predicate Conserved<D>(s: Sys<D>) {
    match s.child
    case None => s.rewriteBuf == []
    case Some(c) =>
      && AllPrintable(c.snapshot) && AllPrintable(s.fed)
      && (c.phase != Finished ==> c.diff + s.pipe + s.rewriteBuf == PrintLog(s.fed))
      && (c.phase == Finished ==> c.tmp + s.rewriteBuf == PrintLog(c.snapshot) + PrintLog(s.fed))
      && (c.phase == Rewriting ==> !s.askPending && !s.stopSending && !s.ackPending)
      && (s.ackPending || c.phase == Finished ==> s.stopSending)
      && (c.phase == Finished ==> s.pipe == [])
  }

  /** The fork's data, replayed with what was fed since, is the data now, whatever database the
      snapshot's last command selected. */
  ghost predicate DiffReplays<D>(w: World<D>, s: Sys<D>) {
    s.child.Some? ==>
      var base := Run(w, Store(0, w.empty), s.child.value.snapshot).data;
      forall sel: int ::
        && Run(w, Store(sel, base), s.fed).data == s.data
        && (s.selected != -1 ==> Run(w, Store(sel, base), s.fed).selected == s.selected)
  }

  ghost predicate Inv<D>(w: World<D>, s: Sys<D>) {
    && Conserved(s)
    && DiffReplays(w, s)
    && (s.on ==> exists log :: LogIs(w, s, log))
  }

  lemma SelectPrintable(db: nat)
    requires db <= INT_MAX
    ensures Printable(SelectCommand(db))
  {
    assert Pow10(5) == 100000;
    assert Pow10(10) == 10000000000;
    DecimalLength(db, 10);
  }

  lemma LoggedPrintable(selected: int, db: nat, cmd: Command)
    requires Printable(cmd) && db <= INT_MAX
    ensures AllPrintable(Logged(selected, db, cmd))
  {
    SelectPrintable(db);
  }

  /** Logging a command makes the replay do it in the right database. */
  lemma LoggedWorks<D>(w: World<D>, st: Store<D>, selected: int, db: nat, cmd: Command)
    requires !IsSelect(cmd) && (selected != -1 ==> st.selected == selected)
    ensures Run(w, st, Logged(selected, db, cmd)) == Store(db, w.apply(st.data, db, cmd))
  {
    hide IsSelect, SelectCommand;
    SelectWorks(w, st, db);
    var cs := Logged(selected, db, cmd);
    if db != selected {
      RunTwo(w, st, SelectCommand(db), cmd);
      ExecPlain(w, Store(db, st.data), cmd);
    } else {
      RunOne(w, st, cmd);
      ExecPlain(w, st, cmd);
    }
  }

  lemma RunOne<D>(w: World<D>, st: Store<D>, a: Command)
    ensures Run(w, st, [a]) == Exec(w, st, a)
  {
    hide Exec;
    assert [a][1..] == [];
  }

  lemma RunTwo<D>(w: World<D>, st: Store<D>, a: Command, b: Command)
    ensures Run(w, st, [a, b]) == Exec(w, Exec(w, st, a), b)
  {
    hide Exec;
    assert [a, b][1..] == [b];
    RunOne(w, Exec(w, st, a), b);
  }

  lemma ExecPlain<D>(w: World<D>, st: Store<D>, cmd: Command)
    requires !IsSelect(cmd)
    ensures Exec(w, st, cmd) == Store(st.selected, w.apply(st.data, st.selected, cmd))
  {
  }

  // ---------------------------------------------------------------- each step keeps them

  lemma ConservedStep<D>(w: World<D>, s: Sys<D>, step: Step)
    requires Conserved(s) && Enabled(s, step) && Sound(w, s, step)
    ensures Conserved(Next(w, s, step))
  {
    hide PrintLog, Printable, Run, Logged;
    match step
    case Feed(db, cmd) =>
      var cs := Logged(s.selected, db, cmd);
      LoggedPrintable(s.selected, db, cmd);
      PrintLogAppend(s.fed, cs);
      if s.child.Some? {
        var c := s.child.value;
        assert c.diff + s.pipe + (s.rewriteBuf + PrintLog(cs)) == c.diff + s.pipe + s.rewriteBuf + PrintLog(cs);
        assert c.tmp + (s.rewriteBuf + PrintLog(cs)) == c.tmp + s.rewriteBuf + PrintLog(cs);
        assert PrintLog(c.snapshot) + (PrintLog(s.fed) + PrintLog(cs)) == PrintLog(c.snapshot) + PrintLog(s.fed) + PrintLog(cs);
      }
    case Flush(n) =>
    case Fork(snapshot) =>
      assert PrintLog([]) == [] by { PrintNothing(); }
    case ParentSend(n) =>
      var c := s.child.value;
      assert s.rewriteBuf == s.rewriteBuf[..n] + s.rewriteBuf[n..];
      assert c.diff + (s.pipe + s.rewriteBuf[..n]) + s.rewriteBuf[n..] == c.diff + s.pipe + s.rewriteBuf;
    case ChildRead(n) =>
      var c := s.child.value;
      assert s.pipe == s.pipe[..n] + s.pipe[n..];
      assert (c.diff + s.pipe[..n]) + s.pipe[n..] + s.rewriteBuf == c.diff + s.pipe + s.rewriteBuf;
    case ChildAsk =>
    case ParentAck(_) =>
    case ChildFinish =>
      var c := s.child.value;
      var p := PrintLog(c.snapshot);
      assert (p + (c.diff + s.pipe)) + s.rewriteBuf == p + (c.diff + s.pipe + s.rewriteBuf);
    case ChildFail =>
    case DoneOk =>
    case DoneError =>
  }

  lemma PrintNothing()
    ensures PrintLog([]) == []
  {
  }

  lemma DiffReplaysStep<D>(w: World<D>, s: Sys<D>, step: Step)
    requires DiffReplays(w, s) && Enabled(s, step) && Sound(w, s, step)
    ensures DiffReplays(w, Next(w, s, step))
  {
    hide PrintLog, Printable, Run, Logged, PrintCommand;
    var s' := Next(w, s, step);
    match step
    case Feed(db, cmd) =>
      if s.child.Some? {
        var base := Run(w, Store(0, w.empty), s.child.value.snapshot).data;
        forall sel: int
          ensures Run(w, Store(sel, base), s'.fed) == Store(db, s'.data)
        {
          RunAppend(w, Store(sel, base), s.fed, Logged(s.selected, db, cmd));
          LoggedWorks(w, Run(w, Store(sel, base), s.fed), s.selected, db, cmd);
        }
      }
    case Flush(n) =>
    case Fork(snapshot) =>
      RunNothing(w, s.data);
    case ParentSend(n) =>
    case ChildRead(n) =>
    case ChildAsk =>
    case ParentAck(_) =>
    case ChildFinish =>
    case ChildFail =>
    case DoneOk =>
    case DoneError =>
  }

  lemma RunNothing<D>(w: World<D>, data: D)
    ensures forall sel: int :: Run(w, Store(sel, data), []) == Store(sel, data)
  {
  }

  /** Feeding extends the log by what it logs. */
  lemma LogFeed<D>(w: World<D>, s: Sys<D>, db: nat, cmd: Command, log: seq<Command>)
    requires s.on && LogIs(w, s, log) && Sound(w, s, Feed(db, cmd))
    ensures LogIs(w, Next(w, s, Feed(db, cmd)), log + Logged(s.selected, db, cmd))
  {
    hide PrintLog, Printable, Run, Logged, PrintCommand, IsSelect;
    var cs := Logged(s.selected, db, cmd);
    LoggedPrintable(s.selected, db, cmd);
    PrintLogAppend(log, cs);
    RunAppend(w, Store(0, w.empty), log, cs);
    LoggedWorks(w, Run(w, Store(0, w.empty), log), s.selected, db, cmd);
    assert s.file + (s.buf + PrintLog(cs)) == s.file + s.buf + PrintLog(cs);
  }

  /** The new log is the snapshot followed by everything fed since the fork. */
  lemma LogDone<D>(w: World<D>, s: Sys<D>) returns (log: seq<Command>)
    requires Conserved(s) && DiffReplays(w, s) && Enabled(s, DoneOk)
    ensures s.child.Some? && log == s.child.value.snapshot + s.fed && LogIs(w, Next(w, s, DoneOk), log)
  {
    hide PrintLog, Printable, Run, PrintCommand;
    var c := s.child.value;
    log := c.snapshot + s.fed;
    PrintLogAppend(c.snapshot, s.fed);
    RunAppend(w, Store(0, w.empty), c.snapshot, s.fed);
    var st := Run(w, Store(0, w.empty), c.snapshot);
    assert st == Store(st.selected, st.data);
    assert c.tmp + s.rewriteBuf + [] == c.tmp + s.rewriteBuf;
  }

  /** Moving bytes between the buffer and the file leaves the log as it is. */
  lemma LogSame<D>(w: World<D>, s: Sys<D>, t: Sys<D>, log: seq<Command>)
    requires LogIs(w, s, log) && t.file + t.buf == s.file + s.buf && t.data == s.data
    requires t.selected == s.selected || t.selected == -1
    ensures LogIs(w, t, log)
  {
    hide PrintLog, Run, AllPrintable;
  }

  /** Every other step keeps file and buffer together and the data, and at most forgets the selected
      database. */
  lemma LogKept<D>(w: World<D>, s: Sys<D>, step: Step)
    requires Enabled(s, step) && !step.Feed? && step != DoneOk
    ensures var t := Next(w, s, step);
      t.file + t.buf == s.file + s.buf && t.data == s.data && (t.selected == s.selected || t.selected == -1)
    ensures Next(w, s, step).on ==> s.on
  {
    if step.Flush? {
      assert s.buf == s.buf[..step.n] + s.buf[step.n..];
    }
  }

  lemma LogStep<D>(w: World<D>, s: Sys<D>, step: Step)
    requires Inv(w, s) && Enabled(s, step) && Sound(w, s, step)
    ensures Next(w, s, step).on ==> exists log :: LogIs(w, Next(w, s, step), log)
  {
    hide Conserved, DiffReplays, LogIs, Next, Enabled, Sound;
    if step == DoneOk {
      var log := LogDone(w, s);
    } else if step.Feed? {
      if s.on {
        var log :| LogIs(w, s, log);
        LogFeed(w, s, step.db, step.cmd, log);
      } else {
        StaysOff(w, s, step);
      }
    } else {
      LogKept(w, s, step);
      if s.on {
        var log :| LogIs(w, s, log);
        LogSame(w, s, Next(w, s, step), log);
      }
    }
  }

  lemma StaysOff<D>(w: World<D>, s: Sys<D>, step: Step)
    requires Enabled(s, step) && step.Feed? && !s.on
    ensures !Next(w, s, step).on
  {
  }

  // ---------------------------------------------------------------- every run

  ghost predicate IsRun<D>(w: World<D>, ss: seq<Sys<D>>, steps: seq<Step>) {
    && |ss| == |steps| + 1 && Start(w, ss[0])
    && forall i :: 0 <= i < |steps| ==>
         Enabled(ss[i], steps[i]) && Sound(w, ss[i], steps[i]) && ss[i + 1] == Next(w, ss[i], steps[i])
  }

  lemma {:induction false} RunKeeps<D>(w: World<D>, ss: seq<Sys<D>>, steps: seq<Step>, i: nat)
    requires IsRun(w, ss, steps) && i <= |steps|
    ensures Inv(w, ss[i])
  {
    hide Conserved, DiffReplays, Enabled, Sound, LogIs, Next;
    if i == 0 {
      StartKeeps(w, ss[0]);
    } else {
      RunKeeps(w, ss, steps, i - 1);
      assert ss[i - 1 + 1] == Next(w, ss[i - 1], steps[i - 1]);
      ConservedStep(w, ss[i - 1], steps[i - 1]);
      DiffReplaysStep(w, ss[i - 1], steps[i - 1]);
      LogStep(w, ss[i - 1], steps[i - 1]);
    }
  }

  lemma StartKeeps<D>(w: World<D>, s: Sys<D>)
    requires Start(w, s)
    ensures Conserved(s) && DiffReplays(w, s)
  {
  }

  /** Rewrite conservation: in every interleaving that ends in a successful rename, the new file is
      the encoding of the fork's data followed by every byte fed since the fork, once and in order. */
  lemma RewriteConserves<D>(w: World<D>, ss: seq<Sys<D>>, steps: seq<Step>, i: nat)
    requires IsRun(w, ss, steps) && i < |steps| && steps[i] == DoneOk
    ensures ss[i].child.Some?
    ensures ss[i + 1].file == PrintLog(ss[i].child.value.snapshot) + PrintLog(ss[i].fed)
    ensures ss[i + 1].buf == []
  {
    hide PrintLog, LogIs, DiffReplays;
    RunKeeps(w, ss, steps, i);
    assert ss[i + 1] == Next(w, ss[i], steps[i]);
  }

  /** Nothing is ever lost: in every state of every run with the AOF on, loading the file followed by
      what is still in aof_buf rebuilds the data. */
  lemma LogRebuildsData<D>(w: World<D>, ss: seq<Sys<D>>, steps: seq<Step>, i: nat)
    requires IsRun(w, ss, steps) && i <= |steps| && ss[i].on
    ensures var r := Load(ss[i].file + ss[i].buf, 0);
      r.outcome == Loaded && Run(w, Store(0, w.empty), r.cmds).data == ss[i].data
  {
    hide PrintLog, Conserved, DiffReplays, Run, Load, Printable, PrintCommand, ReadCommand;
    RunKeeps(w, ss, steps, i);
    var log :| LogIs(w, ss[i], log);
    LoadLog(log);
  }

  // ---------------------------------------------------------------- a rewrite can end

  /** Each state follows from the one before. */
  ghost predicate Follows<D>(w: World<D>, ss: seq<Sys<D>>, steps: seq<Step>) {
    |ss| == |steps| + 1
    && forall i :: 0 <= i < |steps| ==> Enabled(ss[i], steps[i]) && ss[i + 1] == Next(w, ss[i], steps[i])
  }

  lemma FollowsOne<D>(w: World<D>, ss: seq<Sys<D>>, steps: seq<Step>, step: Step)
    requires Follows(w, ss, steps) && Enabled(ss[|steps|], step)
    ensures Follows(w, ss + [Next(w, ss[|steps|], step)], steps + [step])
  {
    hide Next, Enabled;
    var ss', steps' := ss + [Next(w, ss[|steps|], step)], steps + [step];
    forall i | 0 <= i < |steps'| ensures Enabled(ss'[i], steps'[i]) && ss'[i + 1] == Next(w, ss'[i], steps'[i]) {
      if i < |steps| {
        assert ss'[i + 1] == ss[i + 1] && ss'[i] == ss[i] && steps'[i] == steps[i];
      }
    }
  }

  /** From wherever a child is rewriting there is a way to the end: the parent sends all it has, the child reads it
      and stops the parent, and by then the child's file has everything fed since the fork. */
  lemma RewriteCanFinish<D>(w: World<D>, s: Sys<D>) returns (ss: seq<Sys<D>>, steps: seq<Step>)
    requires Conserved(s) && s.child.Some? && s.child.value.phase == Rewriting
    ensures Follows(w, ss, steps) && ss[0] == s && |steps| == 5 && ss[5].child.Some?
    ensures var c := ss[5].child.value;
      && c.phase == Finished && c.tmp == PrintLog(s.child.value.snapshot) + PrintLog(s.fed)
      && ss[5].rewriteBuf == [] && ss[5].pipe == [] && ss[5].stopSending && Enabled(ss[5], DoneOk)
      && ss[5].file == s.file && ss[5].buf == s.buf && ss[5].fed == s.fed
  {
    hide PrintLog, Follows, AllPrintable;
    assert Follows(w, [s], []) by { FollowsNone(w, s); }
    var s1 := Next(w, s, ParentSend(|s.rewriteBuf|));
    FollowsOne(w, [s], [], ParentSend(|s.rewriteBuf|));
    var s2 := Next(w, s1, ChildRead(|s1.pipe|));
    FollowsOne(w, [s] + [s1], [] + [ParentSend(|s.rewriteBuf|)], ChildRead(|s1.pipe|));
    ss, steps := [s] + [s1] + [s2], [] + [ParentSend(|s.rewriteBuf|)] + [ChildRead(|s1.pipe|)];
    var s3, s4, s5 := Stopped(w, s2);
    FollowsOne(w, ss, steps, ChildAsk);
    ss, steps := ss + [s3], steps + [ChildAsk];
    FollowsOne(w, ss, steps, ParentAck(true));
    ss, steps := ss + [s4], steps + [ParentAck(true)];
    FollowsOne(w, ss, steps, ChildFinish);
    ss, steps := ss + [s5], steps + [ChildFinish];
    var d := s.child.value.diff + s.pipe + s.rewriteBuf;
    assert s2.child.value.diff == d;
  }

  lemma FollowsNone<D>(w: World<D>, s: Sys<D>)
    ensures Follows(w, [s], [])
  {
  }

  /** The '!' handshake, once the pipe is empty. */
  lemma Stopped<D>(w: World<D>, s: Sys<D>) returns (a: Sys<D>, b: Sys<D>, c: Sys<D>)
    requires s.child.Some? && s.child.value.phase == Rewriting && s.pipe == []
    ensures Enabled(s, ChildAsk) && a == Next(w, s, ChildAsk)
    ensures Enabled(a, ParentAck(true)) && b == Next(w, a, ParentAck(true))
    ensures Enabled(b, ChildFinish) && c == Next(w, b, ChildFinish)
    ensures c.child.Some? && c.child.value.phase == Finished && c.stopSending
    ensures c.child.value.tmp == PrintLog(s.child.value.snapshot) + s.child.value.diff
    ensures c.rewriteBuf == s.rewriteBuf && c.pipe == [] && c.file == s.file && c.buf == s.buf && c.fed == s.fed
  {
    hide PrintLog;
    a := Next(w, s, ChildAsk);
    b := Next(w, a, ParentAck(true));
    c := Next(w, b, ChildFinish);
    assert s.child.value.diff + [] == s.child.value.diff;
  }

  /** A child that fails does no harm: the old log goes on as it was, and another child may be forked. */
  lemma FailureIsHarmless<D>(w: World<D>, s: Sys<D>, step: Step, snapshot: seq<Command>)
    requires Enabled(s, step) && (step == ChildFail || step == DoneError)
    ensures var t := Next(w, s, step);
      && Enabled(t, Fork(snapshot)) && t.rewriteBuf == []
      && t.file == s.file && t.buf == s.buf && t.on == s.on && t.data == s.data && t.selected == s.selected
  {
  }
}
