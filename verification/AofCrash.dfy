/** A crash: whatever is still in aof_buf is lost, and the server comes back from the file alone. It runs
    exactly the whole commands of the log that are in the file, and loses nothing that was fed before the
    last moment at which the buffer was empty. */
module AofCrash {
  import opened Options
  import opened Resp
  import opened AofProtocol

  /** The data of some moment of the run from `lo` to `i`. */
  ghost predicate Seen<D>(ss: seq<Sys<D>>, lo: nat, i: nat, data: D)
    requires i < |ss|
  {
    exists k :: lo <= k <= i && ss[k].data == data
  }

  lemma SeenLater<D>(ss: seq<Sys<D>>, lo: nat, i: nat, j: nat, data: D)
    requires i <= j < |ss| && Seen(ss, lo, i, data)
    ensures Seen(ss, lo, j, data)
  {
  }

  lemma SeenNow<D>(ss: seq<Sys<D>>, lo: nat, i: nat)
    requires lo <= i < |ss|
    ensures Seen(ss, lo, i, ss[i].data)
  {
  }

  /** Part of what is logged for one command leaves the data as it was, all of it makes the new data. */
  lemma LoggedPart<D>(w: World<D>, st: Store<D>, selected: int, db: nat, cmd: Command, k: nat)
    requires k <= |Logged(selected, db, cmd)|
    ensures k < |Logged(selected, db, cmd)| ==> Run(w, st, Logged(selected, db, cmd)[..k]).data == st.data
    ensures k == |Logged(selected, db, cmd)| ==> Logged(selected, db, cmd)[..k] == Logged(selected, db, cmd)
  {
    hide SelectCommand;
    var cs := Logged(selected, db, cmd);
    if k == 1 && |cs| == 2 {
      assert cs[..1] == [SelectCommand(db)];
      RunOne(w, st, SelectCommand(db));
      SelectWorks(w, st, db);
    } else if k == 0 {
      assert cs[..0] == [];
    }
  }

  // ---------------------------------------------------------------- the log

  /** The data after the first `k` commands of a log. */
  ghost function After<D>(w: World<D>, log: seq<Command>, k: nat): D
    requires k <= |log|
  {
    Run(w, Store(0, w.empty), log[..k]).data
  }

  /** `log` is the log of state `i`. Its first `base` commands are in the file, and from there on every prefix of
      it replays to the data of some moment since `lo`. */
  ghost predicate PastLog<D>(w: World<D>, ss: seq<Sys<D>>, lo: nat, i: nat, log: seq<Command>, base: nat)
    requires i < |ss|
  {
    && LogIs(w, ss[i], log) && base <= |log| && |PrintLog(log[..base])| <= |ss[i].file|
    && forall k :: base <= k <= |log| ==> Seen(ss, lo, i, After(w, log, k))
  }

  lemma AfterAll<D>(w: World<D>, s: Sys<D>, log: seq<Command>)
    requires LogIs(w, s, log)
    ensures After(w, log, |log|) == s.data && log[..|log|] == log && PrintLog(log) == s.file + s.buf
  {
    hide Run, PrintLog, AllPrintable;
    assert log[..|log|] == log;
  }

  lemma PastFeed<D>(w: World<D>, ss: seq<Sys<D>>, lo: nat, i: nat, log: seq<Command>, base: nat, db: nat, cmd: Command)
    requires lo <= i && i + 1 < |ss| && PastLog(w, ss, lo, i, log, base) && ss[i].on && Sound(w, ss[i], Feed(db, cmd))
    requires ss[i + 1] == Next(w, ss[i], Feed(db, cmd))
    ensures PastLog(w, ss, lo, i + 1, log + Logged(ss[i].selected, db, cmd), base)
  {
    hide Run, PrintLog, LogIs, Seen, Logged, Sound;
    var s := ss[i];
    var cs := Logged(s.selected, db, cmd);
    LogFeed(w, s, db, cmd, log);
    assert (log + cs)[..base] == log[..base];
    forall k | base <= k <= |log + cs| ensures Seen(ss, lo, i + 1, After(w, log + cs, k)) {
      if k <= |log| {
        assert (log + cs)[..k] == log[..k];
        SeenLater(ss, lo, i, i + 1, After(w, log, k));
      } else if k == |log + cs| {
        AfterAll(w, ss[i + 1], log + cs);
        SeenNow(ss, lo, i + 1);
      } else {
        assert (log + cs)[..k] == log + cs[..k - |log|];
        RunAppend(w, Store(0, w.empty), log, cs[..k - |log|]);
        LoggedPart(w, Run(w, Store(0, w.empty), log), s.selected, db, cmd, k - |log|);
        AfterAll(w, s, log);
        SeenNow(ss, lo, i);
        SeenLater(ss, lo, i, i + 1, s.data);
      }
    }
  }

  lemma PastSame<D>(w: World<D>, ss: seq<Sys<D>>, lo: nat, i: nat, log: seq<Command>, base: nat)
    requires i + 1 < |ss| && PastLog(w, ss, lo, i, log, base) && LogIs(w, ss[i + 1], log)
    requires |ss[i].file| <= |ss[i + 1].file|
    ensures PastLog(w, ss, lo, i + 1, log, base)
  {
    hide LogIs, Seen, After, PrintLog;
    forall k | base <= k <= |log| ensures Seen(ss, lo, i + 1, After(w, log, k)) {
      SeenLater(ss, lo, i, i + 1, After(w, log, k));
    }
  }

  lemma FileGrows<D>(w: World<D>, s: Sys<D>, step: Step)
    requires Enabled(s, step) && step != DoneOk
    ensures |s.file| <= |Next(w, s, step).file|
  {
    hide PrintLog, Logged;
  }

  /** With nothing unwritten the whole log is in the file. */
  lemma PastWritten<D>(w: World<D>, ss: seq<Sys<D>>, lo: nat, i: nat, log: seq<Command>)
    requires lo <= i < |ss| && ss[i].buf == [] && LogIs(w, ss[i], log)
    ensures PastLog(w, ss, lo, i, log, |log|)
  {
    hide LogIs, Seen, PrintLog, After;
    AfterAll(w, ss[i], log);
    SeenNow(ss, lo, i);
    assert ss[i].file + [] == ss[i].file;
  }

  /** Every later state with the AOF on has such a log, if nothing is unwritten at `lo`. */
  lemma {:induction false} PastOf<D>(w: World<D>, ss: seq<Sys<D>>, steps: seq<Step>, lo: nat, i: nat)
    returns (log: seq<Command>, base: nat)
    requires IsRun(w, ss, steps) && lo <= i <= |steps| && ss[i].on && (ss[lo].on ==> ss[lo].buf == [])
    ensures PastLog(w, ss, lo, i, log, base)
    decreases i
  {
    hide LogIs, Seen, After, Next, Enabled, Sound, Conserved, DiffReplays, PrintLog, PastLog;
    RunKeeps(w, ss, steps, i);
    if i == lo {
      log :| LogIs(w, ss[i], log);
      base := |log|;
      PastWritten(w, ss, lo, i, log);
    } else {
      var s, step := ss[i - 1], steps[i - 1];
      assert ss[i - 1 + 1] == Next(w, s, step);
      if step == DoneOk {
        log :| LogIs(w, ss[i], log);
        base := |log|;
        RewriteConserves(w, ss, steps, i - 1);
        PastWritten(w, ss, lo, i, log);
      } else if step.Feed? {
        if !s.on { StaysOff(w, s, step); }
        log, base := PastOf(w, ss, steps, lo, i - 1);
        PastFeed(w, ss, lo, i - 1, log, base, step.db, step.cmd);
        log := log + Logged(s.selected, step.db, step.cmd);
      } else {
        LogKept(w, s, step);
        log, base := PastOf(w, ss, steps, lo, i - 1);
        LogOf(w, ss, lo, i - 1, log, base);
        LogSame(w, s, ss[i], log);
        FileGrows(w, s, step);
        PastSame(w, ss, lo, i - 1, log, base);
      }
    }
  }

  lemma LogOf<D>(w: World<D>, ss: seq<Sys<D>>, lo: nat, i: nat, log: seq<Command>, base: nat)
    requires i < |ss| && PastLog(w, ss, lo, i, log, base)
    ensures LogIs(w, ss[i], log)
  {
    hide LogIs, Seen;
  }

  // ---------------------------------------------------------------- the crash

  lemma PrefixLonger(log: seq<Command>, a: nat, b: nat)
    requires a <= b <= |log|
    ensures |PrintLog(log[..a])| <= |PrintLog(log[..b])|
  {
    hide PrintLog;
    assert log[..b] == log[..a] + log[a..b];
    PrintLogAppend(log[..a], log[a..b]);
  }

  /** Loading the file alone runs the whole commands in it. */
  lemma LoadFileOf<D>(w: World<D>, s: Sys<D>, log: seq<Command>)
    requires LogIs(w, s, log)
    ensures var r := Load(s.file, 0);
      && r.outcome in {Loaded, Truncated} && r.cmds == log[..WholeCommands(log, |s.file|)]
      && (s.buf == [] ==> r.outcome == Loaded && r.cmds == log)
  {
    hide PrintLog, Run, Load, Printable, PrintCommand, ReadCommand, WholeCommands;
    LoadPrefix(log, |s.file|);
    assert PrintLog(log)[..|s.file|] == s.file;
    if s.buf == [] {
      LoadLog(log);
      assert s.file + [] == s.file;
    }
  }

  /** Crash recovery: in every state of every run with the AOF on, loading the file without aof_buf runs exactly
      the whole commands of the log that are in the file, and gives the data of a moment that is not before
      any moment at which nothing was unwritten. */
  lemma CrashRecovers<D>(w: World<D>, ss: seq<Sys<D>>, steps: seq<Step>, lo: nat, i: nat) returns (log: seq<Command>)
    requires IsRun(w, ss, steps) && lo <= i <= |steps| && ss[i].on && (ss[lo].on ==> ss[lo].buf == [])
    ensures LogIs(w, ss[i], log)
    ensures var r := Load(ss[i].file, 0);
      && r.outcome in {Loaded, Truncated} && r.cmds == log[..WholeCommands(log, |ss[i].file|)]
      && Seen(ss, lo, i, Run(w, Store(0, w.empty), r.cmds).data)
  {
    hide PrintLog, Seen, Run, Load, Printable, PrintCommand, ReadCommand, Next, Enabled, Sound, Start, WholeCommands;
    var base;
    log, base := PastOf(w, ss, steps, lo, i);
    LoadFileOf(w, ss[i], log);
    var k := WholeCommands(log, |ss[i].file|);
    WholeCommandsFit(log, |ss[i].file|);
    if k < base {
      PrefixLonger(log, k + 1, base);
    }
    assert Seen(ss, lo, i, After(w, log, k));
  }

  // ---------------------------------------------------------------- what a flush makes durable

  /** A flush of `n` bytes: a crash right after it recovers the commands of the log that lie whole in the file as
      it was and `n` bytes more, and after a complete flush all of the data. */
  lemma FlushIsDurable<D>(w: World<D>, ss: seq<Sys<D>>, steps: seq<Step>, i: nat, n: nat) returns (log: seq<Command>)
    requires IsRun(w, ss, steps) && i < |steps| && steps[i] == Flush(n) && ss[i].on
    ensures LogIs(w, ss[i], log) && n <= |ss[i].buf|
    ensures var r := Load(ss[i + 1].file, 0);
      && r.outcome in {Loaded, Truncated} && r.cmds == log[..WholeCommands(log, |ss[i].file| + n)]
      && (n == |ss[i].buf| ==> r.outcome == Loaded && Run(w, Store(0, w.empty), r.cmds).data == ss[i].data)
  {
    hide PrintLog, Run, Load, WholeCommands, Sound, Start, Conserved, DiffReplays;
    RunKeeps(w, ss, steps, i);
    log :| LogIs(w, ss[i], log);
    var t := ss[i + 1];
    assert t == Next(w, ss[i], steps[i]);
    LogKept(w, ss[i], steps[i]);
    LogSame(w, ss[i], t, log);
    assert |t.file| == |ss[i].file| + n && (n == |ss[i].buf| ==> t.buf == []);
    LoadFileOf(w, t, log);
  }

  /** Whatever was fed before a complete flush survives every later crash: the data recovered is that of a moment
      after the flush. */
  lemma FlushedSurvives<D>(w: World<D>, ss: seq<Sys<D>>, steps: seq<Step>, i: nat, j: nat)
    requires IsRun(w, ss, steps) && i < j <= |steps| && steps[i] == Flush(|ss[i].buf|) && ss[i].on
    ensures ss[j].on && Seen(ss, i + 1, j, Run(w, Store(0, w.empty), Load(ss[j].file, 0).cmds).data)
  {
    hide PrintLog, Run, Load, Sound, Start, Seen;
    assert ss[i + 1] == Next(w, ss[i], steps[i]);
    StaysOn(w, ss, steps, i, j);
    var _ := CrashRecovers(w, ss, steps, i + 1, j);
  }

  /** Once on, the AOF stays on. */
  lemma {:induction false} StaysOn<D>(w: World<D>, ss: seq<Sys<D>>, steps: seq<Step>, i: nat, j: nat)
    requires IsRun(w, ss, steps) && i <= j <= |steps| && ss[i].on
    ensures ss[j].on
    decreases j
  {
    hide PrintLog, Sound, Start, Logged;
    if i < j {
      StaysOn(w, ss, steps, i, j - 1);
      assert ss[j - 1 + 1] == Next(w, ss[j - 1], steps[j - 1]);
    }
  }

  /** A successful rewrite switches the AOF on, and the new file holds all of the data. */
  lemma RewriteIsDurable<D>(w: World<D>, ss: seq<Sys<D>>, steps: seq<Step>, i: nat)
    requires IsRun(w, ss, steps) && i < |steps| && steps[i] == DoneOk
    ensures ss[i + 1].on && ss[i + 1].child == None
    ensures var r := Load(ss[i + 1].file, 0);
      r.outcome == Loaded && Run(w, Store(0, w.empty), r.cmds).data == ss[i].data
  {
    hide PrintLog, Run, Load, Sound, Start, LogIs;
    var t := ss[i + 1];
    assert t == Next(w, ss[i], steps[i]);
    RewriteConserves(w, ss, steps, i);
    LogRebuildsData(w, ss, steps, i + 1);
    assert t.file + [] == t.file;
  }
}
