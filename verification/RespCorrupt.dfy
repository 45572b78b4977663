/** A damaged log is refused, and not mistaken for one that was cut off: the loader has run exactly the commands
    before the damage, and says where they end. */
module RespCorrupt {
  import opened Resp

  /** Whatever follows a log, its commands are read first. */
  lemma {:induction false} LoadThrough(f: Bytes, pos: nat, cmds: seq<Command>)
    requires (forall i :: 0 <= i < |cmds| ==> Printable(cmds[i])) && Whole(f, pos, PrintLog(cmds))
    ensures Load(f, pos) == After(cmds, Load(f, pos + |PrintLog(cmds)|))
    decreases |cmds|
  {
    hide Printable, PrintCommand, ReadCommand, Load;
    if cmds == [] {
      assert pos + |PrintLog(cmds)| == pos;
      Nothing(Load(f, pos));
    } else {
      WholeParts(f, pos, PrintCommand(cmds[0]), PrintLog(cmds[1..]));
      ReadWholeCommand(f, pos, cmds[0]);
      var next := pos + |PrintCommand(cmds[0])|;
      LoadThrough(f, next, cmds[1..]);
      LoadStep(f, pos, []);
      Nothing(Load(f, pos));
      assert [] + [cmds[0]] == [cmds[0]];
      assert [cmds[0]] + cmds[1..] == cmds;
      Twice(cmds, Load(f, pos + |PrintLog(cmds)|));
    }
  }

  lemma Nothing(r: LoadResult)
    ensures After([], r) == r
  {
  }

  lemma Twice(cmds: seq<Command>, r: LoadResult)
    requires cmds != []
    ensures After([cmds[0]], After(cmds[1..], r)) == After(cmds, r)
  {
    assert [cmds[0]] + (cmds[1..] + r.cmds) == cmds + r.cmds;
  }

  /** A command that cannot be read after a log. */
  lemma BadAfterLog(cmds: seq<Command>, g: Bytes)
    requires forall i :: 0 <= i < |cmds| ==> Printable(cmds[i])
    requires ReadCommand(PrintLog(cmds) + g, |PrintLog(cmds)|) == Bad
    ensures Load(PrintLog(cmds) + g, 0) == LoadResult(cmds, FormatError, |PrintLog(cmds)|)
  {
    hide Printable, PrintLog, ReadCommand;
    var f := PrintLog(cmds) + g;
    assert f[0..|PrintLog(cmds)|] == PrintLog(cmds);
    LoadThrough(f, 0, cmds);
    assert cmds + [] == cmds;
  }

  /** Bytes after a log that do not start a command. */
  lemma GarbageRefused(cmds: seq<Command>, g: Bytes)
    requires (forall i :: 0 <= i < |cmds| ==> Printable(cmds[i])) && g != [] && g[0] != STAR
    ensures Load(PrintLog(cmds) + g, 0) == LoadResult(cmds, FormatError, |PrintLog(cmds)|)
  {
    hide PrintLog, LineEnd, ReadArgs;
    BadAfterLog(cmds, g);
  }

  /** A count below one. */
  lemma BadCountRefused(cmds: seq<Command>, line: Bytes, rest: Bytes)
    requires (forall i :: 0 <= i < |cmds| ==> Printable(cmds[i])) && LF !in line && |line| + 2 <= LINE_MAX
    requires ParseInt(line + [LF]) < 1
    ensures Load(PrintLog(cmds) + ([STAR] + line + [LF] + rest), 0) == LoadResult(cmds, FormatError, |PrintLog(cmds)|)
  {
    hide PrintLog, LineEnd, ReadArgs, ParseInt;
    var g := [STAR] + line + [LF] + rest;
    var f, p := PrintLog(cmds) + g, |PrintLog(cmds)|;
    var end := p + |line| + 2;
    assert forall i :: 0 <= i < |g| ==> f[p + i] == g[i];
    forall i | p <= i < end - 1 ensures f[i] != LF {
      if i > p { assert f[i] == line[i - p - 1]; }
    }
    assert f[end - 1] == LF;
    LineEndIs(f, p, LINE_MAX, end);
    assert f[p + 1..end] == line + [LF];
    BadAfterLog(cmds, g);
  }

  /** An argument that is announced but does not start with a length. */
  lemma BadArgumentRefused(cmds: seq<Command>, args: seq<Bytes>, n: nat, h: Bytes)
    requires (forall i :: 0 <= i < |cmds| ==> Printable(cmds[i])) && forall i :: 0 <= i < |args| ==> |args[i]| <= LONG_MAX
    requires |args| < n <= INT_MAX && h != [] && h[0] != DOLLAR
    ensures Load(PrintLog(cmds) + (Header(STAR, n) + PrintArgs(args) + h), 0) == LoadResult(cmds, FormatError, |PrintLog(cmds)|)
  {
    hide PrintLog, LineEnd, ReadArgs, ParseInt, Header, PrintArgs;
    var a, b := Header(STAR, n), PrintArgs(args);
    var g := a + b + h;
    var f, p := PrintLog(cmds) + g, |PrintLog(cmds)|;
    assert f[p..p + |a|] == a && f[p + |a|..p + |a| + |b|] == b && f[p + |a| + |b|] == h[0];
    ReadHeader(f, p, STAR, n);
    ArgsThenBad(f, p + |a|, args, n);
    BadAfterLog(cmds, g);
  }

  lemma NoArgument(f: Bytes, pos: nat)
    requires pos < |f| && f[pos] != DOLLAR
    ensures ReadArg(f, pos) == ArgBad
  {
    hide LineEnd;
  }

  lemma {:induction false} ArgsThenBad(f: Bytes, pos: nat, args: seq<Bytes>, n: nat)
    requires (forall i :: 0 <= i < |args| ==> |args[i]| <= LONG_MAX) && |args| < n && Whole(f, pos, PrintArgs(args))
    requires pos + |PrintArgs(args)| < |f| && f[pos + |PrintArgs(args)|] != DOLLAR
    ensures ReadArgs(f, pos, n) == ArgsBad
    decreases |args|
  {
    hide PrintArg, ReadArg;
    if args == [] {
      NoArgument(f, pos);
    } else {
      WholeParts(f, pos, PrintArg(args[0]), PrintArgs(args[1..]));
      ReadWholeArg(f, pos, args[0]);
      ArgsThenBad(f, pos + |PrintArg(args[0])|, args[1..], n - 1);
    }
  }
}
