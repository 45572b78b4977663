/**
 The append only log format: a command is printed as the count of its arguments followed by
 each argument with its length, and read back by the loop of loadAppendOnlyFile.
 */
module Resp {

  type byte = n: int | 0 <= n < 256

  const CR: byte := 13
  const LF: byte := 10
  const STAR: byte := 42
  const DOLLAR: byte := 36
  const ZERO: byte := 48

  /** Room in the line buffer of the loader: char buf[128] less the terminator. */
  const LINE_MAX: nat := 127

  type Bytes = seq<byte>
  type Command = seq<Bytes>

  // ---------------------------------------------------------------- decimal numbers

  /** ll2string for a number that is not negative. */
  function Decimal(n: nat): (s: Bytes)
    ensures |s| > 0
  {
    if n < 10 then [ZERO + n] else Decimal(n / 10) + [ZERO + n % 10]
  }

  predicate Digit(b: byte) {
    ZERO <= b < ZERO + 10
  }

  /** The number a run of digits at the start of `s` denotes, read after the number `acc`:
      the heart of atoi and strtol. */
  function Digits(s: Bytes, acc: nat): (n: nat)
    decreases |s|
  {
    if s == [] || !Digit(s[0]) then acc else Digits(s[1..], 10 * acc + (s[0] - ZERO))
  }

  predicate Space(b: byte) {
    b == 32 || 9 <= b <= 13
  }

  /** atoi / strtol in base 10: blanks, a sign, digits. */
  function ParseInt(s: Bytes): (n: int)
    decreases |s|
  {
    if s == [] then 0
    else if Space(s[0]) then ParseInt(s[1..])
    else if s[0] == 45 then -(Digits(s[1..], 0) as int)
    else if s[0] == 43 then Digits(s[1..], 0)
    else Digits(s, 0)
  }

  lemma {:induction false} DecimalDigits(n: nat)
    ensures forall i :: 0 <= i < |Decimal(n)| ==> Digit(Decimal(n)[i])
  {
    if n >= 10 {
      DecimalDigits(n / 10);
    }
  }

  lemma {:induction false} DigitsThen(s: Bytes, t: Bytes, acc: nat)
    requires forall i :: 0 <= i < |s| ==> Digit(s[i])
    ensures Digits(s + t, acc) == Digits(t, Digits(s, acc))
    decreases |s|
  {
    if s == [] {
      assert s + t == t;
    } else {
      assert (s + t)[1..] == s[1..] + t;
      DigitsThen(s[1..], t, 10 * acc + (s[0] - ZERO));
    }
  }

  lemma {:induction false} DigitsOfDecimal(n: nat)
    ensures Digits(Decimal(n), 0) == n
  {
    DecimalDigits(n);
    if n >= 10 {
      DigitsOfDecimal(n / 10);
      DecimalDigits(n / 10);
      var last := [ZERO + n % 10];
      DigitsThen(Decimal(n / 10), last, 0);
      assert last[1..] == [];
    }
  }

  /** Reading back a printed number, whatever that is not a digit comes after it. */
  lemma ParseDecimal(n: nat, rest: Bytes)
    requires rest == [] || !Digit(rest[0])
    ensures ParseInt(Decimal(n) + rest) == n
  {
    hide Digits, Decimal;
    DecimalDigits(n);
    DigitsOfDecimal(n);
    DigitsThen(Decimal(n), rest, 0);
    DigitsStop(rest, n);
    var s := Decimal(n) + rest;
    assert s[0] == Decimal(n)[0];
  }

  lemma DigitsStop(rest: Bytes, acc: nat)
    requires rest == [] || !Digit(rest[0])
    ensures Digits(rest, acc) == acc
  {
  }

  function Pow10(k: nat): (p: nat)
    ensures p > 0
  {
    if k == 0 then 1 else 10 * Pow10(k - 1)
  }

  lemma {:induction false} DecimalLength(n: nat, k: nat)
    requires k > 0 && n < Pow10(k)
    ensures |Decimal(n)| <= k
  {
    if n >= 10 {
      DecimalLength(n / 10, k - 1);
    }
  }

  // ---------------------------------------------------------------- printing

  const CRLF: Bytes := [CR, LF]

  /** A count or length line: the marker, the number, CR LF. */
  function Header(mark: byte, n: nat): (s: Bytes) {
    [mark] + Decimal(n) + CRLF
  }

  function PrintArg(arg: Bytes): (s: Bytes) {
    Header(DOLLAR, |arg|) + arg + CRLF
  }

  function PrintArgs(args: seq<Bytes>): (s: Bytes) {
    if args == [] then [] else PrintArg(args[0]) + PrintArgs(args[1..])
  }

  /** catAppendOnlyGenericCommand, as what it appends. */
  function PrintCommand(argv: Command): (s: Bytes) {
    Header(STAR, |argv|) + PrintArgs(argv)
  }

  function PrintLog(cmds: seq<Command>): (s: Bytes) {
    if cmds == [] then [] else PrintCommand(cmds[0]) + PrintLog(cmds[1..])
  }

  /** catAppendOnlyGenericCommand */
  method CatCommand(dst: Bytes, argv: Command) returns (r: Bytes)
    ensures r == dst + PrintCommand(argv)
  {
    r := dst + Header(STAR, |argv|);
    var j := 0;
    PrintArgsEnd(argv, 0);
    while j < |argv|
      invariant j <= |argv|
      invariant r + PrintArgs(argv[j..]) == dst + PrintCommand(argv)
    {
      PrintArgsEnd(argv, j);
      var o := argv[j];
      r := r + Header(DOLLAR, |o|);
      r := r + o;
      r := r + CRLF;
      j := j + 1;
    }
    PrintArgsEnd(argv, j);
  }

  lemma PrintArgsEnd(argv: Command, j: nat)
    requires j <= |argv|
    ensures j == 0 ==> argv[j..] == argv
    ensures PrintArgs(argv[j..]) == if j == |argv| then [] else PrintArg(argv[j]) + PrintArgs(argv[j + 1..])
  {
    if j < |argv| {
      assert argv[j..][0] == argv[j] && argv[j..][1..] == argv[j + 1..];
    }
  }

  lemma {:induction false} PrintLogAppend(a: seq<Command>, b: seq<Command>)
    ensures PrintLog(a + b) == PrintLog(a) + PrintLog(b)
  {
    hide PrintCommand;
    if a == [] {
      assert a + b == b;
    } else {
      assert (a + b)[1..] == a[1..] + b;
      PrintLogAppend(a[1..], b);
    }
  }

  // ---------------------------------------------------------------- reading

  /** Where fgets stops: after a newline, at a full buffer, or at the end of the file. */
  function LineEnd(f: Bytes, pos: nat, room: nat): (e: nat)
    requires pos <= |f|
    ensures pos <= e <= |f|
    ensures room > 0 && pos < |f| ==> e > pos
    decreases room
  {
    if room == 0 || pos == |f| then pos
    else if f[pos] == LF then pos + 1
    else LineEnd(f, pos + 1, room - 1)
  }

  datatype ArgResult = Arg(arg: Bytes, end: nat) | ArgShort | ArgBad

  /** One argument: the length line, the bytes, and two more bytes. A negative length asks for more
      memory than there is. */
  function ReadArg(f: Bytes, pos: nat): (r: ArgResult)
    requires pos <= |f|
    ensures r.Arg? ==> pos < r.end <= |f|
  {
    if pos == |f| then ArgShort
    else
      var e := LineEnd(f, pos, LINE_MAX);
      if f[pos] != DOLLAR then ArgBad
      else
        var len := ParseInt(f[pos + 1..e]);
        if len < 0 then ArgBad
        else if e + len > |f| then ArgShort
        else if e + len + 2 > |f| then ArgShort
        else Arg(f[e..e + len], e + len + 2)
  }

  datatype ArgsResult = Args(args: seq<Bytes>, end: nat) | ArgsShort | ArgsBad

  function ReadArgs(f: Bytes, pos: nat, n: nat): (r: ArgsResult)
    requires pos <= |f|
    ensures r.Args? ==> pos <= r.end <= |f| && |r.args| == n
    decreases n
  {
    if n == 0 then Args([], pos)
    else
      match ReadArg(f, pos)
      case ArgShort => ArgsShort
      case ArgBad => ArgsBad
      case Arg(a, e) =>
        match ReadArgs(f, e, n - 1)
        case Args(rest, e') => Args([a] + rest, e')
        case ArgsShort => ArgsShort
        case ArgsBad => ArgsBad
  }

  datatype CommandResult = Cmd(argv: Command, end: nat) | End | Short | Bad

  /** One round of the loader's outer loop: End at the end of the file, Short where the file ends too
      early (readerr), Bad on a format error. */
  function ReadCommand(f: Bytes, pos: nat): (r: CommandResult)
    requires pos <= |f|
    ensures r.Cmd? ==> pos < r.end <= |f|
  {
    if pos == |f| then End
    else
      var e := LineEnd(f, pos, LINE_MAX);
      if f[pos] != STAR then Bad
      else if e == pos + 1 then Short
      else
        var argc := ParseInt(f[pos + 1..e]);
        if argc < 1 then Bad
        else
          match ReadArgs(f, e, argc)
          case Args(args, e') => Cmd(args, e')
          case ArgsShort => Short
          case ArgsBad => Bad
  }

  /** How a load ends: cleanly, at an unexpected end of file, or on a format error. */
  datatype Outcome = Loaded | Truncated | FormatError

  datatype LoadResult = LoadResult(cmds: seq<Command>, outcome: Outcome, validUpTo: nat)

  function Load(f: Bytes, pos: nat): (r: LoadResult)
    requires pos <= |f|
    ensures pos <= r.validUpTo <= |f|
    decreases |f| - pos
  {
    match ReadCommand(f, pos)
    case End => LoadResult([], Loaded, pos)
    case Short => LoadResult([], Truncated, pos)
    case Bad => LoadResult([], FormatError, pos)
    case Cmd(argv, e) =>
      var r := Load(f, e);
      r.(cmds := [argv] + r.cmds)
  }

  /** The commands read so far, in front of those still to come. */
  ghost function After(cmds: seq<Command>, r: LoadResult): (r': LoadResult) {
    r.(cmds := cmds + r.cmds)
  }

  lemma LoadStep(f: Bytes, pos: nat, cmds: seq<Command>)
    requires pos <= |f|
    ensures var r := ReadCommand(f, pos);
      After(cmds, Load(f, pos)) ==
      if r.End? then LoadResult(cmds, Loaded, pos)
      else if r.Short? then LoadResult(cmds, Truncated, pos)
      else if r.Bad? then LoadResult(cmds, FormatError, pos)
      else After(cmds + [r.argv], Load(f, r.end))
  {
    hide ReadCommand;
    assert cmds + [] == cmds;
    match ReadCommand(f, pos)
    case End =>
    case Short =>
    case Bad =>
    case Cmd(argv, e) =>
      assert cmds + ([argv] + Load(f, e).cmds) == (cmds + [argv]) + Load(f, e).cmds;
  }

  /** The loops of loadAppendOnlyFile. */
  method LoadFile(f: Bytes) returns (cmds: seq<Command>, outcome: Outcome, validUpTo: nat)
    ensures LoadResult(cmds, outcome, validUpTo) == Load(f, 0)
  {
    hide ReadCommand, Load;
    cmds, validUpTo := [], 0;
    var pos := 0;
    assert Load(f, 0) == After([], Load(f, 0));
    while true
      invariant pos == validUpTo <= |f|
      invariant Load(f, 0) == After(cmds, Load(f, pos))
      decreases |f| - pos
    {
      LoadStep(f, pos, cmds);
      var r := LoadCommand(f, pos);
      match r
      case End => return cmds, Loaded, validUpTo;
      case Short => return cmds, Truncated, validUpTo;
      case Bad => return cmds, FormatError, validUpTo;
      case Cmd(argv, end) =>
        cmds := cmds + [argv];
        pos := end;
        validUpTo := end;
    }
  }

  /** One round: the count line and the arguments. */
  method LoadCommand(f: Bytes, pos: nat) returns (r: CommandResult)
    requires pos <= |f|
    ensures r == ReadCommand(f, pos)
  {
    hide ParseInt, LineEnd, ReadArgs;
    if pos == |f| {
      return End;
    }
    var e := LineEnd(f, pos, LINE_MAX);
    if f[pos] != STAR {
      return Bad;
    }
    if e == pos + 1 {
      return Short;
    }
    var argc := ParseInt(f[pos + 1..e]);
    if argc < 1 {
      return Bad;
    }
    var argv, end, status := LoadArgs(f, e, argc);
    r := if status == 0 then Cmd(argv, end) else if status == 1 then Short else Bad;
  }

  /** The inner loop over the arguments. status: 0 read, 1 end of file, 2 bad format. */
  method LoadArgs(f: Bytes, start: nat, argc: nat) returns (argv: Command, pos: nat, status: nat)
    requires start <= |f|
    ensures status <= 2
    ensures ReadArgs(f, start, argc) == if status == 0 then Args(argv, pos) else if status == 1 then ArgsShort else ArgsBad
  {
    hide ParseInt, LineEnd, ReadArg;
    argv, pos, status := [], start, 0;
    var j := 0;
    while j < argc
      invariant j <= argc && pos <= |f|
      invariant ReadArgs(f, start, argc) == Continue(argv, ReadArgs(f, pos, argc - j))
    {
      match ReadArg(f, pos)
      case ArgShort => return argv, pos, 1;
      case ArgBad => return argv, pos, 2;
      case Arg(a, e) =>
        ContinueStep(argv, a, ReadArgs(f, e, argc - j - 1));
        argv := argv + [a];
        pos := e;
        j := j + 1;
    }
  }

  ghost function Continue(argv: Command, r: ArgsResult): (r': ArgsResult) {
    match r
    case Args(rest, e) => Args(argv + rest, e)
    case ArgsShort => ArgsShort
    case ArgsBad => ArgsBad
  }

  lemma ContinueStep(argv: Command, a: Bytes, r: ArgsResult)
    ensures Continue(argv, Continue([a], r)) == Continue(argv + [a], r)
  {
    if r.Args? {
      assert argv + ([a] + r.args) == (argv + [a]) + r.args;
    }
  }

  // ---------------------------------------------------------------- reading what was printed

  const INT_MAX: nat := 0x7FFF_FFFF
  const LONG_MAX: nat := 0x7FFF_FFFF_FFFF_FFFF

  /** A command the C types can hold: at least one argument, the count an int, the lengths longs. */
  ghost predicate Printable(argv: Command) {
    1 <= |argv| <= INT_MAX && forall i :: 0 <= i < |argv| ==> |argv[i]| <= LONG_MAX
  }

  /** The file goes on at `pos` with all of `s`. */
  ghost predicate Whole(f: Bytes, pos: nat, s: Bytes) {
    pos + |s| <= |f| && f[pos..pos + |s|] == s
  }

  /** The file ends at `pos` within `s`. */
  ghost predicate Cut(f: Bytes, pos: nat, s: Bytes) {
    pos <= |f| < pos + |s| && f[pos..] == s[..|f| - pos]
  }

  lemma {:induction false} LineEndIs(f: Bytes, pos: nat, room: nat, e: nat)
    requires pos <= e <= |f| && e - pos <= room
    requires forall i :: pos <= i < e - 1 ==> f[i] != LF
    requires (e > pos && f[e - 1] == LF) || (e == |f| && (e > pos ==> f[e - 1] != LF))
    ensures LineEnd(f, pos, room) == e
    decreases room
  {
    if pos < e && f[pos] != LF {
      LineEndIs(f, pos + 1, room - 1, e);
    }
  }

  lemma ShortHeader(mark: byte, n: nat)
    requires n <= LONG_MAX
    ensures |Header(mark, n)| <= LINE_MAX
  {
    hide Decimal;
    assert Pow10(5) == 100000;
    assert Pow10(10) == 10000000000;
    assert Pow10(15) == 1000000000000000;
    assert Pow10(19) == 10000000000000000000;
    DecimalLength(n, 19);
  }

  lemma HeaderBytes(mark: byte, n: nat)
    ensures var h := Header(mark, n);
      && |h| == |Decimal(n)| + 3 && h[0] == mark && h[1..] == Decimal(n) + CRLF
      && h[|h| - 1] == LF && h[|h| - 2] == CR
      && (forall i :: 0 < i < |h| - 2 ==> Digit(h[i]))
  {
    hide Decimal;
    DecimalDigits(n);
    var h := Header(mark, n);
    assert forall i :: 0 < i < |h| - 2 ==> h[i] == Decimal(n)[i - 1];
  }

  /** A whole header line is read as one line, and as its number. */
  lemma ReadHeader(f: Bytes, pos: nat, mark: byte, n: nat)
    requires mark != LF && n <= LONG_MAX && Whole(f, pos, Header(mark, n))
    ensures var e := pos + |Header(mark, n)|;
      e <= |f| && LineEnd(f, pos, LINE_MAX) == e && e > pos + 1 && f[pos] == mark && ParseInt(f[pos + 1..e]) == n
  {
    hide Decimal, ParseInt, Header, LineEnd;
    var h := Header(mark, n);
    var e := pos + |h|;
    HeaderBytes(mark, n);
    ShortHeader(mark, n);
    assert forall i :: 0 <= i < |h| ==> f[pos + i] == f[pos..e][i] == h[i];
    forall i | pos <= i < e - 1
      ensures f[i] != LF
    {
      assert f[i] == h[i - pos];
    }
    assert f[e - 1] == h[|h| - 1];
    LineEndIs(f, pos, LINE_MAX, e);
    assert f[pos + 1..e] == h[1..];
    ParseDecimal(n, CRLF);
  }

  lemma {:induction false} DigitsGrow(s: Bytes, acc: nat)
    ensures Digits(s, acc) >= acc
    decreases |s|
  {
    if s != [] && Digit(s[0]) {
      DigitsGrow(s[1..], 10 * acc + (s[0] - ZERO));
    }
  }

  lemma {:induction false} LeadingDigit(n: nat)
    requires n > 0
    ensures Decimal(n)[0] > ZERO
  {
    if n >= 10 {
      LeadingDigit(n / 10);
    }
  }

  /** A header line cut short by the end of the file reads as some number, and not as zero if the
      printed number was not. */
  lemma CutHeader(f: Bytes, pos: nat, mark: byte, n: nat)
    requires mark != LF && n <= LONG_MAX && Cut(f, pos, Header(mark, n)) && pos < |f|
    ensures LineEnd(f, pos, LINE_MAX) == |f| && f[pos] == mark
    ensures ParseInt(f[pos + 1..]) >= 0
    ensures n > 0 && |f| > pos + 1 ==> ParseInt(f[pos + 1..]) >= 1
  {
    hide Decimal, Header, LineEnd, Digits;
    var h := Header(mark, n);
    HeaderBytes(mark, n);
    ShortHeader(mark, n);
    assert forall i :: pos <= i < |f| ==> f[i] == f[pos..][i - pos] == h[i - pos];
    forall i | pos <= i < |f|
      ensures f[i] != LF
    {
      assert f[i] == h[i - pos];
    }
    LineEndIs(f, pos, LINE_MAX, |f|);
    var t := f[pos + 1..];
    if t != [] {
      assert t[0] == h[1] == h[1..][0] == Decimal(n)[0];
      DecimalDigits(n);
      FirstDigit(t);
      if n > 0 {
        LeadingDigit(n);
      }
    }
  }

  lemma FirstDigit(t: Bytes)
    requires t != [] && Digit(t[0])
    ensures ParseInt(t) >= t[0] - ZERO
  {
    DigitsGrow(t[1..], t[0] - ZERO);
  }

  lemma WholeParts(f: Bytes, pos: nat, a: Bytes, b: Bytes)
    requires Whole(f, pos, a + b)
    ensures Whole(f, pos, a) && Whole(f, pos + |a|, b)
  {
    var s := a + b;
    assert f[pos..pos + |a|] == f[pos..pos + |s|][..|a|] == a;
    assert f[pos + |a|..pos + |a| + |b|] == f[pos..pos + |s|][|a|..] == b;
  }

  lemma CutParts(f: Bytes, pos: nat, a: Bytes, b: Bytes)
    requires Cut(f, pos, a + b)
    ensures if |f| < pos + |a| then Cut(f, pos, a) else Whole(f, pos, a) && Cut(f, pos + |a|, b)
  {
    var s := a + b;
    if |f| < pos + |a| {
      assert s[..|f| - pos] == a[..|f| - pos];
    } else {
      assert f[pos..pos + |a|] == f[pos..][..|a|] == s[..|a|] == a;
      assert f[pos + |a|..] == f[pos..][|a|..] == s[..|f| - pos][|a|..] == b[..|f| - pos - |a|];
    }
  }

  lemma ReadWholeArg(f: Bytes, pos: nat, a: Bytes)
    requires |a| <= LONG_MAX && Whole(f, pos, PrintArg(a))
    ensures ReadArg(f, pos) == Arg(a, pos + |PrintArg(a)|)
  {
    hide Header, ParseInt, LineEnd;
    var h := Header(DOLLAR, |a|);
    assert PrintArg(a) == h + (a + CRLF);
    WholeParts(f, pos, h, a + CRLF);
    WholeParts(f, pos + |h|, a, CRLF);
    ReadHeader(f, pos, DOLLAR, |a|);
  }

  lemma ReadCutArg(f: Bytes, pos: nat, a: Bytes)
    requires |a| <= LONG_MAX && Cut(f, pos, PrintArg(a))
    ensures ReadArg(f, pos) == ArgShort
  {
    hide Header, ParseInt, LineEnd;
    var h := Header(DOLLAR, |a|);
    assert PrintArg(a) == h + (a + CRLF);
    CutParts(f, pos, h, a + CRLF);
    if pos < |f| {
      if |f| < pos + |h| {
        CutHeader(f, pos, DOLLAR, |a|);
        assert f[pos + 1..|f|] == f[pos + 1..];
      } else {
        ReadHeader(f, pos, DOLLAR, |a|);
      }
    }
  }

  lemma {:induction false} ReadWholeArgs(f: Bytes, pos: nat, args: seq<Bytes>)
    requires (forall i :: 0 <= i < |args| ==> |args[i]| <= LONG_MAX) && Whole(f, pos, PrintArgs(args))
    ensures ReadArgs(f, pos, |args|) == Args(args, pos + |PrintArgs(args)|)
    decreases |args|
  {
    hide PrintArg, ReadArg;
    if args != [] {
      WholeParts(f, pos, PrintArg(args[0]), PrintArgs(args[1..]));
      ReadWholeArg(f, pos, args[0]);
      ReadWholeArgs(f, pos + |PrintArg(args[0])|, args[1..]);
      assert [args[0]] + args[1..] == args;
    }
  }

  /** However many arguments were announced, if the file ends within them the loader notices. */
  lemma {:induction false} ReadCutArgs(f: Bytes, pos: nat, args: seq<Bytes>)
    requires (forall i :: 0 <= i < |args| ==> |args[i]| <= LONG_MAX) && Cut(f, pos, PrintArgs(args))
    ensures ReadArgs(f, pos, |args|) == ArgsShort
    decreases |args|
  {
    hide PrintArg, ReadArg;
    if args != [] {
      CutParts(f, pos, PrintArg(args[0]), PrintArgs(args[1..]));
      if |f| < pos + |PrintArg(args[0])| {
        ReadCutArg(f, pos, args[0]);
      } else {
        ReadWholeArg(f, pos, args[0]);
        ReadCutArgs(f, pos + |PrintArg(args[0])|, args[1..]);
      }
    }
  }

  lemma ReadWholeCommand(f: Bytes, pos: nat, argv: Command)
    requires Printable(argv) && Whole(f, pos, PrintCommand(argv))
    ensures ReadCommand(f, pos) == Cmd(argv, pos + |PrintCommand(argv)|)
  {
    hide Header, ParseInt, LineEnd, PrintArgs, ReadArgs;
    WholeParts(f, pos, Header(STAR, |argv|), PrintArgs(argv));
    ReadHeader(f, pos, STAR, |argv|);
    ReadWholeArgs(f, pos + |Header(STAR, |argv|)|, argv);
  }

  lemma ReadCutCommand(f: Bytes, pos: nat, argv: Command)
    requires Printable(argv) && Cut(f, pos, PrintCommand(argv)) && pos < |f|
    ensures ReadCommand(f, pos) == Short
  {
    hide Header, ParseInt, LineEnd, PrintArgs, ReadArgs;
    var h := Header(STAR, |argv|);
    CutParts(f, pos, h, PrintArgs(argv));
    if |f| < pos + |h| {
      CutHeader(f, pos, STAR, |argv|);
      assert f[pos + 1..|f|] == f[pos + 1..];
      if |f| > pos + 1 {
        NothingLeft(f, ParseInt(f[pos + 1..]));
      }
    } else {
      ReadHeader(f, pos, STAR, |argv|);
      ReadCutArgs(f, pos + |h|, argv);
    }
  }

  lemma NothingLeft(f: Bytes, n: nat)
    requires n >= 1
    ensures ReadArgs(f, |f|, n) == ArgsShort
  {
  }

  // ---------------------------------------------------------------- the loader on a log, and on any prefix of one

  /** How many commands of a log lie wholly in its first `m` bytes. */
  function WholeCommands(cmds: seq<Command>, m: nat): (k: nat)
    ensures k <= |cmds|
  {
    if cmds == [] || m < |PrintCommand(cmds[0])| then 0
    else 1 + WholeCommands(cmds[1..], m - |PrintCommand(cmds[0])|)
  }

  /** The definition says what it should. */
  lemma {:induction false} WholeCommandsFit(cmds: seq<Command>, m: nat)
    ensures var k := WholeCommands(cmds, m);
      && |PrintLog(cmds[..k])| <= m
      && (k < |cmds| ==> m < |PrintLog(cmds[..k + 1])|)
  {
    hide PrintCommand;
    var k := WholeCommands(cmds, m);
    if cmds != [] {
      var n := |PrintCommand(cmds[0])|;
      if m >= n {
        WholeCommandsFit(cmds[1..], m - n);
        assert cmds[..k][1..] == cmds[1..][..k - 1];
        if k < |cmds| {
          assert cmds[..k + 1][1..] == cmds[1..][..k];
        }
      } else {
        assert cmds[..1][1..] == [];
      }
    }
  }

  lemma {:induction false} LoadRest(f: Bytes, pos: nat, cmds: seq<Command>)
    requires forall i :: 0 <= i < |cmds| ==> Printable(cmds[i])
    requires pos <= |f| <= pos + |PrintLog(cmds)| && f[pos..] == PrintLog(cmds)[..|f| - pos]
    ensures var k := WholeCommands(cmds, |f| - pos);
      var end := pos + |PrintLog(cmds[..k])|;
      Load(f, pos) == LoadResult(cmds[..k], if end == |f| then Loaded else Truncated, end)
    decreases |cmds|
  {
    hide PrintCommand, ReadCommand, Printable, Load, WholeCommands;
    WholeStep(cmds, |f| - pos);
    LoadIs(f, pos);
    if pos < |f| {
      var c, rest := PrintCommand(cmds[0]), PrintLog(cmds[1..]);
      assert PrintLog(cmds) == c + rest;
      if |f| < pos + |c| {
        assert (c + rest)[..|f| - pos] == c[..|f| - pos];
        ReadCutCommand(f, pos, cmds[0]);
      } else {
        assert f[pos..pos + |c|] == f[pos..][..|c|] == c;
        ReadWholeCommand(f, pos, cmds[0]);
        assert f[pos + |c|..] == f[pos..][|c|..] == (c + rest)[..|f| - pos][|c|..] == rest[..|f| - pos - |c|];
        LoadRest(f, pos + |c|, cmds[1..]);
        var k := WholeCommands(cmds, |f| - pos);
        assert cmds[..k] == [cmds[0]] + cmds[1..][..k - 1];
        assert cmds[..k][1..] == cmds[1..][..k - 1];
      }
    } else {
      assert cmds[..0] == [];
    }
  }

  lemma WholeStep(cmds: seq<Command>, m: nat)
    ensures WholeCommands(cmds, m) ==
            if cmds == [] || m < |PrintCommand(cmds[0])| then 0
            else 1 + WholeCommands(cmds[1..], m - |PrintCommand(cmds[0])|)
    ensures WholeCommands(cmds, 0) == 0
  {
  }

  lemma LoadIs(f: Bytes, pos: nat)
    requires pos <= |f|
    ensures var r := ReadCommand(f, pos);
      && (pos == |f| ==> Load(f, pos) == LoadResult([], Loaded, pos))
      && (r.Short? ==> Load(f, pos) == LoadResult([], Truncated, pos))
      && (r.Cmd? ==> Load(f, pos) == After([r.argv], Load(f, r.end)))
  {
  }

  /** Truncation: on any prefix of a printed log the loader runs exactly the commands that are wholly
      inside it, and `validUpTo` is the end of the last of them. */
  lemma LoadPrefix(cmds: seq<Command>, m: nat)
    requires forall i :: 0 <= i < |cmds| ==> Printable(cmds[i])
    requires m <= |PrintLog(cmds)|
    ensures var k := WholeCommands(cmds, m);
      var end := |PrintLog(cmds[..k])|;
      Load(PrintLog(cmds)[..m], 0) == LoadResult(cmds[..k], if end == m then Loaded else Truncated, end)
  {
    hide *;
    var f := PrintLog(cmds)[..m];
    assert f[0..] == f;
    LoadRest(f, 0, cmds);
  }

  /** Round trip: loading a printed log runs the commands that were printed. */
  lemma LoadLog(cmds: seq<Command>)
    requires forall i :: 0 <= i < |cmds| ==> Printable(cmds[i])
    ensures Load(PrintLog(cmds), 0) == LoadResult(cmds, Loaded, |PrintLog(cmds)|)
  {
    hide *;
    var f := PrintLog(cmds);
    assert f[..|f|] == f;
    AllWhole(cmds);
    LoadPrefix(cmds, |f|);
    assert cmds[..|cmds|] == cmds;
  }

  lemma {:induction false} AllWhole(cmds: seq<Command>)
    ensures WholeCommands(cmds, |PrintLog(cmds)|) == |cmds|
  {
    if cmds != [] {
      AllWhole(cmds[1..]);
    }
  }
}
