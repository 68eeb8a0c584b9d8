/**
 The append-only file as text: catAppendOnlyGenericCommand and feedAppendOnlyFile print
 commands, loadSingleAppendOnlyFile reads them back, tolerating a log cut at any byte.
 */
module AofFormat {

  newtype byte = x: int | 0 <= x < 256

  type Arg = seq<byte>
  type Command = seq<Arg>

  const STAR: byte := 42    // '*'
  const DOLLAR: byte := 36  // '$'
  const HASH: byte := 35    // '#'
  const CR: byte := 13
  const LF: byte := 10
  const ZERO: byte := 48    // '0'
  const MINUS: byte := 45   // '-'
  const PLUS: byte := 43    // '+'
  const SPACE: byte := 32

  /** AOF_ANNOTATION_LINE_MAX_LEN. */
  const LINE_MAX := 1024

  // ---------------------------------------------------------------- decimal numbers

  predicate IsDigit(c: byte) { 48 <= c <= 57 }

  /** ll2string on a non-negative number. */
  function Decimal(n: nat): (s: seq<byte>)
    ensures s != [] && forall i :: 0 <= i < |s| ==> IsDigit(s[i])
  {
    if n < 10 then [(48 + n) as byte] else Decimal(n / 10) + [(48 + n % 10) as byte]
  }

  /** The value of the digits that s starts with, after `acc`. */
  function DigitsFrom(acc: int, s: seq<byte>): int
    decreases |s|
  {
    if s == [] || !IsDigit(s[0]) then acc
    else DigitsFrom(acc * 10 + (s[0] as int - 48), s[1..])
  }

  function SkipBlanks(s: seq<byte>): seq<byte> {
    if s != [] && (s[0] == SPACE || 9 <= s[0] <= 13) then SkipBlanks(s[1..]) else s
  }

  /** atoi and strtol: blanks, a sign, digits; overflow is not modelled. */
  function ParseInt(s: seq<byte>): int {
    var t := SkipBlanks(s);
    if t != [] && t[0] == MINUS then -DigitsFrom(0, t[1..])
    else if t != [] && t[0] == PLUS then DigitsFrom(0, t[1..])
    else DigitsFrom(0, t)
  }

  ghost predicate StopsDigits(t: seq<byte>) { t == [] || !IsDigit(t[0]) }

  lemma {:induction false} DigitsConcat(acc: int, s: seq<byte>, t: seq<byte>)
    requires forall i :: 0 <= i < |s| ==> IsDigit(s[i])
    ensures DigitsFrom(acc, s + t) == DigitsFrom(DigitsFrom(acc, s), t)
    decreases |s|
  {
    if s == [] {
      assert s + t == t;
    } else {
      assert (s + t)[1..] == s[1..] + t;
      DigitsConcat(acc * 10 + (s[0] as int - 48), s[1..], t);
    }
  }

  lemma {:induction false} DecimalValue(n: nat, t: seq<byte>)
    requires StopsDigits(t)
    ensures DigitsFrom(0, Decimal(n) + t) == n
  {
    if n < 10 {
      var d := [(48 + n) as byte];
      assert (d + t)[1..] == t;
    } else {
      var d := [(48 + n % 10) as byte];
      assert Decimal(n) + t == Decimal(n / 10) + (d + t);
      DigitsConcat(0, Decimal(n / 10), d + t);
      DecimalValue(n / 10, []);
      assert Decimal(n / 10) + [] == Decimal(n / 10);
      assert (d + t)[1..] == t;
      assert DigitsFrom(n / 10, d + t) == DigitsFrom(n / 10 * 10 + n % 10, t);
    }
  }

  lemma DecimalParses(n: nat, t: seq<byte>)
    requires StopsDigits(t)
    ensures ParseInt(Decimal(n) + t) == n
  {
    DecimalValue(n, t);
    assert IsDigit((Decimal(n) + t)[0]);
  }

  /** A positive number keeps a positive value when its digits are cut short. */
  lemma {:induction false} DecimalLead(n: nat)
    requires n > 0
    ensures Decimal(n)[0] != ZERO
  {
    if n >= 10 { DecimalLead(n / 10); }
  }

  lemma {:induction false} DigitsGrow(acc: int, s: seq<byte>)
    requires acc >= 0
    ensures DigitsFrom(acc, s) >= acc
    decreases |s|
  {
    if s != [] && IsDigit(s[0]) { DigitsGrow(acc * 10 + (s[0] as int - 48), s[1..]); }
  }

  /** Numbers that fit a 64-bit counter print in at most 19 digits. */
  lemma {:induction false} DecimalLength(n: nat, k: nat)
    requires n < Pow10(k) && k > 0
    ensures |Decimal(n)| <= k
  {
    if n >= 10 { DecimalLength(n / 10, k - 1); }
  }

  ghost function Pow10(k: nat): nat { if k == 0 then 1 else 10 * Pow10(k - 1) }

  // ---------------------------------------------------------------- printing

  function Header(mark: byte, n: nat): seq<byte> { [mark] + Decimal(n) + [CR, LF] }

  function PrintArg(a: Arg): seq<byte> { Header(DOLLAR, |a|) + a + [CR, LF] }

  function PrintArgs(args: seq<Arg>): seq<byte> {
    if args == [] then [] else PrintArg(args[0]) + PrintArgs(args[1..])
  }

  /** catAppendOnlyGenericCommand. */
  function Print(cmd: Command): seq<byte> { Header(STAR, |cmd|) + PrintArgs(cmd) }

  function PrintAll(cmds: seq<Command>): seq<byte> {
    if cmds == [] then [] else Print(cmds[0]) + PrintAll(cmds[1..])
  }

  /** What the counters of the source can hold: a 32-bit argc, 63-bit lengths. */
  ghost predicate Printable(cmd: Command) {
    && 1 <= |cmd| < 0x8000_0000
    && forall i :: 0 <= i < |cmd| ==> |cmd[i]| < 0x7fff_ffff_ffff_ffff
  }

  // ---------------------------------------------------------------- reading one command

  /** How many bytes fgets takes: through a newline, at most LINE_MAX - 1. */
  function LineLength(s: seq<byte>, room: nat): (k: nat)
    ensures k <= |s| && k <= room
  {
    if s == [] || room == 0 then 0
    else if s[0] == LF then 1
    else 1 + LineLength(s[1..], room - 1)
  }

  function LineOf(s: seq<byte>): seq<byte> { s[..LineLength(s, LINE_MAX - 1)] }

  function AfterLine(s: seq<byte>): seq<byte> { s[LineLength(s, LINE_MAX - 1)..] }

  /** fgets met the end of the file: it stopped for no other reason. */
  predicate HitsEnd(s: seq<byte>)
    requires s != []
  {
    LineOf(s) == s && |s| < LINE_MAX - 1 && s[|s| - 1] != LF
  }

  /** Outcome of reading one item at the current position; `rest` is what follows it. */
  datatype Reading =
    | AtEnd
    | Annotation(rest: seq<byte>)
    | Complete(cmd: Command, rest: seq<byte>)
    | ShortRead       // readerr with the end of the file reached
    | ReadError       // readerr elsewhere
    | BadFormat

  datatype ArgReading = ArgsDone(args: seq<Arg>, rest: seq<byte>) | ArgsShort | ArgsBad

  /** One `$<len>\r\n<bytes>\r\n` group of the inner loop. */
  function ReadArg(s: seq<byte>): (r: ArgReading)
    ensures r.ArgsDone? ==> |r.args| == 1 && |r.rest| < |s|
  {
    if s == [] then ArgsShort
    else
      var line, t := LineOf(s), AfterLine(s);
      if line[0] != DOLLAR then ArgsBad
      else
        var len := ParseInt(line[1..]);
        // A negative length becomes a huge unsigned one, which no file can supply.
        if len < 0 || len > |t| then ArgsShort
        else if |t| - len < 2 then ArgsShort
        else ArgsDone([t[..len]], t[len + 2..])
  }

  function ReadArgs(n: nat, s: seq<byte>): (r: ArgReading)
    ensures r.ArgsDone? ==> |r.args| == n && |r.rest| <= |s|
  {
    if n == 0 then ArgsDone([], s)
    else
      var first := ReadArg(s);
      if !first.ArgsDone? then first
      else
        var others := ReadArgs(n - 1, first.rest);
        if !others.ArgsDone? then others
        else ArgsDone(first.args + others.args, others.rest)
  }

  /** One turn of the loop of loadSingleAppendOnlyFile, up to the command look-up. */
  function ReadCommand(s: seq<byte>): (r: Reading)
    ensures r.Annotation? || r.Complete? ==> |r.rest| < |s|
  {
    if s == [] then AtEnd
    else
      var line, t := LineOf(s), AfterLine(s);
      if line[0] == HASH then Annotation(t)
      else if line[0] != STAR then BadFormat
      else if |line| == 1 || line[1] == 0 then (if HitsEnd(s) then ShortRead else ReadError)
      else
        var argc := ParseInt(line[1..]);
        if argc < 1 then BadFormat
        else
          match ReadArgs(argc, t)
          case ArgsShort => ShortRead
          case ArgsBad => BadFormat
          case ArgsDone(args, rest) => Complete(args, rest)
  }

  // ---------------------------------------------------------------- lines

  lemma {:induction false} LineWhole(h: seq<byte>, t: seq<byte>, room: nat)
    requires LF !in h && |h| < room
    ensures LineLength(h + [LF] + t, room) == |h| + 1
  {
    if h == [] {
      assert (h + [LF] + t)[0] == LF;
    } else {
      assert (h + [LF] + t)[1..] == h[1..] + [LF] + t;
      LineWhole(h[1..], t, room - 1);
    }
  }

  lemma {:induction false} LineCut(h: seq<byte>, room: nat)
    requires LF !in h && |h| <= room
    ensures LineLength(h, room) == |h|
  {
    if h != [] { LineCut(h[1..], room - 1); }
  }

  /** The text of a header line before its newline. */
  function HeaderText(mark: byte, n: nat): seq<byte> { [mark] + Decimal(n) + [CR] }

  lemma HeaderPlain(mark: byte, n: nat)
    requires mark != LF && n < 0x7fff_ffff_ffff_ffff
    ensures LF !in HeaderText(mark, n) && |HeaderText(mark, n)| <= 21
    ensures Header(mark, n) == HeaderText(mark, n) + [LF]
  {
    assert Pow10(5) == 100000;
    assert Pow10(10) == 10000000000;
    assert Pow10(15) == 1000000000000000;
    assert Pow10(19) == 10000000000000000000;
    DecimalLength(n, 19);
  }

  lemma HeaderRead(mark: byte, n: nat, t: seq<byte>)
    requires mark != LF && n < 0x7fff_ffff_ffff_ffff
    ensures var s := Header(mark, n) + t;
            && LineOf(s) == Header(mark, n) && AfterLine(s) == t
            && ParseInt(LineOf(s)[1..]) == n
  {
    var s, h := Header(mark, n) + t, HeaderText(mark, n);
    HeaderPlain(mark, n);
    assert s == h + [LF] + t;
    LineWhole(h, t, LINE_MAX - 1);
    assert Header(mark, n)[1..] == Decimal(n) + [CR, LF];
    DecimalParses(n, [CR, LF]);
  }

  /** A header cut anywhere is read whole, as the last thing in the file. */
  lemma HeaderCutRead(mark: byte, n: nat, k: nat)
    requires mark != LF && n < 0x7fff_ffff_ffff_ffff && 0 < k < |Header(mark, n)|
    ensures var s := Header(mark, n)[..k];
            LineOf(s) == s && AfterLine(s) == [] && s[0] == mark && LF !in s
  {
    var h := HeaderText(mark, n);
    HeaderPlain(mark, n);
    assert Header(mark, n)[..k] == h[..k];
    LineCut(h[..k], LINE_MAX - 1);
  }

  /** A cut array header still announces at least one argument. */
  lemma CutCount(n: nat, k: nat)
    requires 0 < n < 0x7fff_ffff_ffff_ffff && 1 < k < |Header(STAR, n)|
    ensures ParseInt(Header(STAR, n)[..k][1..]) >= 1
    ensures Header(STAR, n)[..k][1] != 0
  {
    var s := Header(STAR, n)[..k][1..];
    DecimalLead(n);
    assert s[0] == Decimal(n)[0] && IsDigit(s[0]) && s[0] != ZERO;
    DigitsGrow(s[0] as int - 48, s[1..]);
    assert DigitsFrom(0, s) == DigitsFrom(s[0] as int - 48, s[1..]);
  }

  // ---------------------------------------------------------------- whole and cut commands

  lemma ArgRead(a: Arg, t: seq<byte>)
    requires |a| < 0x7fff_ffff_ffff_ffff
    ensures ReadArg(PrintArg(a) + t) == ArgsDone([a], t)
  {
    var s := PrintArg(a) + t;
    var u := a + [CR, LF] + t;
    assert s == Header(DOLLAR, |a|) + u;
    HeaderRead(DOLLAR, |a|, u);
    assert u[..|a|] == a && u[|a| + 2..] == t;
  }

  lemma ArgCut(a: Arg, k: nat)
    requires |a| < 0x7fff_ffff_ffff_ffff && k < |PrintArg(a)|
    ensures ReadArg(PrintArg(a)[..k]) == ArgsShort
  {
    var s, h := PrintArg(a)[..k], Header(DOLLAR, |a|);
    if k == 0 {
    } else if k < |h| {
      assert s == h[..k];
      HeaderCutRead(DOLLAR, |a|, k);
    } else {
      var u := (a + [CR, LF])[..k - |h|];
      assert s == h + u;
      HeaderRead(DOLLAR, |a|, u);
    }
  }

  lemma {:induction false} ArgsRead(args: seq<Arg>, t: seq<byte>)
    requires forall i :: 0 <= i < |args| ==> |args[i]| < 0x7fff_ffff_ffff_ffff
    ensures ReadArgs(|args|, PrintArgs(args) + t) == ArgsDone(args, t)
  {
    if args == [] {
      assert PrintArgs(args) + t == t;
    } else {
      var u := PrintArgs(args[1..]) + t;
      assert PrintArgs(args) + t == PrintArg(args[0]) + u;
      ArgRead(args[0], u);
      ArgsRead(args[1..], t);
      assert args == [args[0]] + args[1..];
    }
  }

  lemma {:induction false} ArgsCut(args: seq<Arg>, k: nat)
    requires forall i :: 0 <= i < |args| ==> |args[i]| < 0x7fff_ffff_ffff_ffff
    requires k < |PrintArgs(args)|
    ensures ReadArgs(|args|, PrintArgs(args)[..k]) == ArgsShort
  {
    hide PrintArg, ReadArg;
    var first, others := PrintArg(args[0]), PrintArgs(args[1..]);
    var s := PrintArgs(args)[..k];
    if k < |first| {
      assert s == first[..k];
      ArgCut(args[0], k);
    } else {
      assert s == first + others[..k - |first|];
      ArgRead(args[0], others[..k - |first|]);
      ArgsCut(args[1..], k - |first|);
    }
  }

  /** Reading back a printed command, whatever follows it. */
  lemma CommandRead(cmd: Command, t: seq<byte>)
    requires Printable(cmd)
    ensures ReadCommand(Print(cmd) + t) == Complete(cmd, t)
  {
    var u := PrintArgs(cmd) + t;
    assert Print(cmd) + t == Header(STAR, |cmd|) + u;
    ArgsRead(cmd, t);
    HeaderShape(STAR, |cmd|);
    hide PrintArgs, Header, LineOf, AfterLine, HitsEnd, ParseInt, ReadArgs;
    HeaderRead(STAR, |cmd|, u);
  }

  lemma HeaderShape(mark: byte, n: nat)
    ensures var h := Header(mark, n); |h| > 1 && h[0] == mark && h[1] != 0
  {
    assert IsDigit(Decimal(n)[0]);
  }

  /** A printed command cut anywhere before its last byte is a short read, never garbage. */
  lemma CommandCut(cmd: Command, k: nat)
    requires Printable(cmd) && 0 < k < |Print(cmd)|
    ensures ReadCommand(Print(cmd)[..k]) == ShortRead
  {
    var s, h := Print(cmd)[..k], Header(STAR, |cmd|);
    if k < |h| {
      assert s == h[..k];
      HeaderCutRead(STAR, |cmd|, k);
      if k > 1 {
        CutCount(|cmd|, k);
        assert ReadArg([]) == ArgsShort;
      }
    } else {
      var u := PrintArgs(cmd)[..k - |h|];
      assert s == h + u;
      HeaderRead(STAR, |cmd|, u);
      ArgsCut(cmd, k - |h|);
    }
  }

  // ---------------------------------------------------------------- executing a log

  /** What the command table says of an argument vector; Unknown covers a wrong arity. */
  datatype Kind = Unknown | Multi | Exec | Select(db: nat) | Other

  type Table = Command -> Kind

  /** Selected database and the commands executed so far, each with its database. */
  datatype Data = Data(db: nat, done: seq<(nat, Command)>)

  /** The fake client: its data, and the commands queued by an open MULTI. */
  datatype Client = Client(data: Data, multi: bool, queue: seq<Command>)

  const FRESH := Client(Data(0, []), false, [])

  /** A command run at once: only SELECT and ordinary commands have an effect here. */
  function Execute(table: Table, d: Data, cmd: Command): Data {
    match table(cmd)
    case Select(db) => d.(db := db)
    case Other => d.(done := d.done + [(d.db, cmd)])
    case _ => d
  }

  function ExecuteAll(table: Table, d: Data, cmds: seq<Command>): Data {
    if cmds == [] then d
    else Execute(table, ExecuteAll(table, d, cmds[..|cmds| - 1]), cmds[|cmds| - 1])
  }

  /** One loaded command: queued inside MULTI, otherwise run; EXEC runs the queue. */
  function Step(table: Table, c: Client, cmd: Command): Client {
    if c.multi && !table(cmd).Exec? then c.(queue := c.queue + [cmd])
    else if c.multi then Client(ExecuteAll(table, c.data, c.queue), false, [])
    else if table(cmd).Multi? then c.(multi := true)
    else c.(data := Execute(table, c.data, cmd))
  }

  function Run(table: Table, c: Client, cmds: seq<Command>): Client
    decreases |cmds|
  {
    if cmds == [] then c else Run(table, Step(table, c, cmds[0]), cmds[1..])
  }

  datatype Status = AofOk | AofTruncated | AofFailed

  /** Outcome of loading a file; `keep` is the length it is truncated to, if it is. */
  datatype Loaded = Loaded(status: Status, client: Client, keep: nat)

  /**
   loadSingleAppendOnlyFile on the unread part s of a file of `total` bytes, with
   `validUpTo`, `beforeMulti` and the aof-load-truncated setting.
   */
  function LoadFrom(table: Table, total: nat, s: seq<byte>, c: Client,
                    validUpTo: nat, beforeMulti: nat, allowTruncated: bool): Loaded
    requires |s| <= total
    decreases |s|
  {
    match ReadCommand(s)
    case AtEnd =>
      if c.multi then Unexpected(c, beforeMulti, allowTruncated) else Loaded(AofOk, c, total)
    case Annotation(t) => LoadFrom(table, total, t, c, validUpTo, beforeMulti, allowTruncated)
    case ShortRead => Unexpected(c, validUpTo, allowTruncated)
    case ReadError => Loaded(AofFailed, c, total)
    case BadFormat => Loaded(AofFailed, c, total)
    case Complete(cmd, t) =>
      if table(cmd).Unknown? then Loaded(AofFailed, c, total)
      else
        LoadFrom(table, total, t, Step(table, c, cmd),
                 if allowTruncated then total - |t| else validUpTo,
                 if table(cmd).Multi? then validUpTo else beforeMulti, allowTruncated)
  }

  /** The uxeof exit. */
  function Unexpected(c: Client, keep: nat, allowTruncated: bool): Loaded {
    Loaded(if allowTruncated then AofTruncated else AofFailed, c, keep)
  }

  // ---------------------------------------------------------------- a log cut at any byte

  /** Number of commands of a log that lie completely within its first n bytes. */
  function WholeCommands(cmds: seq<Command>, n: nat): (j: nat)
    ensures j <= |cmds|
    decreases |cmds|
  {
    if cmds == [] || n < |Print(cmds[0])| then 0
    else 1 + WholeCommands(cmds[1..], n - |Print(cmds[0])|)
  }

  /** Where the last MULTI of a list of commands started. */
  function BeforeMulti(table: Table, cmds: seq<Command>): (o: nat)
  {
    if cmds == [] then 0
    else
      var most := cmds[..|cmds| - 1];
      if table(cmds[|cmds| - 1]).Multi? then |PrintAll(most)| else BeforeMulti(table, most)
  }

  ghost predicate Known(table: Table, cmds: seq<Command>) {
    forall i :: 0 <= i < |cmds| ==> Printable(cmds[i]) && !table(cmds[i]).Unknown?
  }

  /**
   What the loader makes of a file of n bytes whose whole commands are `whole`: all of
   them ran or are queued; a partial command is cut off, and so is an open MULTI, but
   only when nothing partial follows it.
   */
  function CutResult(table: Table, whole: seq<Command>, n: nat): Loaded {
    var c := Run(table, FRESH, whole);
    var end := |PrintAll(whole)|;
    if n != end then Loaded(AofTruncated, c, end)
    else if c.multi then Loaded(AofTruncated, c, BeforeMulti(table, whole))
    else Loaded(AofOk, c, n)
  }

  lemma {:induction false} PrintAllConcat(a: seq<Command>, b: seq<Command>)
    ensures PrintAll(a + b) == PrintAll(a) + PrintAll(b)
  {
    if a == [] {
      assert a + b == b;
    } else {
      assert (a + b)[1..] == a[1..] + b;
      PrintAllConcat(a[1..], b);
    }
  }

  lemma {:induction false} RunConcat(table: Table, c: Client, a: seq<Command>, b: seq<Command>)
    ensures Run(table, c, a + b) == Run(table, Run(table, c, a), b)
    decreases |a|
  {
    if a == [] {
      assert a + b == b;
    } else {
      assert (a + b)[1..] == a[1..] + b;
      RunConcat(table, Step(table, c, a[0]), a[1..], b);
    }
  }

  lemma PrintNonempty(cmd: Command)
    ensures |Print(cmd)| > 3
  {
  }

  lemma RunLast(table: Table, past: seq<Command>, cmd: Command)
    ensures PrintAll(past + [cmd]) == PrintAll(past) + Print(cmd)
    ensures Run(table, FRESH, past + [cmd]) == Step(table, Run(table, FRESH, past), cmd)
    ensures BeforeMulti(table, past + [cmd])
         == if table(cmd).Multi? then |PrintAll(past)| else BeforeMulti(table, past)
  {
    hide Print, Step;
    assert [cmd][1..] == [];
    assert Print(cmd) + [] == Print(cmd);
    PrintAllConcat(past, [cmd]);
    RunConcat(table, FRESH, past, [cmd]);
    assert (past + [cmd])[..|past|] == past;
  }

  /** The loader's position after `past`, with n more bytes of the file to read. */
  ghost function Resume(table: Table, past: seq<Command>, rest: seq<byte>): Loaded {
    var before := |PrintAll(past)|;
    LoadFrom(table, before + |rest|, rest, Run(table, FRESH, past), before, BeforeMulti(table, past), true)
  }

  /** A whole command moves the loader past it. */
  lemma ResumeWhole(table: Table, past: seq<Command>, cmd: Command, t: seq<byte>)
    requires Printable(cmd) && !table(cmd).Unknown?
    ensures Resume(table, past, Print(cmd) + t) == Resume(table, past + [cmd], t)
  {
    hide Print, Step, ReadCommand, PrintAll, Run, BeforeMulti;
    CommandRead(cmd, t);
    RunLast(table, past, cmd);
  }

  lemma ResumeEnd(table: Table, past: seq<Command>)
    ensures Resume(table, past, []) == CutResult(table, past, |PrintAll(past)|)
  {
    hide PrintAll, Run, BeforeMulti;
  }

  lemma ResumePartial(table: Table, past: seq<Command>, cmd: Command, k: nat)
    requires Printable(cmd) && 0 < k < |Print(cmd)|
    ensures Resume(table, past, Print(cmd)[..k]) == CutResult(table, past, |PrintAll(past)| + k)
  {
    hide Print, ReadCommand, PrintAll, Run, BeforeMulti;
    CommandCut(cmd, k);
  }

  lemma {:induction false} CutFrom(table: Table, past: seq<Command>, cmds: seq<Command>, n: nat)
    requires Known(table, cmds) && n <= |PrintAll(cmds)|
    ensures Resume(table, past, PrintAll(cmds)[..n])
         == CutResult(table, past + cmds[..WholeCommands(cmds, n)], |PrintAll(past)| + n)
    decreases |cmds|
  {
    hide Print, Resume, CutResult, Printable;
    var s := PrintAll(cmds)[..n];
    var j := WholeCommands(cmds, n);
    if n == 0 {
      if cmds != [] { PrintNonempty(cmds[0]); }
      assert past + cmds[..j] == past;
      ResumeEnd(table, past);
    } else {
      var cmd, k := cmds[0], |Print(cmds[0])|;
      if n < k {
        assert s == Print(cmd)[..n];
        ResumePartial(table, past, cmd, n);
        assert past + cmds[..j] == past;
      } else {
        assert s == Print(cmd) + PrintAll(cmds[1..])[..n - k];
        ResumeWhole(table, past, cmd, PrintAll(cmds[1..])[..n - k]);
        CutFrom(table, past + [cmd], cmds[1..], n - k);
        RunLast(table, past, cmd);
        assert past + [cmd] + cmds[1..][..j - 1] == past + cmds[..j];
      }
    }
  }

  /**
   Cut at any byte, an annotation-free log is never refused: exactly the commands that are
   whole are loaded, and the file is cut where CutResult says.
   */
  lemma CutLog(table: Table, cmds: seq<Command>, n: nat)
    requires Known(table, cmds) && n <= |PrintAll(cmds)|
    ensures LoadFrom(table, n, PrintAll(cmds)[..n], FRESH, 0, 0, true)
         == CutResult(table, cmds[..WholeCommands(cmds, n)], n)
  {
    hide Print, LoadFrom, CutResult, WholeCommands, Printable;
    CutFrom(table, [], cmds, n);
    assert PrintAll([]) == [] && Run(table, FRESH, []) == FRESH && BeforeMulti(table, []) == 0;
    assert [] + cmds[..WholeCommands(cmds, n)] == cmds[..WholeCommands(cmds, n)];
  }

  /** WholeCommands is the longest prefix of commands that fits. */
  lemma {:induction false} WholeCommandsLongest(cmds: seq<Command>, n: nat, k: nat)
    requires k <= |cmds|
    ensures k <= WholeCommands(cmds, n) <==> |PrintAll(cmds[..k])| <= n
    decreases |cmds|
  {
    hide Print;
    if k == 0 {
    } else if n < |Print(cmds[0])| {
      assert cmds[..k][0] == cmds[0];
    } else {
      WholeCommandsLongest(cmds[1..], n - |Print(cmds[0])|, k - 1);
      assert cmds[..k][1..] == cmds[1..][..k - 1];
    }
  }

  // ---------------------------------------------------------------- transactions

  /** Length of the longest prefix that leaves no MULTI open. */
  function Closed(table: Table, cmds: seq<Command>): (u: nat)
    ensures u <= |cmds|
  {
    if cmds == [] || !Run(table, FRESH, cmds).multi then |cmds|
    else Closed(table, cmds[..|cmds| - 1])
  }

  /** MULTI never appears inside a transaction, as the propagation code guarantees. */
  ghost predicate NoNesting(table: Table, cmds: seq<Command>) {
    forall i :: 0 <= i < |cmds| && table(cmds[i]).Multi? ==> !Run(table, FRESH, cmds[..i]).multi
  }

  /** Commands queued behind an open MULTI have no effect: what ran is the closed prefix. */
  lemma {:induction false} OnlyUnitsRun(table: Table, cmds: seq<Command>)
    ensures var u := Closed(table, cmds);
            && !Run(table, FRESH, cmds[..u]).multi
            && Run(table, FRESH, cmds).data == Run(table, FRESH, cmds[..u]).data
            && (forall k :: u < k <= |cmds| ==> Run(table, FRESH, cmds[..k]).multi)
  {
    var u := Closed(table, cmds);
    if cmds == [] || !Run(table, FRESH, cmds).multi {
      assert cmds[..u] == cmds;
    } else {
      var most := cmds[..|cmds| - 1];
      OnlyUnitsRun(table, most);
      assert most + [cmds[|cmds| - 1]] == cmds;
      RunLast(table, most, cmds[|cmds| - 1]);
      assert forall k :: 0 <= k < |cmds| ==> most[..k] == cmds[..k];
      assert cmds[..|cmds|] == cmds;
    }
  }

  /** Without nesting, the offset remembered at MULTI is the end of the last whole unit. */
  lemma {:induction false} MultiStartsUnit(table: Table, cmds: seq<Command>)
    requires NoNesting(table, cmds) && Run(table, FRESH, cmds).multi
    ensures BeforeMulti(table, cmds) == |PrintAll(cmds[..Closed(table, cmds)])|
  {
    var last, most := cmds[|cmds| - 1], cmds[..|cmds| - 1];
    assert most + [last] == cmds;
    RunLast(table, most, last);
    if Run(table, FRESH, most).multi {
      assert forall i :: 0 <= i < |most| ==> most[..i] == cmds[..i];
      MultiStartsUnit(table, most);
      assert most[..Closed(table, most)] == cmds[..Closed(table, cmds)];
    } else {
      assert cmds[..Closed(table, cmds)] == most;
    }
  }

  lemma {:induction false} PrintAllGrows(cmds: seq<Command>, i: nat, j: nat)
    requires i < j <= |cmds|
    ensures |PrintAll(cmds[..i])| < |PrintAll(cmds[..j])|
  {
    hide Print;
    PrintAllConcat(cmds[..i], cmds[i..j]);
    assert cmds[..i] + cmds[i..j] == cmds[..j];
    PrintNonempty(cmds[i]);
    assert cmds[i..j][0] == cmds[i];
  }

  /**
   The file is kept up to the last whole unit exactly when no partial command follows an
   open MULTI; in that one case the unfinished transaction stays in the file.
   */
  lemma KeepsUnits(table: Table, cmds: seq<Command>, n: nat)
    requires Known(table, cmds) && NoNesting(table, cmds) && n <= |PrintAll(cmds)|
    ensures var whole := cmds[..WholeCommands(cmds, n)];
            var units := whole[..Closed(table, whole)];
            var r := LoadFrom(table, n, PrintAll(cmds)[..n], FRESH, 0, 0, true);
            && r.client.data == Run(table, FRESH, units).data
            && (r.keep == |PrintAll(units)|
                <==> !(Run(table, FRESH, whole).multi && n != |PrintAll(whole)|))
  {
    hide Print, PrintAll, Run, LoadFrom;
    var whole := cmds[..WholeCommands(cmds, n)];
    CutLog(table, cmds, n);
    OnlyUnitsRun(table, whole);
    assert forall i :: 0 <= i < |whole| ==> whole[..i] == cmds[..i];
    if Run(table, FRESH, whole).multi {
      MultiStartsUnit(table, whole);
      PrintAllGrows(whole, Closed(table, whole), |whole|);
      assert whole[..|whole|] == whole;
    } else {
      assert whole[..Closed(table, whole)] == whole;
    }
  }

  /** Commands appended behind an open MULTI are lost: without EXEC a reload runs none of them. */
  lemma {:induction false} AppendedBehindMulti(table: Table, kept: seq<Command>, more: seq<Command>)
    requires Run(table, FRESH, kept).multi
    requires forall i :: 0 <= i < |more| ==> !table(more[i]).Exec?
    ensures Run(table, FRESH, kept + more).data == Run(table, FRESH, kept).data
    ensures Run(table, FRESH, kept + more).multi
    decreases |more|
  {
    if more == [] {
      assert kept + more == kept;
    } else {
      RunLast(table, kept, more[0]);
      AppendedBehindMulti(table, kept + [more[0]], more[1..]);
      assert kept + more == kept + [more[0]] + more[1..];
    }
  }

  /** Smallest case: MULTI and one command, cut inside the command, keeps the lone MULTI. */
  lemma PartialBehindMulti(table: Table, multi: Command, cmd: Command)
    requires Printable(multi) && Printable(cmd) && table(multi).Multi? && table(cmd).Other?
    ensures var log := [multi, cmd];
            var n := |PrintAll(log)| - 1;
            LoadFrom(table, n, PrintAll(log)[..n], FRESH, 0, 0, true)
            == Loaded(AofTruncated, FRESH.(multi := true), |Print(multi)|)
  {
    hide Print, Printable, LoadFrom;
    var log := [multi, cmd];
    var n := |PrintAll(log)| - 1;
    PrintNonempty(cmd);
    assert log[1..] == [cmd] && [cmd][1..] == [];
    assert PrintAll([cmd]) == Print(cmd) + [] == Print(cmd);
    assert |PrintAll(log)| == |Print(multi)| + |Print(cmd)|;
    assert WholeCommands([cmd], n - |Print(multi)|) == 0;
    assert WholeCommands(log, n) == 1;
    assert log[..1] == [multi] && [multi][1..] == [];
    assert PrintAll([multi]) == Print(multi) + [] == Print(multi);
    assert Run(table, FRESH, [multi]) == Run(table, Step(table, FRESH, multi), []);
    CutLog(table, log, n);
  }

  // ---------------------------------------------------------------- feeding and reloading

  /** A propagated command; dictid -1 suppresses the SELECT. */
  datatype Item = Item(dictid: int, cmd: Command)

  const SELECT_WORD: Arg := [83, 69, 76, 69, 67, 84]

  function SelectCommand(db: nat): Command { [SELECT_WORD, Decimal(db)] }

  predicate NeedsSelect(selected: int, it: Item) { it.dictid != -1 && it.dictid != selected }

  function NextSelected(selected: int, it: Item): int {
    if it.dictid == -1 then selected else it.dictid
  }

  /** The commands feedAppendOnlyFile writes for one propagated command. */
  function FedOne(selected: int, it: Item): seq<Command>
    requires it.dictid >= -1
  {
    if NeedsSelect(selected, it) then [SelectCommand(it.dictid), it.cmd] else [it.cmd]
  }

  ghost predicate FeedableItem(table: Table, it: Item) {
    && -1 <= it.dictid < 0x8000_0000
    && Printable(it.cmd)
    && !table(it.cmd).Unknown? && !table(it.cmd).Select?
  }

  ghost predicate Feedable(table: Table, items: seq<Item>) {
    forall i :: 0 <= i < |items| ==> FeedableItem(table, items[i])
  }

  function Fed(selected: int, items: seq<Item>): seq<Command>
    requires forall i :: 0 <= i < |items| ==> items[i].dictid >= -1
    decreases |items|
  {
    if items == [] then []
    else FedOne(selected, items[0]) + Fed(NextSelected(selected, items[0]), items[1..])
  }

  /** What the propagated commands mean: each one in its own database, in order. */
  function Meaning(table: Table, d: Data, items: seq<Item>): Data
    requires forall i :: 0 <= i < |items| ==> items[i].dictid >= -1
    decreases |items|
  {
    if items == [] then d
    else
      var it := items[0];
      var there := if it.dictid == -1 then d else d.(db := it.dictid);
      Meaning(table, Execute(table, there, it.cmd), items[1..])
  }

  ghost predicate SelectsKnown(table: Table) {
    forall db: nat :: table(SelectCommand(db)) == Select(db)
  }

  /** The client as if its queue ran now. */
  function View(table: Table, c: Client): Data { ExecuteAll(table, c.data, c.queue) }

  ghost predicate QueueOnlyInMulti(c: Client) { c.multi || c.queue == [] }

  lemma ViewStep(table: Table, c: Client, cmd: Command)
    requires QueueOnlyInMulti(c)
    ensures QueueOnlyInMulti(Step(table, c, cmd))
    ensures View(table, Step(table, c, cmd)) == Execute(table, View(table, c), cmd)
  {
    assert (c.queue + [cmd])[..|c.queue|] == c.queue;
  }

  lemma {:induction false} RunMeans(table: Table, c: Client, selected: int, items: seq<Item>)
    requires QueueOnlyInMulti(c) && Feedable(table, items) && SelectsKnown(table)
    requires selected == -1 || selected == View(table, c).db
    ensures QueueOnlyInMulti(Run(table, c, Fed(selected, items)))
    ensures View(table, Run(table, c, Fed(selected, items))) == Meaning(table, View(table, c), items)
    decreases |items|
  {
    hide View, Step, Printable, SelectCommand;
    if items != [] {
      var it := items[0];
      var one := FedOne(selected, it);
      RunConcat(table, c, one, Fed(NextSelected(selected, it), items[1..]));
      if NeedsSelect(selected, it) {
        var c1 := Step(table, c, one[0]);
        ViewStep(table, c, one[0]);
        ViewStep(table, c1, it.cmd);
        assert one[1..] == [it.cmd] && [it.cmd][1..] == [];
        assert Run(table, c, one) == Run(table, c1, [it.cmd]) == Step(table, c1, it.cmd);
        assert table(one[0]) == Select(it.dictid);
        RunMeans(table, Step(table, c1, it.cmd), NextSelected(selected, it), items[1..]);
      } else {
        ViewStep(table, c, it.cmd);
        assert one[1..] == [];
        assert Run(table, c, one) == Step(table, c, it.cmd);
        RunMeans(table, Step(table, c, it.cmd), NextSelected(selected, it), items[1..]);
      }
    }
  }

  lemma SelectPrintable(db: nat)
    requires db < 0x8000_0000
    ensures Printable(SelectCommand(db))
  {
    assert Pow10(5) == 100000;
    assert Pow10(10) == 10000000000;
    DecimalLength(db, 10);
  }

  lemma {:induction false} FedKnown(table: Table, selected: int, items: seq<Item>)
    requires Feedable(table, items) && SelectsKnown(table)
    ensures Known(table, Fed(selected, items))
    decreases |items|
  {
    hide Printable, SelectCommand;
    if items != [] {
      var it := items[0];
      if NeedsSelect(selected, it) { SelectPrintable(it.dictid); }
      FedKnown(table, NextSelected(selected, it), items[1..]);
    }
  }

  lemma {:induction false} WholeLog(cmds: seq<Command>)
    ensures WholeCommands(cmds, |PrintAll(cmds)|) == |cmds|
  {
    hide Print;
    if cmds != [] { WholeLog(cmds[1..]); }
  }

  /**
   Loading what the feeder wrote, from a fresh selection, runs every propagated command in
   its own database and in order, unless the log ends inside a transaction.
   */
  lemma FeedThenLoad(table: Table, items: seq<Item>)
    requires Feedable(table, items) && SelectsKnown(table)
    requires !Run(table, FRESH, Fed(-1, items)).multi
    ensures var text := PrintAll(Fed(-1, items));
            var r := LoadFrom(table, |text|, text, FRESH, 0, 0, true);
            r.status == AofOk && r.client.data == Meaning(table, FRESH.data, items)
  {
    hide PrintAll, LoadFrom, Run, Fed, Meaning;
    var cmds := Fed(-1, items);
    FedKnown(table, -1, items);
    WholeLog(cmds);
    CutLog(table, cmds, |PrintAll(cmds)|);
    assert PrintAll(cmds)[..|PrintAll(cmds)|] == PrintAll(cmds) && cmds[..|cmds|] == cmds;
    RunMeans(table, FRESH, -1, items);
  }

  lemma FedText(selected: int, it: Item)
    requires it.dictid >= -1
    ensures PrintAll(FedOne(selected, it))
         == (if NeedsSelect(selected, it) then Print(SelectCommand(it.dictid)) else []) + Print(it.cmd)
  {
    hide Print;
    var one := FedOne(selected, it);
    assert [it.cmd][1..] == [] && PrintAll([it.cmd]) == Print(it.cmd) + [];
    if NeedsSelect(selected, it) {
      assert one[1..] == [it.cmd];
    }
  }

  lemma FedFirst(selected: int, items: seq<Item>)
    requires items != [] && forall i :: 0 <= i < |items| ==> items[i].dictid >= -1
    ensures PrintAll(Fed(selected, items)) ==
            PrintAll(FedOne(selected, items[0])) + PrintAll(Fed(NextSelected(selected, items[0]), items[1..]))
  {
    hide PrintAll;
    PrintAllConcat(FedOne(selected, items[0]), Fed(NextSelected(selected, items[0]), items[1..]));
  }

  lemma NoneFed(selected: int)
    ensures PrintAll(Fed(selected, [])) == []
  {
  }

  /** feedAppendOnlyFile with the AOF on and timestamps off: aof_selected_db and aof_buf. */
  class Feeder {
    var selected: int
    var buf: seq<byte>

    constructor ()
      ensures selected == -1 && buf == []
    {
      selected, buf := -1, [];
    }

    method Feed(dictid: int, argv: Command)
      requires dictid >= -1
      modifies this
      ensures buf == old(buf) + PrintAll(FedOne(old(selected), Item(dictid, argv)))
      ensures selected == NextSelected(old(selected), Item(dictid, argv))
    {
      hide Print, PrintAll, FedOne, Decimal;
      var text: seq<byte> := [];
      if dictid != -1 && dictid != selected {
        var select := Cat([SELECT_WORD, Decimal(dictid)]);
        text := text + select;
        selected := dictid;
      }
      var own := Cat(argv);
      text := text + own;
      buf := buf + text;
      FedText(old(selected), Item(dictid, argv));
    }

    /** A run of propagated commands leaves in the buffer the text of what is fed. */
    method FeedAll(items: seq<Item>)
      requires forall i :: 0 <= i < |items| ==> items[i].dictid >= -1
      modifies this
      ensures buf == old(buf) + PrintAll(Fed(old(selected), items))
    {
      hide PrintAll, FedOne;
      assert items[0..] == items;
      for j := 0 to |items|
        invariant buf + PrintAll(Fed(selected, items[j..])) == old(buf) + PrintAll(Fed(old(selected), items))
      {
        FedFirst(selected, items[j..]);
        assert items[j..][0] == items[j] && items[j..][1..] == items[j + 1..];
        Feed(items[j].dictid, items[j].cmd);
      }
      assert items[|items|..] == [];
      NoneFed(selected);
    }
  }

  /** catAppendOnlyGenericCommand, argument by argument. */
  method Cat(argv: Command) returns (dst: seq<byte>)
    ensures dst == Print(argv)
  {
    hide PrintArg, Header;
    dst := Header(STAR, |argv|);
    for j := 0 to |argv|
      invariant dst + PrintArgs(argv[j..]) == Print(argv)
    {
      dst := dst + PrintArg(argv[j]);
      assert argv[j..][0] == argv[j] && argv[j..][1..] == argv[j + 1..];
    }
    assert argv[|argv|..] == [];
  }

  // ---------------------------------------------------------------- loadSingleAppendOnlyFile

  /** The inner loop: argc arguments from offset pos. */
  method LoadArgs(file: seq<byte>, start: nat, argc: nat) returns (r: ArgReading)
    requires start <= |file|
    ensures r == ReadArgs(argc, file[start..])
  {
    hide ReadArg;
    var pos, argv := start, [];
    for j := 0 to argc
      invariant 0 <= pos <= |file| && |argv| == j
      invariant ReadArgs(argc, file[start..]) == Prepend(argv, ReadArgs(argc - j, file[pos..]))
    {
      var one := ReadArg(file[pos..]);
      if !one.ArgsDone? {
        return one;
      }
      ReadArgSuffix(file[pos..]);
      argv := argv + one.args;
      pos := |file| - |one.rest|;
      assert one.rest == file[pos..];
    }
    r := ArgsDone(argv, file[pos..]);
  }

  function Prepend(args: seq<Arg>, r: ArgReading): ArgReading {
    if r.ArgsDone? then ArgsDone(args + r.args, r.rest) else r
  }

  /** Reading leaves a suffix of what was there. */
  lemma ReadArgSuffix(s: seq<byte>)
    ensures var r := ReadArg(s); r.ArgsDone? ==> r.rest == s[|s| - |r.rest|..]
  {
  }

  lemma {:induction false} ReadArgsSuffix(n: nat, s: seq<byte>)
    ensures var r := ReadArgs(n, s); r.ArgsDone? ==> r.rest == s[|s| - |r.rest|..]
  {
    hide ReadArg;
    if n > 0 {
      ReadArgSuffix(s);
      if ReadArg(s).ArgsDone? { ReadArgsSuffix(n - 1, ReadArg(s).rest); }
    }
  }

  /** loadSingleAppendOnlyFile on a non-empty file that is not RDB. */
  method Load(table: Table, file: seq<byte>, start: Client, allowTruncated: bool) returns (r: Loaded)
    ensures r == LoadFrom(table, |file|, file, start, 0, 0, allowTruncated)
  {
    hide ReadArgs, Step, ParseInt, LineOf, AfterLine, HitsEnd;
    var pos, client, validUpTo, beforeMulti := 0, start, 0, 0;
    assert file[0..] == file;
    while true
      invariant 0 <= pos <= |file|
      invariant LoadFrom(table, |file|, file[pos..], client, validUpTo, beforeMulti, allowTruncated)
             == LoadFrom(table, |file|, file, start, 0, 0, allowTruncated)
      decreases |file| - pos
    {
      var s := file[pos..];
      if s == [] {
        if client.multi { return Unexpected(client, beforeMulti, allowTruncated); }
        return Loaded(AofOk, client, |file|);
      }
      var line := LineOf(s);
      LineSplit(s);
      var after := pos + |line|;
      assert AfterLine(s) == file[after..];
      if line[0] == HASH {
        pos := after;
        continue;
      }
      if line[0] != STAR { return Loaded(AofFailed, client, |file|); }
      if |line| == 1 || line[1] == 0 {
        if HitsEnd(s) { return Unexpected(client, validUpTo, allowTruncated); }
        return Loaded(AofFailed, client, |file|);
      }
      var argc := ParseInt(line[1..]);
      if argc < 1 { return Loaded(AofFailed, client, |file|); }
      var args := LoadArgs(file, after, argc);
      ReadArgsSuffix(argc, file[after..]);
      if args.ArgsShort? { return Unexpected(client, validUpTo, allowTruncated); }
      if args.ArgsBad? { return Loaded(AofFailed, client, |file|); }
      var cmd := args.args;
      if table(cmd).Unknown? { return Loaded(AofFailed, client, |file|); }
      if table(cmd).Multi? { beforeMulti := validUpTo; }
      client := Step(table, client, cmd);
      pos := |file| - |args.rest|;
      assert args.rest == file[pos..];
      if allowTruncated { validUpTo := pos; }
    }
  }

  lemma LineSplit(s: seq<byte>)
    requires s != []
    ensures 0 < |LineOf(s)| <= |s| && AfterLine(s) == s[|LineOf(s)|..]
  {
  }

  /** The buffer of a fresh feeder, loaded, gives each command's effect in its own database. */
  method FeedAndLoad(table: Table, items: seq<Item>) returns (r: Loaded)
    requires Feedable(table, items) && SelectsKnown(table)
    requires !Run(table, FRESH, Fed(-1, items)).multi
    ensures r.status == AofOk && r.client.data == Meaning(table, FRESH.data, items)
  {
    hide LoadFrom, Run, Fed, Meaning, PrintAll;
    var feeder := new Feeder();
    feeder.FeedAll(items);
    FeedThenLoad(table, items);
    assert feeder.buf == PrintAll(Fed(-1, items));
    r := Load(table, feeder.buf, FRESH, true);
  }
}
