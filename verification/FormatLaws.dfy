/** The text of the append-only file, byte by byte, and what the loader refuses. */
module FormatLaws {

  import opened AofFormat

  // ---------------------------------------------------------------- the text

  /** Where argument i starts in the text of a command. */
  function StartOf(cmd: Command, i: nat): nat
    requires i < |cmd|
  {
    |Header(STAR, |cmd|)| + |PrintArgs(cmd[..i])| + |Header(DOLLAR, |cmd[i]|)|
  }

  lemma {:induction false} PrintArgsSplit(args: seq<Arg>, i: nat)
    requires i < |args|
    ensures PrintArgs(args) == PrintArgs(args[..i]) + PrintArg(args[i]) + PrintArgs(args[i + 1..])
  {
    hide PrintArg;
    if i == 0 {
      assert args[..0] == [];
    } else {
      PrintArgsSplit(args[1..], i - 1);
      assert args[..i][1..] == args[1..][..i - 1] && args[1..][i..] == args[i + 1..] && args[..i][0] == args[0];
    }
  }

  /** Every argument stands in the text behind a dollar, its length, CR and LF, and in front of CR and LF. */
  lemma ArgumentText(cmd: Command, i: nat)
    requires i < |cmd|
    ensures var (text, p, n, d) := (Print(cmd), StartOf(cmd, i), |cmd[i]|, Decimal(|cmd[i]|));
            && |d| + 3 <= p && p + n + 2 <= |text|
            && text[p..p + n] == cmd[i] && text[p + n..p + n + 2] == [13, 10]
            && text[p - 2..p] == [13, 10] && text[p - 2 - |d|..p - 2] == d && text[p - 3 - |d|] == 36
  {
    hide PrintArgs, Decimal, PrintArg, Header, Print;
    var before := Header(STAR, |cmd|) + PrintArgs(cmd[..i]);
    ArgumentIs(cmd[i]);
    PrintSplit(cmd, i);
    Layout(before, Decimal(|cmd[i]|), cmd[i], PrintArgs(cmd[i + 1..]), Print(cmd));
  }

  lemma ArgumentIs(a: Arg)
    ensures PrintArg(a) == [36] + Decimal(|a|) + [13, 10] + a + [13, 10]
    ensures |Header(DOLLAR, |a|)| == |Decimal(|a|)| + 3
  {
    hide Decimal;
  }

  lemma PrintSplit(cmd: Command, i: nat)
    requires i < |cmd|
    ensures Print(cmd) == (Header(STAR, |cmd|) + PrintArgs(cmd[..i])) + PrintArg(cmd[i]) + PrintArgs(cmd[i + 1..])
  {
    PrintArgsSplit(cmd, i);
    hide PrintArgs, PrintArg, Header;
  }

  lemma Layout(before: seq<byte>, d: seq<byte>, a: seq<byte>, after: seq<byte>, text: seq<byte>)
    requires text == before + ([36] + d + [13, 10] + a + [13, 10]) + after
    ensures var p := |before| + |d| + 3;
            && p + |a| + 2 <= |text|
            && text[p..p + |a|] == a && text[p + |a|..p + |a| + 2] == [13, 10]
            && text[p - 2..p] == [13, 10] && text[p - 2 - |d|..p - 2] == d && text[p - 3 - |d|] == 36
  {
  }

  /** The text starts with an asterisk, the number of arguments, CR and LF. */
  lemma CommandText(cmd: Command)
    ensures var d := Decimal(|cmd|);
            |d| + 3 <= |Print(cmd)| && Print(cmd)[..|d| + 3] == [42] + d + [13, 10]
  {
    hide Decimal, PrintArgs;
  }

  /** Numbers are written in decimal digits. */
  lemma DecimalText(n: nat)
    ensures n < 10 ==> Decimal(n) == [(48 + n) as byte]
    ensures n >= 10 ==> Decimal(n) == Decimal(n / 10) + [(48 + n % 10) as byte]
  {
  }

  /** GET k. */
  lemma GetText()
    ensures Print([[71, 69, 84], [107]]) ==
            [42, 50, 13, 10, 36, 51, 13, 10, 71, 69, 84, 13, 10, 36, 49, 13, 10, 107, 13, 10]
  {
    var cmd: Command := [[71, 69, 84], [107]];
    assert Decimal(2) == [50] && Decimal(3) == [51] && Decimal(1) == [49];
    assert cmd[1..] == [[107]] && cmd[1..][1..] == [];
    assert PrintArgs([]) == [];
    assert PrintArgs(cmd[1..]) == PrintArg([107]) + [];
  }

  // ---------------------------------------------------------------- what is refused

  /** A file whose next byte starts neither a command nor an annotation is refused, whatever was loaded. */
  lemma OtherBytesRefused(table: Table, total: nat, s: seq<byte>, c: Client, validUpTo: nat, beforeMulti: nat,
                          allowTruncated: bool)
    requires s != [] && |s| <= total && s[0] != 35 && s[0] != 42
    ensures LoadFrom(table, total, s, c, validUpTo, beforeMulti, allowTruncated) == Loaded(AofFailed, c, total)
  {
    FirstOfLine(s);
    hide LineOf, AfterLine, ReadArgs;
  }

  lemma FirstOfLine(s: seq<byte>)
    requires s != []
    ensures LineOf(s) != [] && LineOf(s)[0] == s[0]
  {
  }

  /** A command that the table does not know is refused, and nothing behind it is loaded. */
  lemma UnknownRefused(table: Table, total: nat, cmd: Command, rest: seq<byte>, c: Client, validUpTo: nat,
                       beforeMulti: nat, allowTruncated: bool)
    requires Printable(cmd) && table(cmd).Unknown? && |Print(cmd) + rest| <= total
    ensures LoadFrom(table, total, Print(cmd) + rest, c, validUpTo, beforeMulti, allowTruncated)
         == Loaded(AofFailed, c, total)
  {
    hide Print, Printable, ReadCommand;
    CommandRead(cmd, rest);
  }

  /** An annotation is a line that starts with a hash sign; it changes nothing. */
  lemma AnnotationSkipped(table: Table, total: nat, note: seq<byte>, rest: seq<byte>, c: Client, validUpTo: nat,
                          beforeMulti: nat, allowTruncated: bool)
    requires LF !in note && |note| < LINE_MAX - 2 && |[35] + note + [LF] + rest| <= total
    ensures LoadFrom(table, total, [35] + note + [LF] + rest, c, validUpTo, beforeMulti, allowTruncated)
         == LoadFrom(table, total, rest, c, validUpTo, beforeMulti, allowTruncated)
  {
    var s, h := [35] + note + [LF] + rest, [35] + note;
    LineWhole(h, rest, LINE_MAX - 1);
    assert s == h + [LF] + rest;
    assert LineOf(s) == h + [LF] && AfterLine(s) == rest;
    hide LineOf, AfterLine, ReadArgs;
    assert ReadCommand(s) == Annotation(rest);
  }

  /** The loader keeps its answer but for the status: a log that is to be truncated is refused without the setting. */
  lemma {:induction false} StrictLoad(table: Table, total: nat, s: seq<byte>, c: Client,
                                      v: nat, b: nat, v': nat, b': nat)
    requires |s| <= total
    ensures var strict := LoadFrom(table, total, s, c, v, b, false);
            var lenient := LoadFrom(table, total, s, c, v', b', true);
            && strict.client == lenient.client && strict.status != AofTruncated
            && (strict.status == AofOk <==> lenient.status == AofOk)
    decreases |s|
  {
    hide ReadCommand, Step;
    match ReadCommand(s)
    case Annotation(t) => StrictLoad(table, total, t, c, v, b, v', b');
    case Complete(cmd, t) =>
      if !table(cmd).Unknown? {
        StrictLoad(table, total, t, Step(table, c, cmd), v, if table(cmd).Multi? then v else b,
                   total - |t|, if table(cmd).Multi? then v' else b');
      }
    case _ =>
  }

  // ---------------------------------------------------------------- transactions

  lemma {:induction false} QueuedRun(table: Table, d: Data, queue: seq<Command>, cmds: seq<Command>)
    requires forall i :: 0 <= i < |cmds| ==> !table(cmds[i]).Exec?
    ensures Run(table, Client(d, true, queue), cmds) == Client(d, true, queue + cmds)
    decreases |cmds|
  {
    if cmds == [] {
      assert queue + cmds == queue;
    } else {
      QueuedRun(table, d, queue + [cmds[0]], cmds[1..]);
      assert queue + [cmds[0]] + cmds[1..] == queue + cmds;
    }
  }

  /** MULTI, commands and EXEC: the commands run one after the other, as if they stood alone. */
  lemma TransactionRuns(table: Table, d: Data, multi: Command, cmds: seq<Command>, exec: Command)
    requires table(multi).Multi? && table(exec).Exec?
    requires forall i :: 0 <= i < |cmds| ==> table(cmds[i]).Other? || table(cmds[i]).Select?
    ensures Run(table, Client(d, false, []), [multi] + cmds + [exec]) == Run(table, Client(d, false, []), cmds)
  {
    hide Run, ExecuteAll;
    var c := Client(d, false, []);
    RunConcat(table, c, [multi] + cmds, [exec]);
    RunConcat(table, c, [multi], cmds);
    RunOne(table, c, multi);
    QueuedRun(table, d, [], cmds);
    assert [] + cmds == cmds;
    RunOne(table, Client(d, true, cmds), exec);
    RunAlone(table, d, cmds);
  }

  lemma RunOne(table: Table, c: Client, cmd: Command)
    ensures Run(table, c, [cmd]) == Step(table, c, cmd)
  {
    assert [cmd][1..] == [];
  }

  lemma {:induction false} RunAlone(table: Table, d: Data, cmds: seq<Command>)
    requires forall i :: 0 <= i < |cmds| ==> table(cmds[i]).Other? || table(cmds[i]).Select?
    ensures Run(table, Client(d, false, []), cmds) == Client(ExecuteAll(table, d, cmds), false, [])
  {
    if cmds != [] {
      var most, last := cmds[..|cmds| - 1], cmds[|cmds| - 1];
      RunAlone(table, d, most);
      RunConcat(table, Client(d, false, []), most, [last]);
      assert most + [last] == cmds;
      RunOne(table, Client(ExecuteAll(table, d, most), false, []), last);
    }
  }

  /** A command runs in the database that the last SELECT before it named. */
  lemma SelectThenRun(table: Table, d: Data, select: Command, cmd: Command, db: nat)
    requires table(select) == Select(db) && table(cmd).Other?
    ensures Run(table, Client(d, false, []), [select, cmd]) == Client(Data(db, d.done + [(db, cmd)]), false, [])
  {
    var c := Client(d, false, []);
    RunConcat(table, c, [select], [cmd]);
    assert [select] + [cmd] == [select, cmd];
    RunOne(table, c, select);
    RunOne(table, Client(Data(db, d.done), false, []), cmd);
  }
}
