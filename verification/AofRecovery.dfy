/**
 loadAppendOnlyFiles: the BASE and INCR files of a manifest, loaded one after the other. What a run of
 propagated commands and rewrites left in them gives every command in its own database, and a crash in
 the middle of a write costs only the command that was torn.
 */
module AofRecovery {

  import opened AofFormat
  import AofFlush
  import AofRewrite
  import opened Options

  type Done = seq<(nat, Command)>

  /** The status of loading all files, and the commands that ran, each with its database. */
  datatype Result = Result(status: Status, done: Done)

  // ---------------------------------------------------------------- loading several files

  /** Every file is loaded by a new fake client on the dataset so far. */
  function Starting(done: Done): Client { Client(Data(0, done), false, []) }

  function LoadFile(table: Table, text: seq<byte>, done: Done, allowTruncated: bool): Loaded {
    LoadFrom(table, |text|, text, Starting(done), 0, 0, allowTruncated)
  }

  /** Only the last file may be truncated. */
  function LoadFiles(table: Table, texts: seq<seq<byte>>, done: Done, allowTruncated: bool): Result
    decreases |texts|
  {
    if texts == [] then Result(AofOk, done)
    else
      var r := LoadFile(table, texts[0], done, allowTruncated);
      if |texts| == 1 then Result(r.status, r.client.data.done)
      else if r.status != AofOk then Result(AofFailed, r.client.data.done)
      else LoadFiles(table, texts[1..], r.client.data.done, allowTruncated)
  }

  /** loadAppendOnlyFiles, with at least one file: the BASE, then every INCR. */
  method LoadAppendOnlyFiles(table: Table, base: Option<seq<byte>>, incr: seq<seq<byte>>, allowTruncated: bool)
    returns (result: Result)
    requires base.Some? || incr != []
    ensures result == LoadFiles(table, (if base.Some? then [base.value] else []) + incr, [], allowTruncated)
  {
    hide LoadFrom;
    var total, number, done := |incr| + (if base.Some? then 1 else 0), 0, [];
    ghost var texts := (if base.Some? then [base.value] else []) + incr;
    var status := AofOk;
    if base.Some? {
      number := number + 1;
      var r := Load(table, base.value, Starting(done), allowTruncated);
      assert texts[0] == base.value && texts[1..] == incr;
      status, done := r.status, r.client.data.done;
      if status == AofTruncated && number != total { status := AofFailed; }
      if status == AofFailed { return Result(status, done); }
    } else {
      assert texts == incr;
    }
    assert incr[0..] == incr;
    for i := 0 to |incr|
      invariant number == i + total - |incr| && (i < |incr| ==> status == AofOk)
      invariant LoadFiles(table, texts, [], allowTruncated)
             == if i < |incr| then LoadFiles(table, incr[i..], done, allowTruncated) else Result(status, done)
    {
      number := number + 1;
      var r := Load(table, incr[i], Starting(done), allowTruncated);
      assert incr[i..][0] == incr[i] && incr[i..][1..] == incr[i + 1..];
      status, done := r.status, r.client.data.done;
      if status == AofTruncated && number != total { status := AofFailed; }
      if status == AofFailed { return Result(status, done); }
    }
    result := Result(status, done);
  }

  // ---------------------------------------------------------------- on top of a dataset

  function Behind(done: Done, c: Client): Client { c.(data := c.data.(done := done + c.data.done)) }

  lemma ExecuteBehind(table: Table, done: Done, d: Data, cmd: Command)
    ensures Execute(table, d.(done := done + d.done), cmd)
         == var e := Execute(table, d, cmd); e.(done := done + e.done)
  {
    assert done + (d.done + [(d.db, cmd)]) == done + d.done + [(d.db, cmd)];
  }

  lemma {:induction false} ExecuteAllBehind(table: Table, done: Done, d: Data, cmds: seq<Command>)
    ensures ExecuteAll(table, d.(done := done + d.done), cmds)
         == var e := ExecuteAll(table, d, cmds); e.(done := done + e.done)
  {
    hide Execute;
    if cmds != [] {
      ExecuteAllBehind(table, done, d, cmds[..|cmds| - 1]);
      ExecuteBehind(table, done, ExecuteAll(table, d, cmds[..|cmds| - 1]), cmds[|cmds| - 1]);
    }
  }

  lemma StepBehind(table: Table, done: Done, c: Client, cmd: Command)
    ensures Step(table, Behind(done, c), cmd) == Behind(done, Step(table, c, cmd))
  {
    hide Execute, ExecuteAll;
    ExecuteBehind(table, done, c.data, cmd);
    ExecuteAllBehind(table, done, c.data, c.queue);
  }

  /** What was loaded before makes no difference to how a file is loaded. */
  lemma {:induction false} LoadBehind(table: Table, total: nat, s: seq<byte>, c: Client,
                                      validUpTo: nat, beforeMulti: nat, allowTruncated: bool, done: Done)
    requires |s| <= total
    ensures LoadFrom(table, total, s, Behind(done, c), validUpTo, beforeMulti, allowTruncated)
         == var r := LoadFrom(table, total, s, c, validUpTo, beforeMulti, allowTruncated);
            r.(client := Behind(done, r.client))
    decreases |s|
  {
    hide Step, ReadCommand;
    match ReadCommand(s)
    case Annotation(t) => LoadBehind(table, total, t, c, validUpTo, beforeMulti, allowTruncated, done);
    case Complete(cmd, t) =>
      StepBehind(table, done, c, cmd);
      LoadBehind(table, total, t, Step(table, c, cmd), if allowTruncated then total - |t| else validUpTo,
                 if table(cmd).Multi? then validUpTo else beforeMulti, allowTruncated, done);
    case _ =>
  }

  lemma FileBehind(table: Table, text: seq<byte>, done: Done)
    ensures LoadFile(table, text, done, true)
         == var r := LoadFrom(table, |text|, text, FRESH, 0, 0, true); r.(client := Behind(done, r.client))
  {
    hide LoadFrom;
    assert Starting(done) == Behind(done, FRESH) by { assert done + [] == done; }
    LoadBehind(table, |text|, text, FRESH, 0, 0, true, done);
  }

  /** What the commands of one file run. */
  function DoneBy(table: Table, cmds: seq<Command>): Done { Run(table, FRESH, cmds).data.done }

  function DoneByAll(table: Table, files: seq<seq<Command>>): Done {
    if files == [] then [] else DoneBy(table, files[0]) + DoneByAll(table, files[1..])
  }

  function Texts(files: seq<seq<Command>>): seq<seq<byte>> {
    seq(|files|, i requires 0 <= i < |files| => PrintAll(files[i]))
  }

  /** Files of known commands that leave no transaction open. */
  ghost predicate Whole(table: Table, files: seq<seq<Command>>) {
    forall i :: 0 <= i < |files| ==> Known(table, files[i]) && !Run(table, FRESH, files[i]).multi
  }

  /** The commands of a text that was cut are all there, with nothing behind them and no open transaction. */
  predicate CutClean(table: Table, cmds: seq<Command>, n: nat) {
    var whole := cmds[..WholeCommands(cmds, n)];
    n == |PrintAll(whole)| && !Run(table, FRESH, whole).multi
  }

  /** One file that was cut at any byte. */
  lemma CutFile(table: Table, cmds: seq<Command>, n: nat, done: Done)
    requires Known(table, cmds) && n <= |PrintAll(cmds)|
    ensures var r := LoadFile(table, PrintAll(cmds)[..n], done, true);
            && r.client.data.done == done + DoneBy(table, cmds[..WholeCommands(cmds, n)])
            && r.status == if CutClean(table, cmds, n) then AofOk else AofTruncated
  {
    hide LoadFrom, PrintAll, Run, WholeCommands, Known;
    FileBehind(table, PrintAll(cmds)[..n], done);
    CutLog(table, cmds, n);
  }

  lemma WholeFile(table: Table, cmds: seq<Command>, done: Done)
    requires Known(table, cmds) && !Run(table, FRESH, cmds).multi
    ensures var r := LoadFile(table, PrintAll(cmds), done, true);
            r.status == AofOk && r.client.data.done == done + DoneBy(table, cmds)
  {
    hide LoadFile, PrintAll, Run, WholeCommands, Known;
    var n := |PrintAll(cmds)|;
    WholeLog(cmds);
    assert cmds[..|cmds|] == cmds && PrintAll(cmds)[..n] == PrintAll(cmds);
    CutFile(table, cmds, n, done);
  }

  /**
   Whole files, then one that was cut at any byte, then whole files: the load fails exactly if the cut
   shows and the file is not the last. Otherwise all whole commands run.
   */
  lemma {:induction false} CutFilesLoad(table: Table, files: seq<seq<Command>>, cmds: seq<Command>, n: nat,
                                        more: seq<seq<Command>>, done: Done)
    requires Whole(table, files) && Known(table, cmds) && n <= |PrintAll(cmds)| && Whole(table, more)
    ensures var r := LoadFiles(table, Texts(files) + [PrintAll(cmds)[..n]] + Texts(more), done, true);
            && (r.status == AofFailed <==> !CutClean(table, cmds, n) && more != [])
            && (r.status != AofFailed ==>
                  r.done == done + DoneByAll(table, files) + DoneBy(table, cmds[..WholeCommands(cmds, n)])
                                 + DoneByAll(table, more))
    decreases |files|
  {
    hide LoadFiles, LoadFile, PrintAll, DoneBy, CutClean, WholeCommands, Known, Run;
    var cut, rest, whole := PrintAll(cmds)[..n], Texts(more), DoneBy(table, cmds[..WholeCommands(cmds, n)]);
    if files == [] {
      assert Texts(files) + [cut] + rest == [cut] + rest;
      CutFirst(table, cmds, n, more, done);
      assert done + [] + whole == done + whole;
    } else {
      var others, first := Texts(files[1..]) + [cut] + rest, DoneBy(table, files[0]);
      assert Texts(files) + [cut] + rest == [PrintAll(files[0])] + others;
      WholeFile(table, files[0], done);
      LoadNext(table, PrintAll(files[0]), others, done);
      CutFilesLoad(table, files[1..], cmds, n, more, done + first);
      assert done + first + DoneByAll(table, files[1..]) == done + (first + DoneByAll(table, files[1..]));
    }
  }

  lemma LoadNext(table: Table, text: seq<byte>, others: seq<seq<byte>>, done: Done)
    requires others != []
    ensures var r := LoadFile(table, text, done, true);
            LoadFiles(table, [text] + others, done, true)
              == if r.status == AofOk then LoadFiles(table, others, r.client.data.done, true)
                 else Result(AofFailed, r.client.data.done)
  {
    hide LoadFile;
    assert ([text] + others)[1..] == others;
  }

  lemma LoadLast(table: Table, text: seq<byte>, done: Done)
    ensures var r := LoadFile(table, text, done, true);
            LoadFiles(table, [text], done, true) == Result(r.status, r.client.data.done)
  {
    hide LoadFile;
  }

  lemma CutFirst(table: Table, cmds: seq<Command>, n: nat, more: seq<seq<Command>>, done: Done)
    requires Known(table, cmds) && n <= |PrintAll(cmds)| && Whole(table, more)
    ensures var r := LoadFiles(table, [PrintAll(cmds)[..n]] + Texts(more), done, true);
            && (r.status == AofFailed <==> !CutClean(table, cmds, n) && more != [])
            && (r.status != AofFailed ==>
                  r.done == done + DoneBy(table, cmds[..WholeCommands(cmds, n)]) + DoneByAll(table, more))
  {
    hide LoadFiles, LoadFile, PrintAll, DoneBy, CutClean, WholeCommands, Known, Whole;
    var cut, whole := PrintAll(cmds)[..n], DoneBy(table, cmds[..WholeCommands(cmds, n)]);
    CutFile(table, cmds, n, done);
    if more == [] {
      assert [cut] + Texts(more) == [cut];
      LoadLast(table, cut, done);
      assert done + whole + [] == done + whole;
    } else {
      LoadNext(table, cut, Texts(more), done);
      WholeFilesLoad(table, more, done + whole);
    }
  }

  lemma {:induction false} WholeFilesLoad(table: Table, files: seq<seq<Command>>, done: Done)
    requires Whole(table, files)
    ensures LoadFiles(table, Texts(files), done, true) == Result(AofOk, done + DoneByAll(table, files))
    decreases |files|
  {
    hide LoadFile, PrintAll, DoneBy, Known, Run;
    if files == [] {
      assert done + [] == done;
    } else {
      assert Texts(files)[1..] == Texts(files[1..]);
      WholeFile(table, files[0], done);
      WholeFilesLoad(table, files[1..], done + DoneBy(table, files[0]));
      assert done + DoneBy(table, files[0]) + DoneByAll(table, files[1..])
          == done + (DoneBy(table, files[0]) + DoneByAll(table, files[1..]));
      if |files| == 1 { assert DoneByAll(table, files[1..]) == []; }
    }
  }

  // ---------------------------------------------------------------- every command in its own database

  /** A command is propagated, or a rewrite starts, whose new INCR file opens or not. */
  datatype Act = Propagate(it: Item) | Rewrite(opens: bool)

  /** aof_selected_db and the commands of all files, the open one last. */
  datatype Progress = Progress(selected: int, closed: seq<seq<Command>>, last: seq<Command>)

  const NOTHING := Progress(-1, [], [])

  predicate Proper(acts: seq<Act>) {
    forall i :: 0 <= i < |acts| && acts[i].Propagate? ==> acts[i].it.dictid >= -1
  }

  function Acted(p: Progress, a: Act): Progress
    requires a.Propagate? ==> a.it.dictid >= -1
  {
    match a
    case Propagate(it) => Progress(NextSelected(p.selected, it), p.closed, p.last + FedOne(p.selected, it))
    case Rewrite(opens) =>
      if opens then Progress(-1, p.closed + [p.last], []) else p.(selected := -1)
  }

  function Progressed(acts: seq<Act>): Progress
    requires Proper(acts)
  {
    if acts == [] then NOTHING else Acted(Progressed(acts[..|acts| - 1]), acts[|acts| - 1])
  }

  /** feedAppendOnlyFile and the start of rewrites; each file is what was fed while it was open. */
  method WriteFiles(acts: seq<Act>) returns (texts: seq<seq<byte>>)
    requires Proper(acts)
    ensures var p := Progressed(acts); texts == Texts(p.closed + [p.last])
  {
    hide PrintAll, FedOne;
    var feeder := new Feeder();
    var closed := [];
    PrintNone();
    for i := 0 to |acts|
      invariant var p := Progressed(acts[..i]);
                feeder.selected == p.selected && feeder.buf == PrintAll(p.last) && closed == Texts(p.closed)
    {
      assert acts[..i + 1][..i] == acts[..i];
      ghost var p := Progressed(acts[..i]);
      match acts[i] {
        case Propagate(it) =>
          feeder.Feed(it.dictid, it.cmd);
          PrintAllConcat(p.last, FedOne(p.selected, it));
        case Rewrite(opens) =>
          feeder.selected := -1;
          if opens {
            closed, feeder.buf := closed + [feeder.buf], [];
            TextsAppend(p.closed, p.last);
          }
      }
    }
    assert acts[..|acts|] == acts;
    ghost var p := Progressed(acts);
    TextsAppend(p.closed, p.last);
    texts := closed + [feeder.buf];
  }

  lemma PrintNone()
    ensures PrintAll([]) == []
  {
  }

  lemma TextsAppend(files: seq<seq<Command>>, last: seq<Command>)
    ensures Texts(files + [last]) == Texts(files) + [PrintAll(last)]
  {
    hide PrintAll;
  }

  lemma {:induction false} DoneAppend(table: Table, files: seq<seq<Command>>, more: seq<seq<Command>>)
    ensures DoneByAll(table, files + more) == DoneByAll(table, files) + DoneByAll(table, more)
  {
    hide DoneBy;
    if files == [] {
      assert files + more == more;
    } else {
      var all, rest := files + more, files[1..];
      assert all[0] == files[0] && all[1..] == rest + more;
      DoneFirst(table, all);
      DoneFirst(table, files);
      hide DoneByAll;
      DoneAppend(table, rest, more);
      Assoc(DoneBy(table, files[0]), DoneByAll(table, rest), DoneByAll(table, more));
    }
  }

  lemma DoneFirst(table: Table, files: seq<seq<Command>>)
    requires files != []
    ensures DoneByAll(table, files) == DoneBy(table, files[0]) + DoneByAll(table, files[1..])
  {
    hide DoneBy;
  }

  lemma Assoc(a: Done, b: Done, c: Done)
    ensures a + (b + c) == a + b + c
  {
  }

  lemma DoneOne(table: Table, cmds: seq<Command>)
    ensures DoneByAll(table, [cmds]) == DoneBy(table, cmds)
  {
    hide DoneBy;
    assert [cmds][1..] == [];
    assert DoneByAll(table, []) == [];
  }

  /** The ordinary commands among the acts, each with the database it was propagated for. */
  function Own(table: Table, acts: seq<Act>): Done
    requires Addressed(table, acts)
  {
    if acts == [] then []
    else
      var a := acts[|acts| - 1];
      Own(table, acts[..|acts| - 1])
      + (if a.Propagate? && table(a.it.cmd).Other? then [(a.it.dictid as nat, a.it.cmd)] else [])
  }

  /** Ordinary commands are propagated for a database; MULTI and EXEC are not. */
  predicate Addressed(table: Table, acts: seq<Act>) {
    forall i :: 0 <= i < |acts| && acts[i].Propagate? ==>
      acts[i].it.dictid >= -1 && (table(acts[i].it.cmd).Other? ==> acts[i].it.dictid >= 0)
  }

  ghost predicate AllFeedable(table: Table, acts: seq<Act>) {
    forall i :: 0 <= i < |acts| && acts[i].Propagate? ==> FeedableItem(table, acts[i].it)
  }

  /** No rewrite switches files inside a transaction. */
  ghost predicate SwitchesOutside(table: Table, acts: seq<Act>)
    requires Proper(acts)
  {
    forall i :: 0 <= i < |acts| && acts[i] == Rewrite(true) ==>
      !Run(table, FRESH, Progressed(acts[..i]).last).multi
  }

  /** The files so far, and what they run once open transactions end, is what was propagated. */
  ghost predicate Carries(table: Table, p: Progress, own: Done) {
    var c := Run(table, FRESH, p.last);
    && Whole(table, p.closed) && Known(table, p.last) && QueueOnlyInMulti(c)
    && (p.selected == -1 || p.selected == View(table, c).db)
    && DoneByAll(table, p.closed) + View(table, c).done == own
  }

  /** One propagated command, seen by the client that loads the open file. */
  lemma FedOneMeans(table: Table, c: Client, selected: int, it: Item)
    requires QueueOnlyInMulti(c) && FeedableItem(table, it) && SelectsKnown(table)
    requires selected == -1 || selected == View(table, c).db
    requires table(it.cmd).Other? ==> it.dictid >= 0
    ensures var d := Run(table, c, FedOne(selected, it));
            && QueueOnlyInMulti(d)
            && (NextSelected(selected, it) == -1 || NextSelected(selected, it) == View(table, d).db)
            && View(table, d).done ==
               View(table, c).done + if table(it.cmd).Other? then [(it.dictid as nat, it.cmd)] else []
    ensures Known(table, FedOne(selected, it))
  {
    hide Run, View, Printable;
    assert Fed(selected, [it]) == FedOne(selected, it) by {
      assert [it][1..] == [] && FedOne(selected, it) + [] == FedOne(selected, it);
    }
    RunMeans(table, c, selected, [it]);
    FedKnown(table, selected, [it]);
    OneMeans(table, View(table, c), it);
  }

  lemma OneMeans(table: Table, d: Data, it: Item)
    requires it.dictid >= -1 && !table(it.cmd).Select? && (table(it.cmd).Other? ==> it.dictid >= 0)
    ensures var e := Meaning(table, d, [it]);
            && e.db == (if it.dictid == -1 then d.db else it.dictid)
            && e.done == d.done + if table(it.cmd).Other? then [(it.dictid as nat, it.cmd)] else []
  {
    assert [it][1..] == [];
    if !table(it.cmd).Other? { assert d.done + [] == d.done; }
  }

  lemma PropagateCarries(table: Table, p: Progress, own: Done, it: Item)
    requires Carries(table, p, own) && FeedableItem(table, it) && SelectsKnown(table)
    requires table(it.cmd).Other? ==> it.dictid >= 0
    ensures Carries(table, Acted(p, Propagate(it)),
                    own + if table(it.cmd).Other? then [(it.dictid as nat, it.cmd)] else [])
  {
    hide Run, View, DoneByAll, Whole, Printable, FedOne;
    var c := Run(table, FRESH, p.last);
    RunConcat(table, FRESH, p.last, FedOne(p.selected, it));
    FedOneMeans(table, c, p.selected, it);
  }

  lemma RewriteCarries(table: Table, p: Progress, own: Done, opens: bool)
    requires Carries(table, p, own) && (opens ==> !Run(table, FRESH, p.last).multi)
    ensures Carries(table, Acted(p, Rewrite(opens)), own)
  {
    if opens {
      assert View(table, FRESH) == FRESH.data && Run(table, FRESH, []) == FRESH;
      assert View(table, Run(table, FRESH, p.last)).done == DoneBy(table, p.last);
      hide Run, View, DoneByAll, Known;
      DoneAppend(table, p.closed, [p.last]);
      DoneOne(table, p.last);
      assert own + [] == own;
    }
  }

  lemma {:induction false} ActsCarry(table: Table, acts: seq<Act>)
    requires Addressed(table, acts) && AllFeedable(table, acts) && SelectsKnown(table)
    requires Proper(acts) && SwitchesOutside(table, acts)
    ensures Carries(table, Progressed(acts), Own(table, acts))
  {
    hide Carries, Printable, Acted, SelectsKnown, Run;
    if acts == [] {
      NothingCarries(table);
    } else {
      var most, a := acts[..|acts| - 1], acts[|acts| - 1];
      assert forall i :: 0 <= i < |most| ==> most[..i] == acts[..i];
      ActsCarry(table, most);
      match a
      case Propagate(it) => PropagateCarries(table, Progressed(most), Own(table, most), it);
      case Rewrite(opens) =>
        assert Own(table, acts) == Own(table, most) + [] == Own(table, most);
        RewriteCarries(table, Progressed(most), Own(table, most), opens);
    }
  }

  lemma NothingCarries(table: Table)
    ensures Carries(table, NOTHING, [])
  {
    assert Run(table, FRESH, []) == FRESH && View(table, FRESH) == FRESH.data;
  }

  /**
   Whatever is propagated, and whenever rewrites switch files outside of transactions: loading all files
   runs every ordinary command once, in order, in the database it was propagated for.
   */
  lemma OwnDatabases(table: Table, acts: seq<Act>)
    requires Addressed(table, acts) && AllFeedable(table, acts) && SelectsKnown(table)
    requires Proper(acts) && SwitchesOutside(table, acts) && !Run(table, FRESH, Progressed(acts).last).multi
    ensures var p := Progressed(acts);
            LoadFiles(table, Texts(p.closed + [p.last]), [], true) == Result(AofOk, Own(table, acts))
  {
    var p := Progressed(acts);
    ActsCarry(table, acts);
    assert View(table, Run(table, FRESH, p.last)).done == DoneBy(table, p.last);
    hide LoadFiles, Texts, DoneByAll, Run, View, Known, DoneBy, SwitchesOutside, AllFeedable;
    WholeFilesLoad(table, p.closed + [p.last], []);
    DoneAppend(table, p.closed, [p.last]);
    DoneOne(table, p.last);
    assert [] + Own(table, acts) == Own(table, acts);
  }

  /** From propagation to the dataset: the loops that write the files and the loops that load them. */
  method WriteAndLoad(table: Table, acts: seq<Act>) returns (result: Result)
    requires Addressed(table, acts) && AllFeedable(table, acts) && SelectsKnown(table)
    requires Proper(acts) && SwitchesOutside(table, acts) && !Run(table, FRESH, Progressed(acts).last).multi
    ensures result == Result(AofOk, Own(table, acts))
  {
    hide *;
    var texts := WriteFiles(acts);
    OwnDatabases(table, acts);
    ghost var p := Progressed(acts);
    TextsAppend(p.closed, p.last);
    assert [] + texts == texts;
    result := LoadAppendOnlyFiles(table, None, texts, true);
  }

  // ---------------------------------------------------------------- a crash in the middle of a write

  type State = AofRewrite.State
  type Info = AofRewrite.Info

  /** The files that a manifest names, in the order they are loaded. */
  function Infos(m: AofRewrite.Manifest): seq<Info> { (if m.base.Some? then [m.base.value] else []) + m.incr }

  function Listed(files: AofRewrite.Files, infos: seq<Info>): seq<seq<Command>> {
    seq(|infos|, i requires 0 <= i < |infos| => AofRewrite.ContentsOf(files, infos[i].name))
  }

  function CommandFiles(img: AofRewrite.Image): seq<seq<Command>> { Listed(img.files, Infos(img.manifest)) }

  /** The commands the open file will hold when the buffer is written. */
  function Writing(st: State): seq<Command> { AofRewrite.ContentsOf(st.files, st.open) + st.buf }

  /** The write has begun: the open file holds its commands, and n bytes in all. */
  predicate Torn(st: State, n: nat) {
    |PrintAll(AofRewrite.ContentsOf(st.files, st.open))| <= n <= |PrintAll(Writing(st))|
  }

  function Bytes(st: State, n: nat, name: AofRewrite.Name): seq<byte>
    requires Torn(st, n)
  {
    if name == st.open then PrintAll(Writing(st))[..n] else PrintAll(AofRewrite.ContentsOf(st.files, name))
  }

  /** The texts of the files that the manifest on disk names. */
  function TornTexts(st: State, n: nat): seq<seq<byte>>
    requires Torn(st, n)
  {
    BytesOf(st, n, Infos(st.disk))
  }

  function BytesOf(st: State, n: nat, infos: seq<Info>): seq<seq<byte>>
    requires Torn(st, n)
  {
    seq(|infos|, i requires 0 <= i < |infos| => Bytes(st, n, infos[i].name))
  }

  /** All commands are known, and no file but the open one ends inside a transaction. */
  ghost predicate Loads(table: Table, st: State) {
    && Known(table, Writing(st))
    && forall name :: name in st.files && name != st.open ==>
         Known(table, st.files[name]) && !Run(table, FRESH, st.files[name]).multi
  }

  /** How many commands of the buffer are whole. */
  function WholeOfBuffer(st: State, n: nat): (k: int)
  {
    WholeCommands(Writing(st), n) - |AofRewrite.ContentsOf(st.files, st.open)|
  }

  lemma WholeBuffer(st: State, n: nat)
    requires Torn(st, n)
    ensures 0 <= WholeOfBuffer(st, n) <= |st.buf|
    ensures Writing(st)[..WholeCommands(Writing(st), n)]
         == AofRewrite.ContentsOf(st.files, st.open) + st.buf[..WholeOfBuffer(st, n)]
  {
    hide PrintAll, WholeCommands;
    var before := AofRewrite.ContentsOf(st.files, st.open);
    assert Writing(st)[..|before|] == before;
    WholeCommandsLongest(Writing(st), n, |before|);
  }

  /** Where the open file is among those that the disk names. */
  function Place(st: State): nat
    requires st.mem.incr != []
  {
    (if st.disk.base.Some? then 1 else 0) + |st.mem.incr| - 1
  }

  /** Files before the open one, the open one, and the empty file the disk may be ahead by. */
  lemma DiskShape(st: State)
    requires AofRewrite.Ok(st)
    ensures st.mem.incr != [] && st.open in st.files
    ensures var infos, p := Infos(st.disk), Place(st);
            && p < |infos| && infos[p].name == st.open
            && (forall i :: 0 <= i < |infos| ==> infos[i].name in st.files && (i != p ==> infos[i].name != st.open))
            && (|infos| == p + 1 <==> st.disk.incr == st.mem.incr)
  {
    AofRewrite.CrashSafe(st);
    AofRewrite.FlushedOk(st, 0);
    hide AofRewrite.Before, AofRewrite.Replay;
    AofRewrite.NextIsNew(st.mem);
    var m := |st.mem.incr| - 1;
    assert st.disk.incr[m] == st.mem.incr[m];
  }

  /** The files of the manifest before the open one, and behind it. */
  function Earlier(st: State): seq<seq<Command>>
    requires st.mem.incr != [] && Place(st) < |Infos(st.disk)|
  {
    Listed(st.files, Infos(st.disk)[..Place(st)])
  }

  function Later(st: State): seq<seq<Command>>
    requires st.mem.incr != [] && Place(st) < |Infos(st.disk)|
  {
    Listed(st.files, Infos(st.disk)[Place(st) + 1..])
  }

  lemma TornTextsAre(st: State, n: nat)
    requires AofRewrite.Ok(st) && Torn(st, n)
    ensures st.mem.incr != [] && Place(st) < |Infos(st.disk)|
    ensures TornTexts(st, n) == Texts(Earlier(st)) + [PrintAll(Writing(st))[..n]] + Texts(Later(st))
  {
    DiskShape(st);
    hide AofRewrite.Ok, PrintAll, Torn, Writing, Infos, Place, BytesOf, Texts, Listed;
    var infos, p := Infos(st.disk), Place(st);
    assert infos == infos[..p] + [infos[p]] + infos[p + 1..];
    BytesApart(st, n, infos[..p], infos[p + 1..], infos[p]);
    BytesWhole(st, n, infos[..p]);
    BytesWhole(st, n, infos[p + 1..]);
  }

  lemma BytesApart(st: State, n: nat, a: seq<Info>, b: seq<Info>, open: Info)
    requires Torn(st, n) && open.name == st.open
    ensures BytesOf(st, n, a + [open] + b) == BytesOf(st, n, a) + [PrintAll(Writing(st))[..n]] + BytesOf(st, n, b)
  {
    hide PrintAll, Torn, Writing, AofRewrite.ContentsOf;
  }

  lemma BytesWhole(st: State, n: nat, infos: seq<Info>)
    requires Torn(st, n) && forall i :: 0 <= i < |infos| ==> infos[i].name != st.open
    ensures BytesOf(st, n, infos) == Texts(Listed(st.files, infos))
  {
    hide PrintAll, Torn, Writing, AofRewrite.ContentsOf;
  }

  lemma FilesAre(st: State, k: nat)
    requires AofRewrite.Ok(st) && k <= |st.buf|
    ensures st.mem.incr != [] && Place(st) < |Infos(st.disk)|
    ensures CommandFiles(AofRewrite.DiskOf(AofRewrite.Flushed(st, k)))
         == Earlier(st) + [AofRewrite.ContentsOf(st.files, st.open) + st.buf[..k]] + Later(st)
  {
    DiskShape(st);
    hide AofRewrite.Ok, Infos, Place, Listed;
    ListedWith(st.files, Infos(st.disk), Place(st), AofRewrite.ContentsOf(st.files, st.open) + st.buf[..k]);
  }

  lemma ListedWith(files: AofRewrite.Files, infos: seq<Info>, p: nat, v: seq<Command>)
    requires p < |infos| && forall i :: 0 <= i < |infos| && i != p ==> infos[i].name != infos[p].name
    ensures Listed(files[infos[p].name := v], infos) == Listed(files, infos[..p]) + [v] + Listed(files, infos[p + 1..])
  {
  }

  lemma OthersWhole(table: Table, st: State)
    requires AofRewrite.Ok(st) && Loads(table, st)
    ensures st.mem.incr != [] && Place(st) < |Infos(st.disk)|
    ensures Whole(table, Earlier(st)) && Whole(table, Later(st))
    ensures Later(st) == [] <==> st.disk.incr == st.mem.incr
  {
    DiskShape(st);
    hide AofRewrite.Ok, Known, Run, Infos, Place;
  }

  /** What an image recovers is what its files hold, one after the other. */
  lemma RecoveredFiles(img: AofRewrite.Image)
    requires AofRewrite.Recovers(img)
    ensures Flat(CommandFiles(img)) == img.written
  {
    var m := img.manifest;
    FlatListed(img.files, m.incr);
    if m.base.Some? {
      assert CommandFiles(img)[1..] == Listed(img.files, m.incr);
    } else {
      assert CommandFiles(img) == Listed(img.files, m.incr);
      assert [] + AofRewrite.Contents(img.files, m.incr) == AofRewrite.Contents(img.files, m.incr);
    }
  }

  function Flat(files: seq<seq<Command>>): seq<Command> {
    if files == [] then [] else files[0] + Flat(files[1..])
  }

  lemma {:induction false} FlatAppend(files: seq<seq<Command>>, last: seq<Command>)
    ensures Flat(files + [last]) == Flat(files) + last
  {
    if files == [] {
      assert [] + [last] == [last] && [last][1..] == [] && last + [] == last;
    } else {
      FlatAppend(files[1..], last);
      assert (files + [last])[1..] == files[1..] + [last];
    }
  }

  lemma {:induction false} FlatListed(files: AofRewrite.Files, infos: seq<Info>)
    requires AofRewrite.Present(files, infos)
    ensures Flat(Listed(files, infos)) == AofRewrite.Contents(files, infos)
  {
    if infos != [] {
      var most, name := infos[..|infos| - 1], infos[|infos| - 1].name;
      FlatListed(files, most);
      assert Listed(files, infos) == Listed(files, most) + [files[name]];
      FlatAppend(Listed(files, most), files[name]);
    }
  }

  /**
   What a crash at byte n of a write leaves: a disk that loads as if exactly the whole commands had been
   written, and that image recovers; unless the cut shows while the disk names a further, empty file,
   because a switch to it failed after the manifest was renamed. Then the load fails.
   */
  ghost predicate Survives(table: Table, st: State, n: nat)
    requires Torn(st, n)
  {
    var k, r := WholeOfBuffer(st, n), LoadFiles(table, TornTexts(st, n), [], true);
    && 0 <= k <= |st.buf|
    && (var img := AofRewrite.DiskOf(AofRewrite.Flushed(st, k));
        && AofRewrite.Recovers(img) && Flat(CommandFiles(img)) == st.written + st.buf[..k]
        && (r.status == AofFailed <==> !CutClean(table, Writing(st), n) && st.disk.incr != st.mem.incr)
        && (r.status != AofFailed ==> r.done == DoneByAll(table, CommandFiles(img))))
  }

  lemma TornWrite(table: Table, st: State, n: nat)
    requires AofRewrite.Ok(st) && Loads(table, st) && Torn(st, n)
    ensures Survives(table, st, n)
  {
    var k := WholeOfBuffer(st, n);
    WholeBuffer(st, n);
    AofRewrite.FlushedOk(st, k);
    AofRewrite.CrashSafe(AofRewrite.Flushed(st, k));
    TornTextsAre(st, n);
    FilesAre(st, k);
    OthersWhole(table, st);
    RecoveredFiles(AofRewrite.DiskOf(AofRewrite.Flushed(st, k)));
    assert AofRewrite.DiskOf(AofRewrite.Flushed(st, k)).written == st.written + st.buf[..k];
    var whole := AofRewrite.ContentsOf(st.files, st.open) + st.buf[..k];
    hide AofRewrite.Ok, AofRewrite.Recovers, LoadFiles, TornTexts, Texts, DoneByAll, CutClean, Known, Whole,
      CommandFiles, Earlier, Later, WholeCommands, PrintAll, Run, Flat, AofRewrite.Flushed, AofRewrite.DiskOf, Torn,
      Writing;
    CutFilesLoad(table, Earlier(st), Writing(st), n, Later(st), []);
    DoneAppend(table, Earlier(st) + [whole], Later(st));
    DoneAppend(table, Earlier(st), [whole]);
    DoneOne(table, whole);
    assert [] + DoneByAll(table, Earlier(st)) == DoneByAll(table, Earlier(st));
  }

  /** So it is after every run of a server in which no rewrite breaks. */
  lemma TornRun(table: Table, st: State, images: seq<AofRewrite.Image>, events: seq<AofRewrite.Event>, n: nat)
    requires AofRewrite.Safe(st, images) && !AofRewrite.AnyBreaks(st, events)
    requires var end := AofRewrite.Final(st, events); Loads(table, end) && Torn(end, n)
    ensures Survives(table, AofRewrite.Final(st, events), n)
  {
    AofRewrite.RunRecovers(st, images, events);
    hide AofRewrite.Ok, Loads, Torn, Survives, AofRewrite.Final, AofRewrite.AnyBreaks;
    TornWrite(table, AofRewrite.Final(st, events), n);
  }

  /** A rewrite whose switch of files fails after the rename, and a command. */
  function FailedSwitch(cmd: Command): seq<AofRewrite.Event> {
    [AofRewrite.Start(0, true, AofRewrite.FailedAfter, true), AofRewrite.Feed(cmd)]
  }

  function Leading(img: AofRewrite.Image, cmd: Command): State
    requires img.manifest.incr != []
  {
    AofRewrite.Named(AofRewrite.Created(AofRewrite.Restarted(img))).(buf := [cmd])
  }

  lemma SwitchRun(img: AofRewrite.Image, cmd: Command)
    requires AofRewrite.Recovers(img)
    ensures AofRewrite.Final(AofRewrite.Restarted(img), FailedSwitch(cmd)) == Leading(img, cmd)
    ensures !AofRewrite.AnyBreaks(AofRewrite.Restarted(img), FailedSwitch(cmd))
  {
    hide AofRewrite.Recovers, AofRewrite.WellFormed;
    AofRewrite.RecoversFacts(img);
    var st, events := AofRewrite.Restarted(img), FailedSwitch(cmd);
    var t := AofRewrite.BeforeOpen(st, 0);
    assert t == st by { assert st.files[st.open] + [] == st.files[st.open] && st.written + [] == st.written; }
    assert events[..1] == [events[0]] && events[..1][..0] == [];
    assert AofRewrite.Final(st, []) == st;
    assert AofRewrite.Final(st, events[..1]) == AofRewrite.Named(AofRewrite.Created(st));
    assert !AofRewrite.AnyBreaks(st, []) && !AofRewrite.AnyBreaks(st, events[..1]);
  }

  /** If its write is torn in the first byte, the log does not load. */
  lemma TornBehindFailedSwitch(table: Table, img: AofRewrite.Image, cmd: Command)
    requires AofRewrite.Recovers(img) && Known(table, [cmd])
    requires forall name :: name in img.files ==>
               Known(table, img.files[name]) && !Run(table, FRESH, img.files[name]).multi
    ensures var st := AofRewrite.Final(AofRewrite.Restarted(img), FailedSwitch(cmd));
            var n := |PrintAll(AofRewrite.ContentsOf(st.files, st.open))| + 1;
            Torn(st, n) && LoadFiles(table, TornTexts(st, n), [], true).status == AofFailed
  {
    hide *;
    LeadingOk(img, cmd);
    SwitchRun(img, cmd);
    SwitchLoads(table, img, cmd);
    TornFails(table, Leading(img, cmd), cmd);
  }

  lemma LeadingOk(img: AofRewrite.Image, cmd: Command)
    requires AofRewrite.Recovers(img)
    ensures img.manifest.incr != []
    ensures var st := Leading(img, cmd); AofRewrite.Ok(st) && st.disk.incr != st.mem.incr && st.buf == [cmd]
  {
    hide AofRewrite.Recovers, AofRewrite.Before, AofRewrite.WellFormed;
    AofRewrite.RecoversFacts(img);
    var st := AofRewrite.Restarted(img);
    AofRewrite.RestartedOk(img);
    AofRewrite.CreatedOk(st);
    AofRewrite.NamedOk(AofRewrite.Created(st));
  }

  lemma TornFails(table: Table, st: State, cmd: Command)
    requires AofRewrite.Ok(st) && Loads(table, st) && st.disk.incr != st.mem.incr && st.buf == [cmd]
    ensures var n := |PrintAll(AofRewrite.ContentsOf(st.files, st.open))| + 1;
            Torn(st, n) && LoadFiles(table, TornTexts(st, n), [], true).status == AofFailed
  {
    hide AofRewrite.Ok, LoadFiles, TornTexts, Loads, AofRewrite.Recovers, CommandFiles, Flat, DoneByAll, CutClean,
      PrintAll;
    var before := AofRewrite.ContentsOf(st.files, st.open);
    CutInFirstByte(table, before, cmd);
    TornWrite(table, st, |PrintAll(before)| + 1);
  }

  lemma SwitchLoads(table: Table, img: AofRewrite.Image, cmd: Command)
    requires AofRewrite.Recovers(img) && Known(table, [cmd])
    requires forall name :: name in img.files ==>
               Known(table, img.files[name]) && !Run(table, FRESH, img.files[name]).multi
    ensures Loads(table, Leading(img, cmd))
  {
    assert Run(table, FRESH, []) == FRESH;
    hide Run, Printable, AofRewrite.Recovers, AofRewrite.WellFormed;
    AofRewrite.RecoversFacts(img);
  }

  lemma CutInFirstByte(table: Table, before: seq<Command>, cmd: Command)
    ensures var n := |PrintAll(before)| + 1;
            n <= |PrintAll(before + [cmd])| && !CutClean(table, before + [cmd], n)
  {
    hide Run, Print, PrintAll, WholeCommands;
    var n, cmds := |PrintAll(before)| + 1, before + [cmd];
    RunLast(table, before, cmd);
    PrintNonempty(cmd);
    assert cmds[..|before|] == before && cmds[..|cmds|] == cmds;
    WholeCommandsLongest(cmds, n, |before|);
    WholeCommandsLongest(cmds, n, |cmds|);
  }

  /** What a flush leaves in the open file when it is interrupted after k bytes is a cut of the text fed to it. */
  lemma FlushTears(s: AofFlush.Log, cmds: seq<Command>, k: nat)
    requires AofFlush.Placed(s) && AofFlush.Conserves(s, s.closed + PrintAll(cmds)) && AofFlush.AtEnd(s) && k <= |s.buf|
    ensures |s.file| + k <= |PrintAll(cmds)|
    ensures AofFlush.Landed(s, k).file == PrintAll(cmds)[..|s.file| + k]
  {
    hide PrintAll;
    var text := PrintAll(cmds);
    assert s.file + s.buf == text by {
      assert s.closed + s.file + s.buf == s.closed + (s.file + s.buf);
      assert (s.closed + (s.file + s.buf))[|s.closed|..] == s.file + s.buf;
      assert (s.closed + text)[|s.closed|..] == text;
    }
    assert text[..|s.file| + k] == s.file + s.buf[..k];
    assert s.file + AofFlush.Zeros(0) + s.buf[..k] == s.file + s.buf[..k];
  }
}
