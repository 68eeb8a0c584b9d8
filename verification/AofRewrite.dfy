/**
 The rewrite protocol of aof.c: a manifest on disk names one BASE file and a list of INCR
 files; a background rewrite switches to a new INCR file, snapshots the dataset in a child,
 and on completion installs the snapshot as the new BASE. The disk is recorded after every
 single disk step, so that each recorded image is a possible crash point.
 */
module AofRewrite {
  import AofFormat
  import opened Options

  type Cmd = AofFormat.Command

  datatype Name = BaseFile(number: nat, rdb: bool) | IncrFile(number: nat)

  datatype Role = Base | Incr | History

  /** aofInfo. */
  datatype Info = Info(name: Name, seqno: nat, role: Role)

  /** The part of aofManifest that is written to disk. */
  datatype Manifest = Manifest(base: Option<Info>, history: seq<Info>, incr: seq<Info>)

  /** Log files by name; a BASE file holds the commands its snapshot stands for. */
  type Files = map<Name, seq<Cmd>>

  /** The disk at one instant, with the commands written to the log up to then. */
  datatype Image = Image(files: Files, manifest: Manifest, written: seq<Cmd>)

  /** persistAofManifest: done, failed before the rename, or failed after it (directory fsync). */
  datatype Persist = Done | FailedBefore | FailedAfter

  // ---------------------------------------------------------------- manifest operations

  function CurrBase(m: Manifest): nat { if m.base.Some? then m.base.value.seqno else 0 }

  function CurrIncr(m: Manifest): nat {
    if m.incr == [] then 0 else m.incr[|m.incr| - 1].seqno
  }

  /** getNewIncrAofName. */
  function NewIncr(m: Manifest): Info { Info(IncrFile(CurrIncr(m) + 1), CurrIncr(m) + 1, Incr) }

  function WithNewIncr(m: Manifest): Manifest { m.(incr := m.incr + [NewIncr(m)]) }

  function NewBase(m: Manifest, rdb: bool): Info {
    Info(BaseFile(CurrBase(m) + 1, rdb), CurrBase(m) + 1, Base)
  }

  function Retired(i: Info): Info { i.(role := History) }

  /** getNewBaseFileNameAndMarkPreAsHistory. */
  function WithNewBase(m: Manifest, rdb: bool): Manifest {
    m.(base := Some(NewBase(m, rdb)),
       history := (if m.base.Some? then [Retired(m.base.value)] else []) + m.history)
  }

  function RetireAll(infos: seq<Info>): seq<Info> {
    seq(|infos|, i requires 0 <= i < |infos| => Retired(infos[i]))
  }

  /** markRewrittenIncrAofAsHistory with the AOF open: all INCR files but the last. */
  function WithoutRewritten(m: Manifest): Manifest {
    if m.incr == [] then m
    else m.(incr := m.incr[|m.incr| - 1..],
            history := RetireAll(m.incr[..|m.incr| - 1]) + m.history)
  }

  function Rewritten(m: Manifest, rdb: bool): Manifest { WithoutRewritten(WithNewBase(m, rdb)) }

  // ---------------------------------------------------------------- what a manifest recovers

  /** All commands of a list of files, in order. */
  function Contents(files: Files, infos: seq<Info>): seq<Cmd>
    requires Present(files, infos)
  {
    if infos == [] then []
    else Contents(files, infos[..|infos| - 1]) + files[infos[|infos| - 1].name]
  }

  predicate Present(files: Files, infos: seq<Info>) {
    forall i :: 0 <= i < |infos| ==> infos[i].name in files
  }

  /** loadAppendOnlyFiles: BASE, then every INCR. */
  function Replay(files: Files, m: Manifest): seq<Cmd>
    requires Loadable(files, m)
  {
    (if m.base.Some? then files[m.base.value.name] else []) + Contents(files, m.incr)
  }

  predicate Loadable(files: Files, m: Manifest) {
    Present(files, m.incr) && (m.base.Some? ==> m.base.value.name in files)
  }

  /** Sequence numbers of INCR entries strictly increase, names carry them. */
  predicate IncrOrdered(incr: seq<Info>) {
    && (forall i :: 0 <= i < |incr| ==>
          incr[i].seqno > 0 && incr[i] == Info(IncrFile(incr[i].seqno), incr[i].seqno, Incr))
    && (forall i, j :: 0 <= i < j < |incr| ==> incr[i].seqno < incr[j].seqno)
  }

  predicate BaseNamed(m: Manifest) {
    m.base.Some? ==>
      && m.base.value.role == Base && m.base.value.seqno > 0
      && m.base.value.name.BaseFile? && m.base.value.name.number == m.base.value.seqno
  }

  /** A retired file is older than every live file of its kind. */
  predicate Older(name: Name, m: Manifest) {
    match name
    case BaseFile(n, _) => n < CurrBase(m)
    case IncrFile(n) => forall i :: 0 <= i < |m.incr| ==> n < m.incr[i].seqno
  }

  predicate HistoryOlder(history: seq<Info>, m: Manifest) {
    forall i :: 0 <= i < |history| ==> history[i].role == History && Older(history[i].name, m)
  }

  predicate WellFormed(m: Manifest) {
    m.incr != [] && IncrOrdered(m.incr) && BaseNamed(m) && HistoryOlder(m.history, m)
  }

  /** The crash property: loading this disk gives exactly the commands written so far. */
  ghost predicate Recovers(img: Image) {
    && WellFormed(img.manifest)
    && Loadable(img.files, img.manifest)
    && Replay(img.files, img.manifest) == img.written
  }

  // ---------------------------------------------------------------- lemmas about contents

  lemma {:induction false} ContentsFrame(files: Files, files': Files, infos: seq<Info>)
    requires Present(files, infos)
    requires forall i :: 0 <= i < |infos| ==>
               infos[i].name in files' && files'[infos[i].name] == files[infos[i].name]
    ensures Present(files', infos) && Contents(files', infos) == Contents(files, infos)
  {
    if infos != [] { ContentsFrame(files, files', infos[..|infos| - 1]); }
  }

  /** Appending to the last INCR file appends to the replay. */
  lemma ContentsAppend(files: Files, infos: seq<Info>, more: seq<Cmd>)
    requires infos != [] && IncrOrdered(infos) && Present(files, infos)
    ensures var last := infos[|infos| - 1].name;
            var files' := files[last := files[last] + more];
            Present(files', infos) && Contents(files', infos) == Contents(files, infos) + more
  {
    var last, most := infos[|infos| - 1].name, infos[..|infos| - 1];
    ContentsFrame(files, files[last := files[last] + more], most);
  }

  lemma ContentsEmptyLast(files: Files, infos: seq<Info>, info: Info)
    requires Present(files, infos) && info.name in files && files[info.name] == []
    ensures Present(files, infos + [info]) && Contents(files, infos + [info]) == Contents(files, infos)
  {
    assert (infos + [info])[..|infos|] == infos;
  }

  lemma ContentsOne(files: Files, info: Info)
    requires info.name in files
    ensures Present(files, [info]) && Contents(files, [info]) == files[info.name]
  {
    assert [info][..0] == [];
  }

  // ---------------------------------------------------------------- each disk step

  /** The written commands that are not in the last INCR file. */
  ghost function Before(img: Image): seq<Cmd>
    requires Recovers(img)
  {
    var m := img.manifest;
    (if m.base.Some? then img.files[m.base.value.name] else []) + Contents(img.files, m.incr[..|m.incr| - 1])
  }

  /** Files change, but no file that the manifest loads. */
  lemma LoadedFilesKept(img: Image, files': Files)
    requires Recovers(img)
    requires forall i :: 0 <= i < |img.manifest.incr| ==>
               var name := img.manifest.incr[i].name; name in files' && files'[name] == img.files[name]
    requires img.manifest.base.Some? ==>
               var name := img.manifest.base.value.name; name in files' && files'[name] == img.files[name]
    ensures Recovers(img.(files := files')) && Before(img.(files := files')) == Before(img)
  {
    var incr := img.manifest.incr;
    ContentsFrame(img.files, files', incr);
    ContentsFrame(img.files, files', incr[..|incr| - 1]);
  }

  /** The manifest changes only in its list of retired files. */
  lemma HistoryIrrelevant(img: Image, m': Manifest)
    requires Recovers(img) && WellFormed(m')
    requires m'.base == img.manifest.base && m'.incr == img.manifest.incr
    ensures Recovers(img.(manifest := m')) && Before(img.(manifest := m')) == Before(img)
  {
  }

  /** One more INCR file, empty, named or not: the replay is the same. */
  lemma EmptyIncr(files: Files, m: Manifest, written: seq<Cmd>)
    requires WellFormed(m) && NewIncr(m).name in files && files[NewIncr(m).name] == []
    ensures WellFormed(WithNewIncr(m))
    ensures Recovers(Image(files, WithNewIncr(m), written)) <==> Recovers(Image(files, m, written))
    ensures Recovers(Image(files, m, written)) ==> Before(Image(files, WithNewIncr(m), written)) == written
  {
    WithNewIncrWellFormed(m);
    if Present(files, m.incr) {
      ContentsEmptyLast(files, m.incr, NewIncr(m));
    } else {
      assert forall i :: 0 <= i < |m.incr| ==> WithNewIncr(m).incr[i] == m.incr[i];
    }
    assert WithNewIncr(m).incr[..|m.incr|] == m.incr;
  }

  lemma WithNewIncrWellFormed(m: Manifest)
    requires WellFormed(m)
    ensures WellFormed(WithNewIncr(m))
  {
  }

  lemma RewrittenWellFormed(m: Manifest, rdb: bool)
    requires WellFormed(m)
    ensures WellFormed(Rewritten(m, rdb))
  {
  }

  /**
   Installing a snapshot: with `later` in the last INCR file and a snapshot of the commands
   before it plus `pending`, the new manifest recovers exactly what was written if and only
   if nothing was pending when the snapshot was taken.
   */
  lemma InstallSnapshot(img: Image, rdb: bool, snapshot: seq<Cmd>, pending: seq<Cmd>)
    requires Recovers(img)
    requires snapshot == Before(img) + pending
    ensures var base := NewBase(img.manifest, rdb).name;
            var img' := img.(files := img.files[base := snapshot], manifest := Rewritten(img.manifest, rdb));
            Recovers(img') <==> pending == []
  {
    var m := img.manifest;
    var base := NewBase(m, rdb).name;
    var last := m.incr[|m.incr| - 1];
    var files' := img.files[base := snapshot];
    RewrittenWellFormed(m, rdb);
    RewrittenIncr(m, rdb);
    ContentsOne(files', last);
    LastIsRest(img);
    assert files'[last.name] == img.files[last.name];
    hide WellFormed, Before, Contents, Rewritten;
    assert Rewritten(m, rdb).base == Some(NewBase(m, rdb)) by { RewrittenBase(m, rdb); }
    assert |img.written| == |Before(img)| + |img.files[last.name]|;
  }

  /** What was written is what comes before the last INCR file, then that file. */
  lemma LastIsRest(img: Image)
    requires Recovers(img)
    ensures var last := img.manifest.incr[|img.manifest.incr| - 1].name;
            last in img.files && img.written == Before(img) + img.files[last]
  {
    hide WellFormed;
    assert img.manifest.incr != [] by { RecoversFacts(img); }
  }

  lemma RewrittenBase(m: Manifest, rdb: bool)
    ensures Rewritten(m, rdb).base == Some(NewBase(m, rdb))
  {
  }

  // ---------------------------------------------------------------- server state

  /** The rewriting child: its snapshot, and what was still unwritten when it was taken. */
  datatype Child = Child(snapshot: seq<Cmd>, pending: seq<Cmd>)

  /** Memory and disk of the server; `open` is the file behind aof_fd. */
  datatype State = State(
    mem: Manifest, disk: Manifest, files: Files, open: Name,
    buf: seq<Cmd>, child: Option<Child>, written: seq<Cmd>)

  function DiskOf(st: State): Image { Image(st.files, st.disk, st.written) }

  function MemOf(st: State): Image { Image(st.files, st.mem, st.written) }

  /** A switch to a new INCR file that failed after the rename leaves it named but empty. */
  predicate DiskLeads(st: State) {
    var next := NewIncr(st.mem);
    st.disk.incr == st.mem.incr + [next] && next.name in st.files && st.files[next.name] == []
  }

  /**
   The invariant of the protocol: the files named in memory recover what was written, and
   the manifest on disk names the same files, but for one empty file it may be ahead by.
   */
  ghost predicate Ok(st: State) {
    && Recovers(MemOf(st))
    && st.open == st.mem.incr[|st.mem.incr| - 1].name
    && WellFormed(st.disk) && st.disk.base == st.mem.base
    && (st.disk.incr == st.mem.incr || DiskLeads(st))
    && (st.child.Some? ==>
          && st.disk.incr == st.mem.incr
          && st.child.value.snapshot == Before(MemOf(st)) + st.child.value.pending)
  }

  /** Crash safety: whenever the invariant holds, the disk alone recovers what was written. */
  lemma CrashSafe(st: State)
    requires Ok(st)
    ensures Recovers(DiskOf(st))
  {
    hide Recovers, Before, WellFormed;
    assert WellFormed(st.mem) by { RecoversFacts(MemOf(st)); }
    if st.disk.incr == st.mem.incr {
      HistoryIrrelevant(MemOf(st), st.disk);
    } else {
      EmptyIncr(st.files, st.mem, st.written);
      HistoryIrrelevant(Image(st.files, WithNewIncr(st.mem), st.written), st.disk);
    }
  }

  lemma OkFacts(st: State)
    requires Ok(st)
    ensures st.mem.incr != []
  {
  }

  lemma RecoversFacts(img: Image)
    requires Recovers(img)
    ensures WellFormed(img.manifest) && img.manifest.incr != []
    ensures img.manifest.incr[|img.manifest.incr| - 1].name in img.files
  {
  }

  function Restarted(img: Image): State
    requires img.manifest.incr != []
  {
    State(img.manifest, img.manifest, img.files, img.manifest.incr[|img.manifest.incr| - 1].name,
          [], None, img.written)
  }

  lemma RestartedOk(img: Image)
    requires Recovers(img)
    ensures Ok(Restarted(img))
  {
  }

  function ContentsOf(files: Files, name: Name): seq<Cmd> { if name in files then files[name] else [] }

  /** A flush that writes the first k buffered commands. */
  function Flushed(st: State, k: nat): State
    requires k <= |st.buf|
  {
    st.(files := st.files[st.open := ContentsOf(st.files, st.open) + st.buf[..k]],
        written := st.written + st.buf[..k], buf := st.buf[k..])
  }

  lemma AppendRecovers(img: Image, more: seq<Cmd>)
    requires Recovers(img)
    ensures var last := img.manifest.incr[|img.manifest.incr| - 1].name;
            var img' := img.(files := img.files[last := img.files[last] + more], written := img.written + more);
            Recovers(img') && Before(img') == Before(img)
  {
    var incr := img.manifest.incr;
    var last := incr[|incr| - 1].name;
    ContentsAppend(img.files, incr, more);
    ContentsFrame(img.files, img.files[last := img.files[last] + more], incr[..|incr| - 1]);
  }

  lemma FlushedOk(st: State, k: nat)
    requires Ok(st) && k <= |st.buf|
    ensures st.open in st.files && Ok(Flushed(st, k))
  {
    hide Before, Recovers, WellFormed;
    RecoversFacts(MemOf(st));
    NextIsNew(st.mem);
    AppendRecovers(MemOf(st), st.buf[..k]);
  }

  /** The next INCR name is none of the names in use. */
  lemma NextIsNew(m: Manifest)
    requires WellFormed(m)
    ensures forall i :: 0 <= i < |m.incr| ==> m.incr[i].name != NewIncr(m).name
    ensures m.base.Some? ==> m.base.value.name != NewIncr(m).name
    ensures !Older(NewIncr(m).name, m)
  {
    assert m.incr[|m.incr| - 1].seqno < NewIncr(m).seqno;
  }

  /** open(O_TRUNC | O_CREAT) of the next INCR file. */
  function Created(st: State): State { st.(files := st.files[NewIncr(st.mem).name := []]) }

  lemma CreatedOk(st: State)
    requires Ok(st)
    ensures Ok(Created(st))
  {
    hide Before;
    NextIsNew(st.mem);
    LoadedFilesKept(MemOf(st), Created(st).files);
  }

  /** The manifest naming the new INCR file is on disk; the server has not switched yet. */
  function Named(st: State): State { st.(disk := WithNewIncr(st.mem)) }

  lemma NamedOk(st: State)
    requires Ok(st) && st.child.None? && NewIncr(st.mem).name in st.files && st.files[NewIncr(st.mem).name] == []
    ensures Ok(Named(st)) && DiskLeads(Named(st))
  {
    hide Before;
    WithNewIncrWellFormed(st.mem);
  }

  /** The server writes to the new file from now on. */
  function Switched(st: State): State {
    st.(mem := WithNewIncr(st.mem), open := NewIncr(st.mem).name)
  }

  lemma SwitchedOk(st: State)
    requires Ok(st) && st.child.None? && DiskLeads(st)
    ensures Ok(Switched(st)) && Switched(st).disk.incr == Switched(st).mem.incr
    ensures Before(MemOf(Switched(st))) == st.written
  {
    hide Before, Recovers, WellFormed;
    RecoversFacts(MemOf(st));
    EmptyIncr(st.files, st.mem, st.written);
  }

  /** fork: the child sees the dataset, that is everything written or still buffered. */
  function Forked(st: State): State { st.(child := Some(Child(st.written + st.buf, st.buf))) }

  lemma ForkedOk(st: State)
    requires Ok(st) && st.disk.incr == st.mem.incr && Before(MemOf(st)) == st.written
    ensures Ok(Forked(st))
  {
  }

  /** The child's file renamed to the new BASE name. */
  function BaseRenamed(st: State, rdb: bool): State
    requires st.child.Some?
  {
    st.(files := st.files[NewBase(st.mem, rdb).name := st.child.value.snapshot])
  }

  lemma BaseRenamedOk(st: State, rdb: bool)
    requires Ok(st) && st.child.Some?
    ensures Ok(BaseRenamed(st, rdb))
  {
    hide Before;
    LoadedFilesKept(MemOf(st), BaseRenamed(st, rdb).files);
  }

  /** bg_unlink of a BASE name that the manifest in memory does not use. */
  function BaseDropped(st: State, rdb: bool): State {
    st.(files := st.files - {NewBase(st.mem, rdb).name})
  }

  lemma BaseDroppedOk(st: State, rdb: bool)
    requires Ok(st)
    ensures Ok(BaseDropped(st, rdb))
  {
    hide Before;
    LoadedFilesKept(MemOf(st), BaseDropped(st, rdb).files);
  }

  /** The new BASE is in force, in memory and on disk. */
  function Installed(st: State, rdb: bool): State {
    st.(mem := Rewritten(st.mem, rdb), disk := Rewritten(st.mem, rdb), child := None)
  }

  lemma InstalledOk(st: State, rdb: bool)
    requires Ok(st) && st.child.Some? && st.child.value.pending == []
    ensures Ok(Installed(BaseRenamed(st, rdb), rdb))
  {
    hide Before, Recovers, WellFormed;
    RecoversFacts(MemOf(st));
    InstallSnapshot(MemOf(st), rdb, st.child.value.snapshot, []);
    RewrittenWellFormed(st.mem, rdb);
    RewrittenIncr(st.mem, rdb);
  }

  lemma RewrittenIncr(m: Manifest, rdb: bool)
    requires m.incr != []
    ensures Rewritten(m, rdb).incr == [m.incr[|m.incr| - 1]]
  {
  }

  /**
   What completing a rewrite leaves on disk: the outcome of persisting the manifest decides
   between the old files, the new ones, and a manifest whose BASE has just been unlinked.
   */
  ghost function AfterDone(st: State, rdb: bool, persist: Persist): Image
    requires st.child.Some?
  {
    match persist
    case Done => DiskOf(Installed(BaseRenamed(st, rdb), rdb))
    case FailedBefore => DiskOf(BaseDropped(st, rdb))
    case FailedAfter => Image(BaseDropped(st, rdb).files, Rewritten(st.mem, rdb), st.written)
  }

  /** Completion recovers what was written exactly when the caller avoids both failing guards. */
  lemma AfterDoneRecovers(st: State, rdb: bool, persist: Persist)
    requires Ok(st) && st.child.Some?
    ensures Recovers(AfterDone(st, rdb, persist))
       <==> persist == FailedBefore || (persist == Done && st.child.value.pending == [])
  {
    match persist
    case Done =>
      hide Before, Recovers, WellFormed;
      RecoversFacts(MemOf(st));
      InstallSnapshot(MemOf(st), rdb, st.child.value.snapshot, st.child.value.pending);
    case FailedBefore =>
      BaseDroppedOk(st, rdb);
      CrashSafe(BaseDropped(st, rdb));
    case FailedAfter =>
  }

  /** A run that shows the first guard is needed: one command, and a forced flush that fails. */
  lemma ShortFlushRepeatsCommand(img: Image, cmd: Cmd, rdb: bool)
    requires Recovers(img)
    ensures var st0 := Restarted(img).(buf := [cmd]);
            var st := Forked(Switched(Named(Created(st0))));
            && Ok(st) && DiskOf(st).written + st.buf == img.written + [cmd]
            && !Recovers(AfterDone(st, rdb, Done))
  {
    hide Recovers, Before, WellFormed;
    RecoversFacts(img);
    RestartedOk(img);
    var st0 := Restarted(img).(buf := [cmd]);
    CreatedOk(st0);
    NamedOk(Created(st0));
    SwitchedOk(Named(Created(st0)));
    ForkedOk(Switched(Named(Created(st0))));
    AfterDoneRecovers(Forked(Switched(Named(Created(st0)))), rdb, Done);
  }

  /** Deletes one history file: unlink, and forget it in memory. */
  function Forgotten(st: State): State
    requires st.mem.history != []
  {
    st.(files := st.files - {st.mem.history[0].name}, mem := st.mem.(history := st.mem.history[1..]))
  }

  lemma ForgottenOk(st: State)
    requires Ok(st) && st.mem.history != []
    ensures Ok(Forgotten(st))
  {
    var st', name := Forgotten(st), st.mem.history[0].name;
    var img := MemOf(st).(files := st'.files);
    OlderIsOther(st.mem, name);
    NextIsNew(st.mem);
    ShorterHistory(st.mem);
    hide Before, WellFormed, Recovers;
    LoadedFilesKept(MemOf(st), st'.files);
    HistoryIrrelevant(img, st'.mem);
  }

  lemma OlderIsOther(m: Manifest, name: Name)
    requires WellFormed(m) && Older(name, m)
    ensures forall i :: 0 <= i < |m.incr| ==> m.incr[i].name != name
    ensures m.base.Some? ==> m.base.value.name != name
  {
  }

  lemma ShorterHistory(m: Manifest)
    requires WellFormed(m) && m.history != []
    ensures WellFormed(m.(history := m.history[1..])) && Older(m.history[0].name, m)
  {
  }

  /** The manifest in memory written to disk. */
  function Saved(st: State): State { st.(disk := st.mem) }

  lemma SavedOk(st: State)
    requires Ok(st)
    ensures Ok(Saved(st))
  {
    hide Before;
  }

  // ---------------------------------------------------------------- whole operations

  /** A flush that gets up to `count` commands written. */
  function FlushedBy(st: State, count: nat): State { Flushed(st, if count < |st.buf| then count else |st.buf|) }

  /** openNewIncrAofForAppend: the state it leaves, and the disk after each of its steps. */
  function Opened(st: State, openWorks: bool, persist: Persist): State {
    if !openWorks then st
    else match persist
      case FailedBefore => Created(st)
      case FailedAfter => Named(Created(st))
      case Done => Switched(Named(Created(st)))
  }

  function OpenImages(st: State, openWorks: bool, persist: Persist): seq<Image> {
    if !openWorks then []
    else if persist == FailedBefore then [DiskOf(Created(st))]
    else [DiskOf(Created(st)), DiskOf(Named(Created(st)))]
  }

  /** rewriteAppendOnlyFileBackground; its forced flush leaves `shortBy` commands unwritten. */
  function BeforeOpen(st: State, shortBy: nat): State {
    FlushedBy(st, if shortBy < |st.buf| then |st.buf| - shortBy else 0)
  }

  predicate Forks(st: State, openWorks: bool, persist: Persist, forkWorks: bool) {
    st.child.None? && openWorks && persist == Done && forkWorks
  }

  function Started(st: State, shortBy: nat, openWorks: bool, persist: Persist, forkWorks: bool): State {
    if st.child.Some? then st
    else
      var t := Opened(BeforeOpen(st, shortBy), openWorks, persist);
      if Forks(st, openWorks, persist, forkWorks) then Forked(t) else t
  }

  function StartImages(st: State, shortBy: nat, openWorks: bool, persist: Persist): seq<Image> {
    if st.child.Some? then []
    else [DiskOf(BeforeOpen(st, shortBy))] + OpenImages(BeforeOpen(st, shortBy), openWorks, persist)
  }

  /** aofDelHistoryFiles. */
  function Swept(st: State): State
    decreases |st.mem.history|
  {
    if st.mem.history == [] then st else Swept(Forgotten(st))
  }

  function SweepImages(st: State): seq<Image>
    decreases |st.mem.history|
  {
    if st.mem.history == [] then [] else [DiskOf(Forgotten(st))] + SweepImages(Forgotten(st))
  }

  predicate SavesHistory(st: State, persist: Persist) { st.mem.history != [] && persist != FailedBefore }

  function Cleaned(st: State, persist: Persist): State {
    if SavesHistory(st, persist) then Saved(Swept(st)) else Swept(st)
  }

  function CleanImages(st: State, persist: Persist): seq<Image> {
    SweepImages(st) + if SavesHistory(st, persist) then [DiskOf(Saved(Swept(st)))] else []
  }

  /** The manifest that names the new BASE is on disk, but not in force in memory. */
  function BaseNamedOnDisk(st: State, rdb: bool): State { st.(disk := Rewritten(st.mem, rdb)) }

  /** backgroundRewriteDoneHandler after a clean exit of the child. */
  function Completed(st: State, rdb: bool, renameWorks: bool, persist: Persist, gc: bool, gcPersist: Persist): State
    requires st.child.Some?
  {
    if !renameWorks then st.(child := None)
    else
      var t := BaseRenamed(st, rdb);
      match persist
      case FailedBefore => BaseDropped(t, rdb).(child := None)
      case FailedAfter => BaseDropped(BaseNamedOnDisk(t, rdb), rdb).(child := None)
      case Done => if gc then Cleaned(Installed(t, rdb), gcPersist) else Installed(t, rdb)
  }

  function DoneImages(st: State, rdb: bool, renameWorks: bool, persist: Persist, gc: bool, gcPersist: Persist)
    : seq<Image>
    requires st.child.Some?
  {
    if !renameWorks then []
    else
      var t := BaseRenamed(st, rdb);
      [DiskOf(t)] + match persist
        case FailedBefore => [DiskOf(BaseDropped(t, rdb))]
        case FailedAfter => [DiskOf(BaseNamedOnDisk(t, rdb)), DiskOf(BaseDropped(BaseNamedOnDisk(t, rdb), rdb))]
        case Done => [DiskOf(Installed(t, rdb))] + if gc then CleanImages(Installed(t, rdb), gcPersist) else []
  }

  function HistoryNames(m: Manifest): set<Name> { set i | 0 <= i < |m.history| :: m.history[i].name }

  /** Deleting the history removes exactly the files it names, and leaves the rest of the state alone. */
  lemma {:induction false} SweptFiles(st: State)
    ensures Swept(st) == st.(files := st.files - HistoryNames(st.mem), mem := st.mem.(history := []))
    decreases |st.mem.history|
  {
    if st.mem.history == [] {
      assert HistoryNames(st.mem) == {};
      assert st.files - {} == st.files;
    } else {
      var name, t := st.mem.history[0].name, Forgotten(st);
      SweptFiles(t);
      assert HistoryNames(st.mem) == {name} + HistoryNames(t.mem) by {
        forall n | n in HistoryNames(st.mem) ensures n == name || n in HistoryNames(t.mem) {
          var i :| 0 <= i < |st.mem.history| && st.mem.history[i].name == n;
          if i > 0 { assert t.mem.history[i - 1].name == n; }
        }
        forall n | n in HistoryNames(t.mem) ensures n in HistoryNames(st.mem) {
          var i :| 0 <= i < |t.mem.history| && t.mem.history[i].name == n;
          assert st.mem.history[i + 1].name == n;
        }
      }
      assert st.files - {name} - HistoryNames(t.mem) == st.files - ({name} + HistoryNames(t.mem));
    }
  }

  /**
   A rewrite that succeeds leaves a manifest with the new BASE and the last INCR, and nothing else: the
   former BASE, the INCRs before the last and the former history are gone from the disk, and every other
   file is as it was.
   */
  lemma RewriteLeaves(st: State, rdb: bool, gcPersist: Persist)
    requires Ok(st) && st.child.Some?
    ensures var t, m := Completed(st, rdb, true, Done, true, gcPersist), st.mem;
            && t.mem.base == Some(NewBase(m, rdb)) && t.mem.incr == [m.incr[|m.incr| - 1]] && t.mem.history == []
            && NewBase(m, rdb).name in t.files && t.files[NewBase(m, rdb).name] == st.child.value.snapshot
            && (m.base.Some? ==> m.base.value.name !in t.files)
            && (forall i :: 0 <= i < |m.incr| - 1 ==> m.incr[i].name !in t.files)
            && (forall i :: 0 <= i < |m.history| ==> m.history[i].name !in t.files)
            && (forall name :: name in st.files && name != NewBase(m, rdb).name && !Superseded(m, name) ==>
                  name in t.files && t.files[name] == st.files[name])
            && t.written == st.written && t.buf == st.buf && t.child == None
  {
    hide Before, Replay;
    var m := st.mem;
    var u := Installed(BaseRenamed(st, rdb), rdb);
    SweptFiles(u);
    RewrittenHistory(m, rdb);
    hide Swept;
  }

  /** The manifest names the file for what a rewrite replaces. */
  predicate Superseded(m: Manifest, name: Name) {
    || (m.base.Some? && m.base.value.name == name)
    || (exists i :: 0 <= i < |m.incr| - 1 && m.incr[i].name == name)
    || (exists i :: 0 <= i < |m.history| && m.history[i].name == name)
  }

  lemma RewrittenHistory(m: Manifest, rdb: bool)
    requires WellFormed(m)
    ensures var r := Rewritten(m, rdb);
            && r.base == Some(NewBase(m, rdb)) && r.incr == [m.incr[|m.incr| - 1]]
            && (forall name :: name in HistoryNames(r) <==> Superseded(m, name))
            && NewBase(m, rdb).name !in HistoryNames(r)
  {
    var r := Rewritten(m, rdb);
    var a := RetireAll(m.incr[..|m.incr| - 1]);
    var b := if m.base.Some? then [Retired(m.base.value)] else [];
    assert r.history == a + (b + m.history);
    assert r.base == Some(NewBase(m, rdb));
    forall name ensures name in HistoryNames(r) <==> Superseded(m, name) {
      HistoryParts(m, name, a, b);
    }
    assert !Superseded(m, NewBase(m, rdb).name);
  }

  lemma HistoryParts(m: Manifest, name: Name, a: seq<Info>, b: seq<Info>)
    requires m.incr != [] && a == RetireAll(m.incr[..|m.incr| - 1])
    requires b == if m.base.Some? then [Retired(m.base.value)] else []
    ensures (exists i :: 0 <= i < |a + (b + m.history)| && (a + (b + m.history))[i].name == name) <==>
            Superseded(m, name)
  {
    var all := a + (b + m.history);
    if i :| 0 <= i < |m.incr| - 1 && m.incr[i].name == name { assert all[i].name == name; }
    if m.base.Some? && m.base.value.name == name { assert all[|a|].name == name; }
    if i :| 0 <= i < |m.history| && m.history[i].name == name { assert all[|a| + |b| + i].name == name; }
    if i :| 0 <= i < |all| && all[i].name == name {
      if i < |a| {
        assert m.incr[i].name == name;
      } else if i >= |a| + |b| {
        assert m.history[i - |a| - |b|].name == name;
      }
    }
  }

  // ---------------------------------------------------------------- whole runs

  datatype Event =
    | Feed(cmd: Cmd)                    // feedAppendOnlyFile
    | Flush(count: nat)                 // a flush that gets `count` commands written
    | Start(shortBy: nat, openWorks: bool, persist: Persist, forkWorks: bool)
    | ChildFailed                       // the child exits with an error or is killed
    | ChildDone(rdb: bool, renameWorks: bool, persist: Persist, gc: bool, gcPersist: Persist)
    | DeleteHistory(gcPersist: Persist)
    | Restart                           // crash, then start again from the disk

  function After(st: State, e: Event): State {
    match e
    case Feed(cmd) => st.(buf := st.buf + [cmd])
    case Flush(count) => FlushedBy(st, count)
    case Start(shortBy, openWorks, persist, forkWorks) => Started(st, shortBy, openWorks, persist, forkWorks)
    case ChildFailed => st.(child := None)
    case ChildDone(rdb, renameWorks, persist, gc, gcPersist) =>
      if st.child.Some? then Completed(st, rdb, renameWorks, persist, gc, gcPersist) else st
    case DeleteHistory(gcPersist) => Cleaned(st, gcPersist)
    case Restart => if st.disk.incr != [] then Restarted(DiskOf(st)) else st
  }

  /** The disk after every disk step of an event: the crash points. */
  function Images(st: State, e: Event): seq<Image> {
    match e
    case Flush(count) => [DiskOf(FlushedBy(st, count))]
    case Start(shortBy, openWorks, persist, _) => StartImages(st, shortBy, openWorks, persist)
    case ChildDone(rdb, renameWorks, persist, gc, gcPersist) =>
      if st.child.Some? then DoneImages(st, rdb, renameWorks, persist, gc, gcPersist) else []
    case DeleteHistory(gcPersist) => CleanImages(st, gcPersist)
    case Feed(_) => []
    case ChildFailed => []
    case Restart => []
  }

  /** The two guards of AfterDoneRecovers: a rewrite completes, but its manifest or its snapshot is wrong. */
  predicate Breaks(st: State, e: Event) {
    e.ChildDone? && st.child.Some? && e.renameWorks &&
    (e.persist == FailedAfter || (e.persist == Done && st.child.value.pending != []))
  }

  ghost predicate AllRecover(images: seq<Image>) { forall i :: 0 <= i < |images| ==> Recovers(images[i]) }

  /** The invariant, and a crash at any step so far would have recovered; the last image is the disk now. */
  ghost predicate Safe(st: State, images: seq<Image>) {
    Ok(st) && AllRecover(images) && images != [] && images[|images| - 1] == DiskOf(st)
  }

  lemma OneMoreImage(st: State, images: seq<Image>, st': State)
    requires Safe(st, images) && Ok(st')
    ensures Safe(st', images + [DiskOf(st')])
  {
    hide Ok, Recovers;
    CrashSafe(st');
  }

  lemma OpenSafe(st: State, images: seq<Image>, openWorks: bool, persist: Persist)
    requires Safe(st, images) && st.child.None?
    ensures var t := Opened(st, openWorks, persist);
            && Safe(t, images + OpenImages(st, openWorks, persist)) && t.child.None?
            && (openWorks && persist == Done ==> t.disk.incr == t.mem.incr && Before(MemOf(t)) == t.written)
  {
    hide Ok, Recovers, Before, AllRecover;
    if openWorks {
      CreatedOk(st);
      var c := Created(st);
      OneMoreImage(st, images, c);
      if persist != FailedBefore {
        NamedOk(c);
        OneMoreImage(c, images + [DiskOf(c)], Named(c));
        assert images + [DiskOf(c)] + [DiskOf(Named(c))] == images + [DiskOf(c), DiskOf(Named(c))];
        if persist == Done { SwitchedOk(Named(c)); }
      }
    } else {
      assert images + [] == images;
    }
  }

  lemma StartSafe(st: State, images: seq<Image>, shortBy: nat, openWorks: bool, persist: Persist, forkWorks: bool)
    requires Safe(st, images)
    ensures Safe(Started(st, shortBy, openWorks, persist, forkWorks),
                 images + StartImages(st, shortBy, openWorks, persist))
  {
    hide Ok, Recovers, Before, AllRecover, Opened, OpenImages, FlushedBy;
    if st.child.Some? {
      assert images + [] == images;
    } else {
      var b := BeforeOpen(st, shortBy);
      FlushSafe(st, images, if shortBy < |st.buf| then |st.buf| - shortBy else 0);
      OpenSafe(b, images + [DiskOf(b)], openWorks, persist);
      ghost var more := OpenImages(b, openWorks, persist);
      assert images + [DiskOf(b)] + more == images + ([DiskOf(b)] + more);
      if Forks(st, openWorks, persist, forkWorks) { ForkedOk(Opened(b, openWorks, persist)); }
    }
  }

  lemma FlushSafe(st: State, images: seq<Image>, count: nat)
    requires Safe(st, images)
    ensures Safe(FlushedBy(st, count), images + [DiskOf(FlushedBy(st, count))])
    ensures FlushedBy(st, count).child == st.child
  {
    hide Ok, Recovers, AllRecover;
    FlushedOk(st, if count < |st.buf| then count else |st.buf|);
    OneMoreImage(st, images, FlushedBy(st, count));
  }

  lemma {:induction false} SweepSafe(st: State, images: seq<Image>)
    requires Safe(st, images)
    ensures Safe(Swept(st), images + SweepImages(st))
    decreases |st.mem.history|
  {
    hide Ok, Recovers, AllRecover;
    if st.mem.history == [] {
      assert images + [] == images;
    } else {
      var t := Forgotten(st);
      ForgottenOk(st);
      OneMoreImage(st, images, t);
      SweepSafe(t, images + [DiskOf(t)]);
      assert images + [DiskOf(t)] + SweepImages(t) == images + ([DiskOf(t)] + SweepImages(t));
    }
  }

  lemma CleanSafe(st: State, images: seq<Image>, persist: Persist)
    requires Safe(st, images)
    ensures Safe(Cleaned(st, persist), images + CleanImages(st, persist))
  {
    hide Ok, Recovers, AllRecover, Swept, SweepImages;
    SweepSafe(st, images);
    var t, more := Swept(st), SweepImages(st);
    if SavesHistory(st, persist) {
      SavedOk(t);
      OneMoreImage(t, images + more, Saved(t));
      assert images + more + [DiskOf(Saved(t))] == images + (more + [DiskOf(Saved(t))]);
    } else {
      assert images + (more + []) == images + more;
    }
  }

  lemma DoneSafe(st: State, images: seq<Image>, e: Event)
    requires Safe(st, images) && e.ChildDone? && st.child.Some? && !Breaks(st, e)
    ensures Safe(After(st, e), images + Images(st, e))
  {
    hide Ok, Recovers, AllRecover, Cleaned, CleanImages;
    NoChild(st);
    if !e.renameWorks {
      assert images + [] == images;
    } else {
      var t := BaseRenamed(st, e.rdb);
      BaseRenamedOk(st, e.rdb);
      OneMoreImage(st, images, t);
      if e.persist == FailedBefore {
        BaseDroppedOk(t, e.rdb);
        var u := BaseDropped(t, e.rdb);
        OneMoreImage(t, images + [DiskOf(t)], u);
        NoChild(u);
        assert images + [DiskOf(t)] + [DiskOf(u)] == images + ([DiskOf(t)] + [DiskOf(u)]);
      } else {
        var u := Installed(t, e.rdb);
        InstalledOk(st, e.rdb);
        OneMoreImage(t, images + [DiskOf(t)], u);
        var now := images + [DiskOf(t)] + [DiskOf(u)];
        if e.gc {
          CleanSafe(u, now, e.gcPersist);
          assert now + CleanImages(u, e.gcPersist) ==
                 images + ([DiskOf(t)] + ([DiskOf(u)] + CleanImages(u, e.gcPersist)));
        } else {
          assert now == images + ([DiskOf(t)] + ([DiskOf(u)] + []));
        }
      }
    }
  }

  lemma NoChild(st: State)
    requires Ok(st)
    ensures Ok(st.(child := None))
  {
  }

  /** An event that does not break a rewrite keeps every crash point recoverable. */
  lemma EventSafe(st: State, images: seq<Image>, e: Event)
    requires Safe(st, images) && !Breaks(st, e)
    ensures Safe(After(st, e), images + Images(st, e))
  {
    hide Safe, Breaks, FlushedBy, Started, Completed, Cleaned, Restarted, StartImages, DoneImages, CleanImages, DiskOf;
    assert images + [] == images;
    match e
    case Feed(cmd) => FeedSafe(st, images, cmd);
    case Flush(count) => FlushSafe(st, images, count);
    case Start(shortBy, openWorks, persist, forkWorks) => StartSafe(st, images, shortBy, openWorks, persist, forkWorks);
    case ChildFailed => FailureSafe(st, images);
    case ChildDone(_, _, _, _, _) => if st.child.Some? { DoneSafe(st, images, e); }
    case DeleteHistory(gcPersist) => CleanSafe(st, images, gcPersist);
    case Restart => RestartSafe(st, images);
  }

  lemma FeedSafe(st: State, images: seq<Image>, cmd: Cmd)
    requires Safe(st, images)
    ensures Safe(st.(buf := st.buf + [cmd]), images)
  {
  }

  lemma FailureSafe(st: State, images: seq<Image>)
    requires Safe(st, images)
    ensures Safe(st.(child := None), images)
  {
    hide AllRecover;
    NoChild(st);
  }

  lemma RestartSafe(st: State, images: seq<Image>)
    requires Safe(st, images)
    ensures st.disk.incr != [] ==> Safe(Restarted(DiskOf(st)), images)
  {
    hide Recovers, AllRecover;
    CrashSafe(st);
    RecoversFacts(DiskOf(st));
    RestartedOk(DiskOf(st));
  }

  /** An event that breaks a rewrite leaves a disk that does not recover. */
  lemma EventBreaks(st: State, e: Event)
    requires Ok(st) && Breaks(st, e)
    ensures !AllRecover(Images(st, e))
  {
    AfterDoneRecovers(st, e.rdb, e.persist);
    hide Recovers, Ok;
    var i := if e.persist == Done then 1 else 2;
    DroppedAgain(st, e.rdb);
    assert Images(st, e)[i] == AfterDone(st, e.rdb, e.persist);
  }

  lemma DroppedAgain(st: State, rdb: bool)
    requires st.child.Some?
    ensures BaseDropped(BaseRenamed(st, rdb), rdb).files == BaseDropped(st, rdb).files
  {
  }

  function Final(st: State, events: seq<Event>): State {
    if events == [] then st else After(Final(st, events[..|events| - 1]), events[|events| - 1])
  }

  /** All crash points of a run, in order. */
  function CrashPoints(st: State, events: seq<Event>): seq<Image> {
    if events == [] then []
    else CrashPoints(st, events[..|events| - 1]) + Images(Final(st, events[..|events| - 1]), events[|events| - 1])
  }

  predicate AnyBreaks(st: State, events: seq<Event>) {
    events != [] &&
    (AnyBreaks(st, events[..|events| - 1]) || Breaks(Final(st, events[..|events| - 1]), events[|events| - 1]))
  }

  /**
   Over any run, with crashes and restarts anywhere: every crash point recovers exactly the commands
   written up to it if and only if no rewrite completes with unwritten commands in its snapshot, or
   with a manifest whose directory could not be synced.
   */
  lemma {:induction false} RunRecovers(st: State, images: seq<Image>, events: seq<Event>)
    requires Safe(st, images)
    ensures AllRecover(images + CrashPoints(st, events)) <==> !AnyBreaks(st, events)
    ensures !AnyBreaks(st, events) ==> Safe(Final(st, events), images + CrashPoints(st, events))
  {
    hide Ok, Recovers, After, Images, Breaks;
    if events == [] {
      assert images + [] == images;
    } else {
      var most, e := events[..|events| - 1], events[|events| - 1];
      RunRecovers(st, images, most);
      var t, points := Final(st, most), CrashPoints(st, most);
      Joined(images, points, Images(t, e));
      if !AnyBreaks(st, most) {
        if Breaks(t, e) { EventBreaks(t, e); } else { EventSafe(t, images + points, e); }
      }
    }
  }

  lemma Joined(a: seq<Image>, b: seq<Image>, c: seq<Image>)
    ensures a + (b + c) == a + b + c
    ensures AllRecover(a + b + c) <==> AllRecover(a + b) && AllRecover(c)
  {
    hide Recovers;
    if AllRecover(a + b + c) {
      assert forall i :: 0 <= i < |a + b| ==> (a + b + c)[i] == (a + b)[i];
      assert forall i :: 0 <= i < |c| ==> (a + b + c)[|a + b| + i] == c[i];
    }
  }

  /** The commands of the dataset: those written, and those still in the buffer. */
  function Dataset(st: State): seq<Cmd> { st.written + st.buf }

  /** What a run makes of the dataset: commands fed are added, and a restart loses the unwritten ones. */
  function Surviving(st: State, events: seq<Event>): seq<Cmd> {
    if events == [] then Dataset(st)
    else
      var most, e := events[..|events| - 1], events[|events| - 1];
      match e
      case Feed(cmd) => Surviving(st, most) + [cmd]
      case Restart => if Final(st, most).disk.incr != [] then Final(st, most).written else Surviving(st, most)
      case _ => Surviving(st, most)
  }

  lemma EventKeepsDataset(st: State, e: Event)
    ensures Dataset(After(st, e)) ==
            match e
            case Feed(cmd) => Dataset(st) + [cmd]
            case Restart => if st.disk.incr != [] then st.written else Dataset(st)
            case _ => Dataset(st)
  {
    hide Dataset, FlushedBy, Started, Completed, Cleaned, Restarted;
    match e
    case Flush(count) => FlushKeepsDataset(st, count);
    case Start(shortBy, openWorks, persist, forkWorks) =>
      StartKeepsDataset(st, shortBy, openWorks, persist, forkWorks);
    case ChildDone(rdb, renameWorks, persist, gc, gcPersist) =>
      if st.child.Some? { DoneKeepsDataset(st, rdb, renameWorks, persist, gc, gcPersist); }
    case DeleteHistory(gcPersist) => CleanKeepsDataset(st, gcPersist);
    case Feed(cmd) => FeedKeepsDataset(st, cmd);
    case ChildFailed => SameDataset(st, st.(child := None));
    case Restart => RestartDataset(st);
  }

  lemma SameDataset(st: State, t: State)
    requires st.written == t.written && st.buf == t.buf
    ensures Dataset(st) == Dataset(t)
  {
  }

  lemma FeedKeepsDataset(st: State, cmd: Cmd)
    ensures Dataset(st.(buf := st.buf + [cmd])) == Dataset(st) + [cmd]
  {
    assert st.written + (st.buf + [cmd]) == st.written + st.buf + [cmd];
  }

  lemma RestartDataset(st: State)
    ensures st.disk.incr != [] ==> Dataset(Restarted(DiskOf(st))) == st.written
  {
    assert st.written + [] == st.written;
  }

  lemma StartKeepsDataset(st: State, shortBy: nat, openWorks: bool, persist: Persist, forkWorks: bool)
    ensures Dataset(Started(st, shortBy, openWorks, persist, forkWorks)) == Dataset(st)
  {
    hide Dataset, FlushedBy, Opened, Forked;
    FlushKeepsDataset(st, if shortBy < |st.buf| then |st.buf| - shortBy else 0);
    OpenKeepsDataset(BeforeOpen(st, shortBy), openWorks, persist);
    ForkKeepsDataset(Opened(BeforeOpen(st, shortBy), openWorks, persist));
  }

  lemma OpenKeepsDataset(st: State, openWorks: bool, persist: Persist)
    ensures Dataset(Opened(st, openWorks, persist)) == Dataset(st)
  {
    hide NewIncr, WithNewIncr;
  }

  lemma ForkKeepsDataset(st: State)
    ensures Dataset(Forked(st)) == Dataset(st)
  {
    hide Before;
  }

  lemma DoneKeepsDataset(st: State, rdb: bool, renameWorks: bool, persist: Persist, gc: bool, gcPersist: Persist)
    requires st.child.Some?
    ensures Dataset(Completed(st, rdb, renameWorks, persist, gc, gcPersist)) == Dataset(st)
  {
    hide Cleaned, Rewritten, NewBase;
    CleanKeepsDataset(Installed(BaseRenamed(st, rdb), rdb), gcPersist);
  }

  lemma CleanKeepsDataset(st: State, gcPersist: Persist)
    ensures Dataset(Cleaned(st, gcPersist)) == Dataset(st)
  {
    hide Swept;
    SweepKeepsDataset(st);
  }

  lemma FlushKeepsDataset(st: State, count: nat)
    ensures Dataset(FlushedBy(st, count)) == Dataset(st)
  {
    var k := if count < |st.buf| then count else |st.buf|;
    assert st.buf == st.buf[..k] + st.buf[k..];
  }

  lemma {:induction false} SweepKeepsDataset(st: State)
    ensures Dataset(Swept(st)) == Dataset(st)
    decreases |st.mem.history|
  {
    if st.mem.history != [] { SweepKeepsDataset(Forgotten(st)); }
  }

  lemma {:induction false} RunKeepsDataset(st: State, events: seq<Event>)
    ensures Dataset(Final(st, events)) == Surviving(st, events)
  {
    hide After;
    if events != [] {
      RunKeepsDataset(st, events[..|events| - 1]);
      EventKeepsDataset(Final(st, events[..|events| - 1]), events[|events| - 1]);
    }
  }

  // ---------------------------------------------------------------- the server

  class Server {
    var mem: Manifest                // server.aof_manifest
    var disk: Manifest               // the manifest file
    var files: Files
    var openName: Name               // the file behind aof_fd
    var buf: seq<Cmd>                // aof_buf, command by command
    var child: Option<Child>
    var written: seq<Cmd>            // commands written to the log; with buf, the dataset
    ghost var images: seq<Image>     // the disk at the start and after every step: the crash points

    ghost function St(): State
      reads this
    {
      State(mem, disk, files, openName, buf, child, written)
    }

    ghost predicate Valid()
      reads this
    {
      Safe(St(), images)
    }

    /** Start on any disk that recovers: aofLoadManifestFromDisk, aofOpenIfNeededOnServerStart. */
    constructor (img: Image)
      requires Recovers(img)
      ensures Valid() && St() == Restarted(img) && images == [img]
    {
      mem, disk, files := img.manifest, img.manifest, img.files;
      openName := img.manifest.incr[|img.manifest.incr| - 1].name;
      buf, child := [], None;
      written, images := img.written, [img];
      new;
      RestartedOk(img);
    }

    /** Every disk step ends here: the disk now is one more possible crash point. */
    ghost method Record()
      modifies this`images
      ensures images == old(images) + [DiskOf(St())]
    {
      images := images + [DiskOf(St())];
    }

    method FeedCommand(cmd: Cmd)
      modifies this`buf
      ensures St() == After(old(St()), Event.Feed(cmd))
    {
      buf := buf + [cmd];
    }

    /** A flush: one write of the first buffered commands to the open file. */
    method FlushCommands(count: nat)
      modifies this`files, this`written, this`buf, this`images
      ensures St() == FlushedBy(old(St()), count)
      ensures images == old(images) + [DiskOf(St())]
    {
      var k := if count < |buf| then count else |buf|;
      files := files[openName := ContentsOf(files, openName) + buf[..k]];
      written := written + buf[..k];
      buf := buf[k..];
      Record();
    }

    /** openNewIncrAofForAppend: create the next INCR file, persist the manifest that names it, then switch to it. */
    method OpenNewIncr(openWorks: bool, persist: Persist) returns (ok: bool)
      modifies this`files, this`disk, this`mem, this`openName, this`images
      ensures ok <==> openWorks && persist == Done
      ensures St() == Opened(old(St()), openWorks, persist)
      ensures images == old(images) + OpenImages(old(St()), openWorks, persist)
    {
      if !openWorks { return false; }
      ghost var st := St();
      var next := NewIncr(mem);
      files := files[next.name := []];
      assert St() == Created(st);
      Record();
      if persist == FailedBefore { return false; }
      disk := WithNewIncr(mem);
      assert St() == Named(Created(st));
      Record();
      if persist == FailedAfter { return false; }
      mem, openName := WithNewIncr(mem), next.name;
      return true;
    }

    /** rewriteAppendOnlyFileBackground: flush, open the next INCR file, fork. Any step may fail. */
    method StartRewrite(shortBy: nat, openWorks: bool, persist: Persist, forkWorks: bool) returns (ok: bool)
      modifies this
      ensures ok <==> Forks(old(St()), openWorks, persist, forkWorks)
      ensures St() == Started(old(St()), shortBy, openWorks, persist, forkWorks)
      ensures images == old(images) + StartImages(old(St()), shortBy, openWorks, persist)
    {
      hide Opened, OpenImages, FlushedBy;
      if child.Some? { return false; }
      FlushCommands(if shortBy < |buf| then |buf| - shortBy else 0);
      assert St() == BeforeOpen(old(St()), shortBy);
      assert St().child.None? by { BeforeOpenChild(old(St()), shortBy); }
      ghost var st := St();
      var switched := OpenNewIncr(openWorks, persist);
      assert St().child.None?;
      if !switched || !forkWorks { return false; }
      child := Some(Child(written + buf, buf));
      return true;
    }

    /** The child ended badly: nothing on disk changes. */
    method RewriteFailed()
      modifies this`child
      ensures St() == After(old(St()), ChildFailed)
    {
      child := None;
    }

    /** aofDelHistoryFiles: unlink file by file, then persist the shortened manifest. */
    method DeleteHistory(gcPersist: Persist)
      modifies this`files, this`mem, this`disk, this`images
      ensures St() == Cleaned(old(St()), gcPersist)
      ensures images == old(images) + CleanImages(old(St()), gcPersist)
    {
      if mem.history == [] { return; }
      while mem.history != []
        invariant Swept(St()) == Swept(old(St()))
        invariant images + SweepImages(St()) == old(images) + SweepImages(old(St()))
        decreases |mem.history|
      {
        ghost var st := St();
        files := files - {mem.history[0].name};
        mem := mem.(history := mem.history[1..]);
        assert St() == Forgotten(st);
        assert images + SweepImages(st) == images + [DiskOf(St())] + SweepImages(St());
        Record();
      }
      ghost var more := SweepImages(old(St()));
      assert images == old(images) + more && more + [] == more;
      if gcPersist != FailedBefore {
        disk := mem;
        Record();
        assert images == old(images) + (more + [DiskOf(St())]);
      }
    }

    /** markRewrittenIncrAofAsHistory: newest first, each moved to the head of the history. */
    method MarkRewritten(m: Manifest) returns (r: Manifest)
      ensures r == WithoutRewritten(m)
    {
      r := m;
      if m.incr == [] { return; }
      var i := |m.incr| - 1;
      while i > 0
        invariant 0 <= i < |m.incr|
        invariant r.base == m.base && r.incr == m.incr[..i] + m.incr[|m.incr| - 1..]
        invariant r.history == RetireAll(m.incr[i..|m.incr| - 1]) + m.history
      {
        i := i - 1;
        r := r.(history := [Retired(m.incr[i])] + r.history, incr := r.incr[..i] + r.incr[i + 1..]);
        assert RetireAll(m.incr[i..|m.incr| - 1]) == [Retired(m.incr[i])] + RetireAll(m.incr[i + 1..|m.incr| - 1]);
      }
    }

    /** The temporary file of the child gets its final name. */
    method RenameBase(rdb: bool)
      requires child.Some?
      modifies this`files, this`images
      ensures St() == BaseRenamed(old(St()), rdb)
      ensures images == old(images) + [DiskOf(St())]
    {
      files := files[NewBase(mem, rdb).name := child.value.snapshot];
      Record();
    }

    /** The manifest was not persisted: the new BASE is unlinked again. */
    method DropBase(rdb: bool, onDisk: bool, m: Manifest)
      requires m == Rewritten(mem, rdb)
      modifies this`files, this`disk, this`images
      ensures var t := if onDisk then BaseNamedOnDisk(old(St()), rdb) else old(St());
              && St() == BaseDropped(t, rdb)
              && images == old(images) + (if onDisk then [DiskOf(t)] else []) + [DiskOf(BaseDropped(t, rdb))]
    {
      hide Rewritten;
      if onDisk {
        disk := m;
        Record();
      }
      files := files - {NewBase(mem, rdb).name};
      Record();
    }

    /** The manifest was persisted: it is in force. */
    method InstallBase(rdb: bool, m: Manifest)
      requires m == Rewritten(mem, rdb)
      modifies this`mem, this`disk, this`child, this`images
      ensures St() == Installed(old(St()), rdb)
      ensures images == old(images) + [DiskOf(St())]
    {
      hide Rewritten;
      disk, mem, child := m, m, None;
      Record();
    }

    /**
     backgroundRewriteDoneHandler after a clean exit: rename the child's file to a new BASE
     name, persist the manifest that names it, then delete what it replaces.
     */
    method RewriteDone(rdb: bool, renameWorks: bool, persist: Persist, gc: bool, gcPersist: Persist)
      requires child.Some?
      modifies this`files, this`mem, this`disk, this`child, this`images
      ensures St() == Completed(old(St()), rdb, renameWorks, persist, gc, gcPersist)
      ensures images == old(images) + DoneImages(old(St()), rdb, renameWorks, persist, gc, gcPersist)
    {
      hide Cleaned, CleanImages, WithoutRewritten, WithNewBase, BaseRenamed, BaseNamedOnDisk, BaseDropped, Installed,
        DiskOf;
      if renameWorks {
        RenameBase(rdb);
        var m := MarkRewritten(WithNewBase(mem, rdb));
        if persist != Done {
          DropBase(rdb, persist == FailedAfter, m);
        } else {
          InstallBase(rdb, m);
          if gc { DeleteHistory(gcPersist); }
          return;
        }
      }
      child := None;
    }

    /** Crash and start again from the disk as it is: buffered commands are lost. */
    method Reload()
      requires disk.incr != []
      modifies this`mem, this`openName, this`buf, this`child
      ensures St() == Restarted(DiskOf(old(St())))
    {
      mem, openName, buf, child := disk, disk.incr[|disk.incr| - 1].name, [], None;
    }

    /** One event of a run. */
    method Step(e: Event)
      modifies this
      ensures St() == After(old(St()), e) && images == old(images) + Images(old(St()), e)
    {
      hide FlushedBy, Started, StartImages, Completed, DoneImages, Cleaned, CleanImages;
      assert images + [] == images;
      match e {
        case Feed(cmd) => FeedCommand(cmd);
        case Flush(count) => FlushCommands(count);
        case Start(shortBy, openWorks, persist, forkWorks) =>
          var _ := StartRewrite(shortBy, openWorks, persist, forkWorks);
        case ChildFailed => RewriteFailed();
        case ChildDone(rdb, renameWorks, persist, gc, gcPersist) =>
          if child.Some? { RewriteDone(rdb, renameWorks, persist, gc, gcPersist); }
        case DeleteHistory(gcPersist) => DeleteHistory(gcPersist);
        case Restart => if disk.incr != [] { Reload(); }
      }
    }

    /**
     A whole run, with crashes and restarts anywhere between its steps. Its crash points are the disks
     after every single disk step; all of them recover exactly the commands written up to them if and
     only if no completed rewrite meets one of the two guards of AfterDoneRecovers.
     */
    method Run(events: seq<Event>)
      requires Valid()
      modifies this
      ensures St() == Final(old(St()), events)
      ensures images == old(images) + CrashPoints(old(St()), events)
      ensures AllRecover(images) <==> !AnyBreaks(old(St()), events)
      ensures !AnyBreaks(old(St()), events) ==> Valid()
      ensures written + buf == Surviving(old(St()), events)
    {
      hide Safe, After, Images, AllRecover;
      assert images + [] == images;
      for i := 0 to |events|
        invariant St() == Final(old(St()), events[..i])
        invariant images == old(images) + CrashPoints(old(St()), events[..i])
      {
        ghost var st := St();
        assert events[..i + 1][..i] == events[..i];
        Step(events[i]);
        assert images == old(images) + (CrashPoints(old(St()), events[..i]) + Images(st, events[i]));
      }
      assert events[..|events|] == events;
      RunRecovers(old(St()), old(images), events);
      RunKeepsDataset(old(St()), events);
    }
  }

  lemma BeforeOpenChild(st: State, shortBy: nat)
    ensures BeforeOpen(st, shortBy).child == st.child
  {
  }
}
