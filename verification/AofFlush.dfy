/**
 flushAppendOnlyFile and aofWrite: the pending buffer, the open log file with its offset, the
 sizes the server keeps about it, and what is known to be on disk, through short writes,
 failed truncations, postponed flushes, failed background fsyncs and the three fsync policies.
 */
module AofFlush {

  import AofFormat

  type byte = AofFormat.byte

  datatype Policy = No | Everysec | Always

  /** What one write(2) call does; a script of these drives aofWrite. */
  datatype WriteOutcome = Wrote(n: nat) | Interrupted | Failed

  /** What the outside world contributes to one flush. */
  datatype World = World(
    now: int,                     // server.mstime
    childActive: bool,            // hasActiveChildProcess()
    writes: seq<WriteOutcome>,    // results of write(2); past the end, writes complete
    truncateWorks: bool,          // ftruncate(2) succeeds
    fsyncWorks: bool)             // the foreground fsync succeeds

  /** exit(1) ends the server; otherwise the flush returns. */
  datatype Outcome = Returned | Exited

  datatype Event =
    | Feed(bytes: seq<byte>)
    | Flush(force: bool, world: World)
    | SyncDone(works: bool)                   // the background fsync ends
    | SetPolicy(policy: Policy, works: bool)  // CONFIG SET; it may wait for the background fsync
    | NewFile(now: int)                       // a rewrite switches to a new INCR file

  /** All bytes a run of events fed, in order. */
  function FedBy(events: seq<Event>): seq<byte> {
    if events == [] then []
    else
      var last := events[|events| - 1];
      FedBy(events[..|events| - 1]) + (if last.Feed? then last.bytes else [])
  }

  function Max(a: nat, b: nat): nat { if a < b then b else a }

  function Min(a: nat, b: nat): nat { if a < b then a else b }

  // ---------------------------------------------------------------- the log

  /** What the server and the disk know of the log. */
  datatype Log = Log(
    policy: Policy,          // aof_fsync
    append: bool,            // the open file has O_APPEND
    closed: seq<byte>,       // contents of the files before the open one
    file: seq<byte>,         // contents of the open file
    offset: nat,             // its file offset
    buf: seq<byte>,          // aof_buf
    size: nat,               // aof_last_incr_size
    fsync: nat,              // aof_last_incr_fsync_offset
    postponed: int,          // aof_flush_postponed_start
    synced: int,             // aof_last_fsync
    running: bool,           // aofFsyncInProgress()
    durable: nat,            // length of the open file that is on disk
    handed: nat)             // length of the open file that the last background fsync got, 0 for none

  /** Zero bytes. */
  function Zeros(n: nat): seq<byte> { seq(n, _ => 0) }

  /** write(2) at or behind the end of a file; writing nothing does not even fill the gap. */
  function WriteAt(file: seq<byte>, at: nat, bytes: seq<byte>): seq<byte>
    requires at >= |file|
  {
    if bytes == [] then file else file + Zeros(at - |file|) + bytes
  }

  function Position(s: Log): nat { if s.append then |s.file| else s.offset }

  predicate Placed(s: Log) { s.size <= |s.file| && (s.append || |s.file| <= s.offset) }

  /** How many of n bytes a script of write(2) results gets written. */
  function Accepted(writes: seq<WriteOutcome>, n: nat): (k: nat)
    ensures k <= n
  {
    if n == 0 || writes == [] then n
    else match writes[0]
      case Interrupted => Accepted(writes[1..], n)
      case Failed => 0
      case Wrote(m) => Min(m, n) + Accepted(writes[1..], n - Min(m, n))
  }

  /** A short write that ftruncate takes back. */
  predicate Undone(s: Log, w: World) { 0 < Accepted(w.writes, |s.buf|) < |s.buf| && w.truncateWorks }

  /** The log after one attempt to write the buffer. */
  function Transfer(s: Log, w: World): Log
    requires Placed(s)
  {
    var k := Accepted(w.writes, |s.buf|);
    var t := Landed(s, k);
    if Undone(s, w) then Clipped(t.(file := t.file[..s.size])) else t.(buf := s.buf[k..], size := s.size + k)
  }

  /** The log when k bytes have reached the file. */
  function Landed(s: Log, k: nat): Log
    requires Placed(s) && k <= |s.buf|
  {
    s.(file := WriteAt(s.file, Position(s), s.buf[..k]),
       offset := if k == 0 then s.offset else Position(s) + k, postponed := 0)
  }

  lemma LandedSame(s: Log, k: nat)
    requires Placed(s) && k <= |s.buf|
    ensures var t := Landed(s, k); t.buf == s.buf && t.size == s.size && t.policy == s.policy && t.size <= |t.file|
  {
  }

  /** The three ways an attempt can end. */
  lemma TransferCases(s: Log, w: World)
    requires Placed(s) && s.buf != []
    ensures var k := Accepted(w.writes, |s.buf|);
            var t := Landed(s, k);
            && (k == 0 ==> Transfer(s, w) == t)
            && (Undone(s, w) ==> s.size <= |t.file| && Transfer(s, w) == Clipped(t.(file := t.file[..s.size])))
            && (k > 0 && !Undone(s, w) ==> Transfer(s, w) == t.(buf := s.buf[k..], size := s.size + k))
  {
    if Accepted(w.writes, |s.buf|) == 0 { assert s.buf[0..] == s.buf; }
  }

  /** What is on disk of a file that was cut. */
  function Clipped(s: Log): Log {
    s.(durable := Min(s.durable, |s.file|), handed := Min(s.handed, |s.file|))
  }

  /** The flush writes, unless there is nothing to write or it is postponed behind a background fsync. */
  predicate Attempts(s: Log, force: bool, now: int) {
    s.buf != [] && !(s.policy == Everysec && !force && s.running && (s.postponed == 0 || now - s.postponed < 2000))
  }

  /** No byte is lost, repeated or invented, and the size is the file's. */
  predicate Conserves(s: Log, fed: seq<byte>) { s.closed + s.file + s.buf == fed && s.size == |s.file| }

  /** The next write lands at the end of the file. */
  predicate AtEnd(s: Log) { s.append || s.offset == |s.file| }

  /**
   Writing conserves the bytes exactly if it lands at the end of the file, or nothing of it is
   kept: in a file without O_APPEND the offset stays where a short write ended, also after
   ftruncate took that write back.
   */
  lemma TransferConserves(s: Log, w: World, fed: seq<byte>)
    requires Placed(s) && Conserves(s, fed)
    ensures Placed(Transfer(s, w))
    ensures Conserves(Transfer(s, w), fed) <==> AtEnd(s) || Transfer(s, w).buf == s.buf
  {
    var k := Accepted(w.writes, |s.buf|);
    var t := Transfer(s, w);
    if Undone(s, w) {
      assert t.file == s.file;
    } else if k == 0 {
      assert t.file == s.file && t.buf == s.buf;
    } else {
      assert t.file == s.file + Zeros(Position(s) - |s.file|) + s.buf[..k];
      assert s.buf == s.buf[..k] + s.buf[k..];
      if AtEnd(s) {
        assert s.closed + t.file + t.buf == s.closed + s.file + s.buf;
      } else {
        assert |t.closed + t.file + t.buf| > |fed|;
      }
    }
  }

  /** The offset leaves the end of a file exactly by a short write that is taken back. */
  lemma TransferAtEnd(s: Log, w: World)
    requires Placed(s) && AtEnd(s) && s.size == |s.file|
    ensures AtEnd(Transfer(s, w)) <==> s.append || !Undone(s, w)
  {
    var k := Accepted(w.writes, |s.buf|);
    if Undone(s, w) { assert Transfer(s, w).file == s.file; }
  }

  /** A file without O_APPEND, a short write that is taken back, then a complete one: a zero byte in the log. */
  lemma HoleAfterTruncation(s: Log, w: World, w': World, a: byte, b: byte)
    requires !s.append && s.file == s.closed == [] && s.offset == s.size == 0 && s.buf == [a, b]
    requires w.writes == [Wrote(1), Failed] && w.truncateWorks && w'.writes == []
    ensures var t := Transfer(s, w);
            && Conserves(t, [a, b]) && t.offset == 1
            && Transfer(t, w').file == [0, a, b] && Transfer(t, w').size == 2
  {
    assert Accepted([Failed], 1) == 0;
    assert w.writes[1..] == [Failed];
    assert Accepted(w.writes, 2) == 1;
    var t := Transfer(s, w);
    assert t.file == [];
    assert Zeros(1) == [0];
    assert Transfer(t, w').file == [] + Zeros(1) + [a, b];
  }

  // ---------------------------------------------------------------- runs

  /** The end of a background fsync. */
  function Synced(s: Log, works: bool): Log {
    if !s.running then s
    else if works then s.(running := false, durable := Max(s.durable, s.handed))
    else s.(running := false)
  }

  /** openNewIncrAofForAppend: an empty file, without O_APPEND. */
  function Reopened(s: Log, now: int): Log {
    s.(closed := s.closed + s.file, file := [], append := false, offset := 0, size := 0, fsync := 0,
       synced := now, durable := 0, handed := 0)
  }

  /** no-appendfsync-on-rewrite is on, and a child runs. */
  predicate Skips(w: World, noFsync: bool) { noFsync && w.childActive }

  /** The try_fsync part: in the foreground under "always", in the background at most once a second. */
  function Fsynced(s: Log, w: World, noFsync: bool): Log {
    if Skips(w, noFsync) then s
    else if s.policy == Always then s.(durable := |s.file|, fsync := s.size, synced := w.now)
    else if s.policy == Everysec && w.now - s.synced >= 1000 then
      (if s.running then s else s.(handed := |s.file|, running := true, fsync := s.size)).(synced := w.now)
    else s
  }

  /** An fsync is tried although there is nothing to write. */
  predicate FsyncDue(s: Log, now: int) {
    s.fsync != s.size && (s.policy == Always || (s.policy == Everysec && now - s.synced >= 1000 && !s.running))
  }

  /** flushAppendOnlyFile, if it returns. */
  function Flushed(s: Log, force: bool, w: World, noFsync: bool): Log
    requires Placed(s)
  {
    if s.buf == [] then (if FsyncDue(s, w.now) then Fsynced(s, w, noFsync) else s)
    else if !Attempts(s, force, w.now) then (if s.postponed == 0 then s.(postponed := w.now) else s)
    else
      var t := Transfer(s, w);
      if t.buf == [] then Fsynced(t, w, noFsync) else t
  }

  /** The flush gets to the foreground fsync. */
  predicate SyncsNow(s: Log, w: World, noFsync: bool) {
    && s.policy == Always && !Skips(w, noFsync)
    && (if s.buf == [] then s.fsync != s.size else Accepted(w.writes, |s.buf|) == |s.buf|)
  }

  /** The flush ends the server: under "always", by a write that is not complete or an fsync that fails. */
  predicate Dies(s: Log, w: World, noFsync: bool) {
    || (s.policy == Always && s.buf != [] && Accepted(w.writes, |s.buf|) < |s.buf|)
    || (SyncsNow(s, w, noFsync) && !w.fsyncWorks)
  }

  /** The event takes the log from s to t. */
  predicate Next(s: Log, e: Event, t: Log, noFsync: bool) {
    Placed(s) && match e
      case Feed(bytes) => t == s.(buf := s.buf + bytes)
      case SyncDone(works) => t == Synced(s, works)
      case SetPolicy(p, works) => t == (if p == Always then Synced(s, works) else s).(policy := p)
      case NewFile(now) => t == Reopened(s, now)
      case Flush(force, w) => !Dies(s, w, noFsync) && t == Flushed(s, force, w, noFsync)
  }

  /** The same bytes at the same places. */
  predicate SameBytes(s: Log, t: Log) {
    && s.policy == t.policy && s.append == t.append && s.closed == t.closed
    && s.file == t.file && s.offset == t.offset && s.buf == t.buf && s.size == t.size
  }

  lemma FlushedBytes(s: Log, force: bool, w: World, noFsync: bool)
    requires Placed(s)
    ensures SameBytes(Flushed(s, force, w, noFsync), if Attempts(s, force, w.now) then Transfer(s, w) else s)
  {
    hide Transfer;
  }

  predicate Trace(states: seq<Log>, events: seq<Event>, noFsyncOnRewrite: bool) {
    |states| == |events| + 1 &&
    forall i :: 0 <= i < |events| ==> Next(states[i], events[i], states[i + 1], noFsyncOnRewrite)
  }

  /** The event keeps bytes that it does not write at the end of the file. */
  predicate Misplaces(s: Log, e: Event) {
    e.Flush? && Placed(s) && Attempts(s, e.force, e.world.now) && !AtEnd(s) && Transfer(s, e.world).buf != s.buf
  }

  /** The event takes a short write back, in a file without O_APPEND. */
  predicate TakesBack(s: Log, e: Event) {
    e.Flush? && Attempts(s, e.force, e.world.now) && !s.append && Undone(s, e.world)
  }

  lemma NextConserves(s: Log, e: Event, t: Log, fed: seq<byte>, noFsync: bool)
    requires Next(s, e, t, noFsync) && Conserves(s, fed)
    ensures Conserves(t, fed + if e.Feed? then e.bytes else []) <==> !Misplaces(s, e)
  {
    match e
    case Feed(bytes) => assert s.closed + s.file + (s.buf + bytes) == s.closed + s.file + s.buf + bytes;
    case Flush(force, w) =>
      assert fed + [] == fed;
      FlushedBytes(s, force, w, noFsync);
      if Attempts(s, force, w.now) { TransferConserves(s, w, fed); }
      hide Flushed, Transfer;
    case NewFile(_) => assert s.closed + s.file + [] + s.buf == fed && fed + [] == fed;
    case _ => assert fed + [] == fed;
  }

  /** After each of the first n events the log holds what was fed so far. */
  predicate AllConserve(states: seq<Log>, events: seq<Event>, fed: seq<byte>, n: nat)
    requires n <= |events| < |states|
  {
    forall i :: 0 <= i <= n ==> Conserves(states[i], fed + FedBy(events[..i]))
  }

  lemma FedNext(events: seq<Event>, n: nat, fed: seq<byte>)
    requires n < |events|
    ensures fed + FedBy(events[..n + 1]) == fed + FedBy(events[..n]) + if events[n].Feed? then events[n].bytes else []
  {
    assert events[..n + 1][..n] == events[..n];
  }

  /** Over any run, the bytes are conserved after every event exactly if no event misplaces its bytes. */
  lemma {:induction false} RunConserves(states: seq<Log>, events: seq<Event>, fed: seq<byte>, noFsync: bool, n: nat)
    requires Trace(states, events, noFsync) && Conserves(states[0], fed) && n <= |events|
    ensures AllConserve(states, events, fed, n) <==> forall i :: 0 <= i < n ==> !Misplaces(states[i], events[i])
  {
    hide Next, Conserves, Misplaces;
    if n == 0 {
      assert events[..0] == [] && fed + [] == fed;
    } else {
      RunConserves(states, events, fed, noFsync, n - 1);
      FedNext(events, n - 1, fed);
      if Conserves(states[n - 1], fed + FedBy(events[..n - 1])) {
        NextConserves(states[n - 1], events[n - 1], states[n], fed + FedBy(events[..n - 1]), noFsync);
      }
    }
  }

  /** Nothing is misplaced while no short write is taken back, so then every byte is conserved. */
  lemma {:induction false} NothingMisplaced(states: seq<Log>, events: seq<Event>, fed: seq<byte>, noFsync: bool, n: nat)
    requires Trace(states, events, noFsync) && Conserves(states[0], fed) && AtEnd(states[0]) && n <= |events|
    requires forall i :: 0 <= i < n ==> !TakesBack(states[i], events[i])
    ensures AllConserve(states, events, fed, n) && AtEnd(states[n])
  {
    hide Next, Conserves, TakesBack, AtEnd;
    if n == 0 {
      assert events[..0] == [] && fed + [] == fed;
    } else {
      NothingMisplaced(states, events, fed, noFsync, n - 1);
      FedNext(events, n - 1, fed);
      StaysAtEnd(states[n - 1], events[n - 1], states[n], fed + FedBy(events[..n - 1]), noFsync);
    }
  }

  lemma StaysAtEnd(s: Log, e: Event, t: Log, fed: seq<byte>, noFsync: bool)
    requires Next(s, e, t, noFsync) && Conserves(s, fed) && AtEnd(s) && !TakesBack(s, e)
    ensures Conserves(t, fed + if e.Feed? then e.bytes else []) && AtEnd(t)
  {
    NextConserves(s, e, t, fed, noFsync);
    if e.Flush? {
      FlushedBytes(s, e.force, e.world, noFsync);
      if Attempts(s, e.force, e.world.now) { TransferAtEnd(s, e.world); }
      hide Flushed;
    }
  }

  // ---------------------------------------------------------------- what is on disk

  /**
   Of the bytes of the open file, those up to the fsync offset were given to an fsync. They are on
   disk, unless that fsync still runs, or ran in the background and failed.
   */
  predicate Steady(s: Log, failed: bool) {
    && s.size == |s.file| && s.durable <= s.fsync <= s.size
    && (if s.running && s.handed > 0 then s.handed == s.fsync && s.durable < s.fsync
        else s.durable == s.fsync <==> !failed)
    && (s.policy == Always ==> !s.running)
  }

  /** Whether the last fsync of the open file failed after an event, if it had before. */
  predicate FailedAfter(s: Log, e: Event, noFsync: bool, failed: bool) {
    match e
    case SyncDone(works) => if s.running && s.handed > 0 then !works else failed
    case SetPolicy(p, works) => if p == Always && s.running && s.handed > 0 then !works else failed
    case NewFile(_) => false
    case Flush(_, w) => failed && !SyncsNow(s, w, noFsync)
    case Feed(_) => failed
  }

  /** The last fsync among the first n events that ended failed, in the file that is open then. */
  predicate LastFailed(states: seq<Log>, events: seq<Event>, noFsync: bool, n: nat)
    requires n <= |events| < |states|
  {
    n > 0 && FailedAfter(states[n - 1], events[n - 1], noFsync, LastFailed(states, events, noFsync, n - 1))
  }

  lemma FsyncedSteady(s: Log, w: World, noFsync: bool, failed: bool)
    requires Steady(s, failed) && (s.policy == Everysec && !s.running ==> s.fsync < s.size)
    ensures Steady(Fsynced(s, w, noFsync), failed && !(s.policy == Always && !Skips(w, noFsync)))
  {
  }

  lemma TransferSteady(s: Log, w: World, failed: bool)
    requires Placed(s) && Steady(s, failed) && Transfer(s, w).size == |Transfer(s, w).file|
    ensures Steady(Transfer(s, w), failed)
    ensures s.buf != [] && Transfer(s, w).buf == [] ==> s.fsync < Transfer(s, w).size
    ensures Transfer(s, w).policy == s.policy && Transfer(s, w).fsync == s.fsync
    ensures s.buf != [] ==> (Transfer(s, w).buf == [] <==> Accepted(w.writes, |s.buf|) == |s.buf|)
  {
    var k := Accepted(w.writes, |s.buf|);
    if Undone(s, w) {
      assert Transfer(s, w).file == s.file;
    } else {
      assert |Transfer(s, w).file| == |s.file| + k;
    }
  }

  lemma FlushedSteady(s: Log, force: bool, w: World, noFsync: bool, failed: bool)
    requires Placed(s) && Steady(s, failed) && !Dies(s, w, noFsync)
    requires Flushed(s, force, w, noFsync).size == |Flushed(s, force, w, noFsync).file|
    ensures Steady(Flushed(s, force, w, noFsync), failed && !SyncsNow(s, w, noFsync))
  {
    FlushedBytes(s, force, w, noFsync);
    if s.buf == [] {
      hide Steady;
      if FsyncDue(s, w.now) { DueSteady(s, w, noFsync, failed); }
    } else if Attempts(s, force, w.now) {
      TransferSteady(s, w, failed);
      hide Transfer, Accepted;
      var t := Transfer(s, w);
      if t.buf == [] { FsyncedSteady(t, w, noFsync, failed); }
    }
  }

  lemma DueSteady(s: Log, w: World, noFsync: bool, failed: bool)
    requires Steady(s, failed) && FsyncDue(s, w.now)
    ensures Steady(Fsynced(s, w, noFsync), failed && !(s.policy == Always && !Skips(w, noFsync)))
  {
    FsyncedSteady(s, w, noFsync, failed);
  }

  lemma NextSteady(s: Log, e: Event, t: Log, noFsync: bool, failed: bool)
    requires Next(s, e, t, noFsync) && Steady(s, failed) && t.size == |t.file|
    ensures Steady(t, FailedAfter(s, e, noFsync, failed))
  {
    if e.Flush? {
      FlushedSteady(s, e.force, e.world, noFsync, failed);
      hide Flushed, Dies, SyncsNow, Steady;
    }
  }

  /** Over any run that misplaces nothing, the fsync offset says what is on disk. */
  lemma {:induction false} RunSteady(states: seq<Log>, events: seq<Event>, fed: seq<byte>, noFsync: bool, n: nat)
    requires Trace(states, events, noFsync) && Conserves(states[0], fed) && Steady(states[0], false) && n <= |events|
    requires forall j :: 0 <= j < n ==> !Misplaces(states[j], events[j])
    ensures Steady(states[n], LastFailed(states, events, noFsync, n))
  {
    hide Next, Misplaces, Steady, FailedAfter;
    if n > 0 {
      RunSteady(states, events, fed, noFsync, n - 1);
      RunConserves(states, events, fed, noFsync, n);
      assert Conserves(states[n], fed + FedBy(events[..n]));
      NextSteady(states[n - 1], events[n - 1], states[n], noFsync, LastFailed(states, events, noFsync, n - 1));
    }
  }

  /**
   Over any run: after a flush under "always" that returns, all bytes fed so far are in the files, and
   the open one is on disk, exactly if the flush found something to do or the last fsync had not failed.
   */
  lemma RunDurable(states: seq<Log>, events: seq<Event>, fed: seq<byte>, noFsync: bool, i: nat)
    requires Trace(states, events, noFsync) && Conserves(states[0], fed) && Steady(states[0], false) && i < |events|
    requires forall j :: 0 <= j <= i ==> !Misplaces(states[j], events[j])
    requires events[i].Flush? && states[i].policy == Always && !Skips(events[i].world, noFsync)
    ensures var s, t := states[i], states[i + 1];
            && t.closed + t.file == fed + FedBy(events[..i + 1]) && t.buf == []
            && (t.durable == |t.file| <==>
                  SyncsNow(s, events[i].world, noFsync) || !LastFailed(states, events, noFsync, i))
  {
    RunConserves(states, events, fed, noFsync, i + 1);
    RunSteady(states, events, fed, noFsync, i + 1);
    hide Misplaces, FedBy, Transfer;
    var s, t := states[i], states[i + 1];
    assert Next(s, events[i], t, noFsync);
    assert Conserves(t, fed + FedBy(events[..i + 1]));
    AlwaysFlushed(s, events[i].force, events[i].world, noFsync);
    assert t.closed + t.file + [] == t.closed + t.file;
  }

  lemma AlwaysFlushed(s: Log, force: bool, w: World, noFsync: bool)
    requires Placed(s) && s.policy == Always && !Skips(w, noFsync) && !Dies(s, w, noFsync)
    ensures var t := Flushed(s, force, w, noFsync); t.buf == [] && t.fsync == t.size && t.policy == Always
  {
    TransferFacts(s, w);
    hide Transfer;
  }

  /** The log of a server that starts with an empty file. */
  function Initial(policy: Policy, contents: seq<byte>): Log {
    Log(policy, true, [], contents, 0, [], |contents|, |contents|, 0, 0, false, |contents|, 0)
  }

  /** Every run of a server starts in a log that conserves what is in its file, all of it on disk. */
  lemma InitialSteady(policy: Policy, contents: seq<byte>)
    ensures var s := Initial(policy, contents);
            Placed(s) && Conserves(s, contents) && AtEnd(s) && Steady(s, false)
  {
    assert [] + contents + [] == contents;
  }

  // ---------------------------------------------------------------- the server

  class Aof {
    const noFsyncOnRewrite: bool

    var policy: Policy
    var append: bool
    var file: seq<byte>
    var offset: nat
    var buf: seq<byte>
    var lastIncrSize: nat
    var currentSize: nat          // aof_current_size
    var fsyncOffset: nat
    var postponedStart: int
    var lastFsync: int            // aof_last_fsync
    var delayedFsync: nat         // aof_delayed_fsync
    var writeOk: bool             // aof_last_write_status
    var running: bool

    ghost var closed: seq<byte>
    ghost var durable: nat
    ghost var handed: nat

    ghost function Now(): Log
      reads this
    {
      Log(policy, append, closed, file, offset, buf, lastIncrSize, fsyncOffset, postponedStart, lastFsync,
          running, durable, handed)
    }

    ghost predicate Valid()
      reads this
    {
      Placed(Now())
    }

    /** Server start: the last INCR file is opened with O_APPEND. */
    constructor (policy: Policy, noFsyncOnRewrite: bool, contents: seq<byte>)
      ensures Valid() && this.noFsyncOnRewrite == noFsyncOnRewrite
      ensures Now() == Initial(policy, contents)
    {
      this.policy, this.noFsyncOnRewrite := policy, noFsyncOnRewrite;
      append, file, offset, buf, closed := true, contents, 0, [], [];
      lastIncrSize, currentSize, fsyncOffset, durable := |contents|, |contents|, |contents|, |contents|;
      handed, running := 0, false;
      postponedStart, lastFsync, delayedFsync, writeOk := 0, 0, 0, true;
    }

    /** The tail of feedAppendOnlyFile: append to the buffer. */
    method Feed(bytes: seq<byte>)
      requires Valid()
      modifies this`buf
      ensures Valid() && Now() == old(Now()).(buf := old(buf) + bytes)
    {
      buf := buf + bytes;
    }

    /** A background fsync ends, well or not. */
    method SyncDone(works: bool)
      requires Valid()
      modifies this`running, this`durable
      ensures Valid() && Now() == Synced(old(Now()), works)
    {
      if running {
        running := false;
        if works { durable := Max(durable, handed); }
      }
    }

    /** updateAppendFsync: "always" waits for the background fsync first. */
    method SetPolicy(p: Policy, works: bool)
      requires Valid()
      modifies this`policy, this`running, this`durable
      ensures Valid()
      ensures Now() == (if p == Always then Synced(old(Now()), works) else old(Now())).(policy := p)
    {
      if p == Always { SyncDone(works); }
      policy := p;
    }

    /** The switch of openNewIncrAofForAppend to a file opened without O_APPEND. */
    method NewFile(now: int)
      requires Valid()
      modifies this`closed, this`file, this`append, this`offset, this`lastIncrSize, this`fsyncOffset, this`lastFsync,
               this`durable, this`handed
      ensures Valid() && Now() == Reopened(old(Now()), now)
    {
      assert Placed(Reopened(Now(), now));
      hide Placed;
      closed := closed + file;
      file, append, offset := [], false, 0;
      lastIncrSize, fsyncOffset, lastFsync := 0, 0, now;
      durable, handed := 0, 0;
    }

    /**
     aofWrite: retries interrupted and short writes, each at the offset the last one left. The
     count is -1 only if nothing was written.
     */
    method Write(writes: seq<WriteOutcome>) returns (nwritten: int)
      requires Placed(Now()) && buf != []
      modifies this`file, this`offset
      ensures var k := Accepted(writes, |buf|);
              && nwritten == (if k == 0 then -1 else k)
              && file == WriteAt(old(file), Position(old(Now())), buf[..k])
              && offset == if k == 0 then old(offset) else Position(old(Now())) + k
    {
      hide WriteAt, Accepted;
      ghost var start := Position(Now());
      var total, step := 0, 0;
      assert buf[..0] == [] && writes[0..] == writes;
      WriteNothing(file, start);
      while total < |buf|
        invariant 0 <= total <= |buf| && 0 <= step <= |writes|
        invariant file == WriteAt(old(file), start, buf[..total])
        invariant |file| == (if total == 0 then |old(file)| else start + total)
        invariant offset == (if total == 0 then old(offset) else start + total)
        invariant total + Accepted(writes[step..], |buf| - total) == Accepted(writes, |buf|)
        decreases |writes| - step, |buf| - total
      {
        var n := |buf| - total;
        AcceptedStep(writes, step, n);
        if step < |writes| {
          var outcome := writes[step];
          step := step + 1;
          if outcome.Interrupted? { continue; }
          if outcome.Failed? { return if total > 0 then total else -1; }
          n := Min(outcome.n, n);
        }
        WriteTwice(old(file), start, buf[..total], buf[total..total + n]);
        assert buf[..total + n] == buf[..total] + buf[total..total + n];
        if n > 0 {
          var at := if append then |file| else offset;
          file := WriteAt(file, at, buf[total..total + n]);
          offset := at + n;
        }
        total := total + n;
      }
      AcceptedNone(writes[step..]);
      nwritten := total;
    }

    /** The write itself, which also ends a postponement. */
    method Land(w: World) returns (nwritten: int)
      requires Placed(Now()) && buf != []
      modifies this`file, this`offset, this`postponedStart
      ensures var k := Accepted(w.writes, |buf|);
              nwritten == (if k == 0 then -1 else k) && Now() == Landed(old(Now()), k)
    {
      hide WriteAt, Accepted;
      nwritten := Write(w.writes);
      postponedStart := 0;
    }

    /** ftruncate back to the recorded size; the file offset stays where it is. */
    method TakeBack()
      requires lastIncrSize <= |file|
      modifies this`file, this`durable, this`handed
      ensures Now() == Clipped(old(Now()).(file := old(file)[..lastIncrSize]))
    {
      file := file[..lastIncrSize];
      durable, handed := Min(durable, |file|), Min(handed, |file|);
    }

    /** The first n bytes of the buffer are in the file for good. */
    method Settle(n: nat)
      requires n <= |buf|
      modifies this`buf, this`lastIncrSize, this`currentSize
      ensures Now() == old(Now()).(buf := old(buf)[n..], size := old(lastIncrSize) + n)
      ensures currentSize - old(currentSize) == lastIncrSize - old(lastIncrSize)
    {
      currentSize, lastIncrSize := currentSize + n, lastIncrSize + n;
      buf := buf[n..];
    }

    /** An error or a short write: fatal under "always", otherwise undone or remembered. */
    method HandleShort(count: int, w: World, ghost s: Log) returns (outcome: Outcome)
      requires Placed(s) && s.buf != []
      requires var k := Accepted(w.writes, |s.buf|);
               k < |s.buf| && count == (if k == 0 then -1 else k) && Now() == Landed(s, k)
      modifies this`file, this`buf, this`lastIncrSize, this`currentSize, this`writeOk, this`durable, this`handed
      ensures outcome == Exited <==> policy == Always
      ensures outcome == Returned ==> Now() == Transfer(s, w) && !writeOk
      ensures outcome == Returned ==> currentSize - old(currentSize) == lastIncrSize - old(lastIncrSize)
    {
      TransferCases(s, w);
      LandedSame(s, Accepted(w.writes, |s.buf|));
      hide Transfer, Accepted, Clipped, Landed;
      var nwritten := count;
      if nwritten != -1 && w.truncateWorks {
        TakeBack();
        nwritten := -1;
      }
      if policy == Always { return Exited; }
      writeOk := false;
      if nwritten > 0 { Settle(nwritten); }
      return Returned;
    }

    /**
     The write of a non-empty buffer and its error handling. A short write is undone by
     ftruncate; if that fails too, the bytes that got through leave the buffer.
     */
    method WriteBuffer(w: World) returns (outcome: Outcome, complete: bool)
      requires Valid() && buf != []
      modifies this`file, this`offset, this`buf, this`lastIncrSize, this`currentSize, this`postponedStart, this`writeOk,
               this`durable, this`handed
      ensures complete <==> Accepted(w.writes, |old(buf)|) == |old(buf)|
      ensures outcome == Exited <==> policy == Always && !complete
      ensures outcome == Returned ==> Valid() && Now() == Transfer(old(Now()), w) && (complete <==> writeOk)
      ensures outcome == Returned ==> currentSize - old(currentSize) == lastIncrSize - old(lastIncrSize)
    {
      ghost var s := Now();
      TransferPlaced(s, w);
      TransferCases(s, w);
      LandedSame(s, Accepted(w.writes, |buf|));
      hide Transfer, Accepted, Clipped, Landed;
      var nwritten := Land(w);
      if nwritten != |buf| {
        outcome := HandleShort(nwritten, w, s);
        return outcome, false;
      }
      writeOk := true;
      Settle(nwritten);
      return Returned, true;
    }

    /** The try_fsync part. */
    method TryFsync(w: World, syncInProgress: bool) returns (outcome: Outcome)
      requires Valid() && (policy == Everysec ==> syncInProgress == running)
      modifies this`fsyncOffset, this`lastFsync, this`durable, this`handed, this`running
      ensures outcome == Exited <==> policy == Always && !w.fsyncWorks && !Skips(w, noFsyncOnRewrite)
      ensures outcome == Returned ==> Valid() && Now() == Fsynced(old(Now()), w, noFsyncOnRewrite)
    {
      if noFsyncOnRewrite && w.childActive { return Returned; }
      if policy == Always {
        if !w.fsyncWorks { return Exited; }
        durable := |file|;
        fsyncOffset := lastIncrSize;
        lastFsync := w.now;
      } else if policy == Everysec && w.now - lastFsync >= 1000 {
        if !syncInProgress {
          handed, running := |file|, true;
          fsyncOffset := lastIncrSize;
        }
        lastFsync := w.now;
      }
      return Returned;
    }

    /**
     flushAppendOnlyFile: what it does to the log if it returns, and when it ends the server. RunDurable and
     RunConserves say what that means for the bytes.
     */
    method Flush(force: bool, w: World) returns (outcome: Outcome)
      requires Valid()
      modifies this
      ensures outcome == Exited <==> Dies(old(Now()), w, noFsyncOnRewrite)
      ensures outcome == Returned ==> Valid() && Now() == Flushed(old(Now()), force, w, noFsyncOnRewrite)
      ensures outcome == Returned ==> currentSize - old(currentSize) == lastIncrSize - old(lastIncrSize)
      ensures outcome == Returned && Attempts(old(Now()), force, w.now) ==> (writeOk <==> buf == [])
    {
      hide Transfer, Fsynced, Accepted;
      if buf == [] {
        outcome := FlushNothing(w);
        return;
      }
      var syncInProgress := policy == Everysec && running;
      if policy == Everysec && !force && syncInProgress {
        if postponedStart == 0 {
          postponedStart := w.now;
          return Returned;
        } else if w.now - postponedStart < 2000 {
          return Returned;
        }
        delayedFsync := delayedFsync + 1;
      }
      outcome := FlushBuffer(force, w, syncInProgress);
    }

    /** A flush of an empty buffer: only an fsync may be due. */
    method FlushNothing(w: World) returns (outcome: Outcome)
      requires Valid() && buf == []
      modifies this`fsyncOffset, this`lastFsync, this`durable, this`handed, this`running
      ensures outcome == Exited <==> Dies(old(Now()), w, noFsyncOnRewrite)
      ensures outcome == Returned ==> Valid() && Now() == Flushed(old(Now()), false, w, noFsyncOnRewrite)
    {
      hide Transfer, Fsynced;
      if policy == Everysec && fsyncOffset != lastIncrSize && w.now - lastFsync >= 1000 && !running {
        outcome := TryFsync(w, false);
      } else if policy == Always && fsyncOffset != lastIncrSize {
        outcome := TryFsync(w, false);
      } else {
        outcome := Returned;
      }
    }

    /** The part of the flush that writes. */
    method FlushBuffer(force: bool, w: World, syncInProgress: bool) returns (outcome: Outcome)
      requires Valid() && Attempts(Now(), force, w.now) && (policy == Everysec ==> syncInProgress == running)
      modifies this
      ensures outcome == Exited <==> Dies(old(Now()), w, noFsyncOnRewrite)
      ensures outcome == Returned ==> Valid() && Now() == Flushed(old(Now()), force, w, noFsyncOnRewrite)
      ensures outcome == Returned ==> currentSize - old(currentSize) == lastIncrSize - old(lastIncrSize)
      ensures outcome == Returned ==> (writeOk <==> buf == [])
    {
      TransferFacts(Now(), w);
      hide Transfer, Accepted, Fsynced;
      var complete;
      outcome, complete := WriteBuffer(w);
      if complete {
        outcome := TryFsync(w, syncInProgress);
        KeepsBuffer(old(Now()), w, noFsyncOnRewrite);
      }
    }

    /**
     Any run: the states after each event, as long as the server lives. RunConserves and
     NothingMisplaced say what such a trace means for the bytes.
     */
    method Run(events: seq<Event>) returns (alive: bool, ghost states: seq<Log>)
      requires Valid()
      modifies this
      ensures states != [] && |states| <= |events| + 1 && states[0] == old(Now())
      ensures Trace(states, events[..|states| - 1], noFsyncOnRewrite)
      ensures alive ==> Valid() && |states| == |events| + 1 && states[|events|] == Now()
      ensures !alive ==>
                |states| <= |events| && var (s, e) := (states[|states| - 1], events[|states| - 1]);
                e.Flush? && Dies(s, e.world, noFsyncOnRewrite)
    {
      hide Dies, Flushed;
      alive, states := true, [Now()];
      for i := 0 to |events|
        invariant Valid() && |states| == i + 1 && states[0] == old(Now()) && states[i] == Now()
        invariant Trace(states, events[..i], noFsyncOnRewrite)
      {
        ghost var s := Now();
        match events[i] {
          case Feed(bytes) => Feed(bytes);
          case SyncDone(works) => SyncDone(works);
          case SetPolicy(p, works) => SetPolicy(p, works);
          case NewFile(now) => NewFile(now);
          case Flush(force, world) =>
            var outcome := Flush(force, world);
            if outcome == Exited { return false, states; }
        }
        assert Next(s, events[i], Now(), noFsyncOnRewrite);
        TraceNext(states, events, i, Now(), noFsyncOnRewrite);
        states := states + [Now()];
      }
      assert events[..|events|] == events;
    }
  }

  lemma SizeInside(file: seq<byte>, at: nat, bytes: seq<byte>)
    requires at >= |file|
    ensures |WriteAt(file, at, bytes)| >= |file|
  {
  }

  lemma WriteNothing(file: seq<byte>, at: nat)
    requires at >= |file|
    ensures WriteAt(file, at, []) == file
  {
  }

  lemma AcceptedStep(writes: seq<WriteOutcome>, i: nat, n: nat)
    requires i <= |writes| && n > 0
    ensures i == |writes| ==> Accepted(writes[i..], n) == n
    ensures i < |writes| ==>
              Accepted(writes[i..], n) ==
              match writes[i]
              case Interrupted => Accepted(writes[i + 1..], n)
              case Failed => 0
              case Wrote(m) => Min(m, n) + Accepted(writes[i + 1..], n - Min(m, n))
  {
    if i < |writes| { assert writes[i..][1..] == writes[i + 1..]; }
  }

  lemma AcceptedNone(writes: seq<WriteOutcome>)
    ensures Accepted(writes, 0) == 0
  {
  }

  lemma WriteTwice(file: seq<byte>, at: nat, a: seq<byte>, b: seq<byte>)
    requires at >= |file|
    ensures |WriteAt(file, at, a)| == (if a == [] then |file| else at + |a|)
    ensures WriteAt(WriteAt(file, at, a), at + |a|, b) == WriteAt(file, at, a + b)
    ensures |WriteAt(file, at, a + b)| == (if a + b == [] then |file| else at + |a| + |b|)
  {
    if a == [] {
      assert a + b == b;
    } else if b == [] {
      assert a + b == a;
    } else {
      var f := WriteAt(file, at, a);
      assert f + Zeros(0) + b == f + b == file + Zeros(at - |file|) + (a + b);
    }
  }

  lemma TransferPlaced(s: Log, w: World)
    requires Placed(s)
    ensures Placed(Transfer(s, w))
  {
  }

  lemma TransferFacts(s: Log, w: World)
    requires Placed(s)
    ensures var t := Transfer(s, w);
            && t.policy == s.policy && t.postponed == 0 && t.running == s.running
            && (s.buf != [] ==> (t.buf == [] <==> Accepted(w.writes, |s.buf|) == |s.buf|))
  {
  }

  lemma KeepsBuffer(s: Log, w: World, noFsync: bool)
    requires Placed(s)
    ensures Fsynced(Transfer(s, w), w, noFsync).buf == Transfer(s, w).buf
  {
    hide Transfer;
  }

  lemma TraceNext(states: seq<Log>, events: seq<Event>, i: nat, t: Log, noFsyncOnRewrite: bool)
    requires i < |events| && Trace(states, events[..i], noFsyncOnRewrite)
    requires Next(states[i], events[i], t, noFsyncOnRewrite)
    ensures Trace(states + [t], events[..i + 1], noFsyncOnRewrite)
  {
    hide Next;
  }

  /** A server that syncs every second loses the fsync of its first byte while CONFIG SET waits for it. */
  function FailingRun(a: byte): seq<Event> {
    var w := World(1000, false, [], true, true);
    [Event.Feed([a]), Event.Flush(false, w), SetPolicy(Always, false), Event.Flush(false, w)]
  }

  /** The logs it goes through. */
  function FailingLog(a: byte, n: nat): Log {
    if n == 0 then Initial(Everysec, [])
    else if n == 1 then Initial(Everysec, []).(buf := [a])
    else
      var s := Log(Everysec, true, [], [a], 1, [], 1, 1, 0, 1000, true, 0, 1);
      if n == 2 then s else s.(policy := Always, running := false)
  }

  lemma FailingStep(a: byte, n: nat, t: Log)
    requires n < 4 && Next(FailingLog(a, n), FailingRun(a)[n], t, false)
    ensures t == FailingLog(a, n + 1)
  {
    if n == 0 {
      assert [] + [a] == [a];
    } else if n == 1 {
      assert [a][..1] == [a] && [a][1..] == [];
      assert [] + Zeros(0) + [a] == [a];
    }
  }

  lemma FailingLives(a: byte, n: nat)
    requires n < 4 && FailingRun(a)[n].Flush?
    ensures !Dies(FailingLog(a, n), FailingRun(a)[n].world, false)
  {
  }

  lemma {:induction false} FailingTrace(states: seq<Log>, a: byte, n: nat)
    requires n <= 4 && Trace(states, FailingRun(a)[..n], false) && states[0] == Initial(Everysec, [])
    ensures states[n] == FailingLog(a, n)
  {
    if n > 0 {
      var events := FailingRun(a)[..n];
      assert Next(states[n - 1], events[n - 1], states[n], false);
      assert events[..n - 1] == FailingRun(a)[..n - 1];
      assert Trace(states[..n], FailingRun(a)[..n - 1], false) by {
        forall i | 0 <= i < n - 1 ensures Next(states[..n][i], events[..n - 1][i], states[..n][i + 1], false) {
          assert Next(states[i], events[i], states[i + 1], false);
        }
      }
      hide Next;
      FailingTrace(states[..n], a, n - 1);
      FailingStep(a, n - 1, states[n]);
    }
  }

  /** The flush under "always" that ends the run syncs nothing: its byte is in the file, but not on disk. */
  method FailedSyncUnseen(a: byte) returns (aof: Aof, alive: bool)
    ensures alive && aof.policy == Always && aof.file == [a] && aof.buf == [] && aof.durable == 0
  {
    aof := new Aof(Everysec, false, []);
    ghost var states;
    alive, states := aof.Run(FailingRun(a));
    ghost var n := |states| - 1;
    FailingTrace(states, a, n);
    if !alive { FailingLives(a, n); }
    assert FailingRun(a)[..4] == FailingRun(a);
  }
}
