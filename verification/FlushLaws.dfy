/** When flushAppendOnlyFile writes and when it starts an fsync, by the times of the events of a run. */
module FlushLaws {

  import opened AofFlush
  import opened Options

  // ---------------------------------------------------------------- when the buffer is written

  /** A disk that takes everything would get the buffer: the flush tries to write. */
  predicate Tries(s: Log, force: bool, w: World, noFsync: bool)
    requires Placed(s)
  {
    Flushed(s, force, w.(writes := []), noFsync).buf == []
  }

  lemma AllAccepted(n: nat)
    ensures Accepted([], n) == n
  {
  }

  lemma TriesMeans(s: Log, force: bool, w: World, noFsync: bool)
    requires Placed(s) && s.buf != []
    ensures Tries(s, force, w, noFsync) <==> Attempts(s, force, w.now)
  {
    var v := w.(writes := []);
    AllAccepted(|s.buf|);
    TransferFacts(s, v);
    hide Transfer, Accepted;
  }

  /** A flush that does not try leaves file and buffer alone; one that does puts in the file what the disk takes. */
  lemma TriedReaches(s: Log, force: bool, w: World, noFsync: bool)
    requires Placed(s) && s.buf != []
    ensures var t, k := Flushed(s, force, w, noFsync), Accepted(w.writes, |s.buf|);
            && (!Tries(s, force, w, noFsync) ==> t.file == s.file && t.buf == s.buf)
            && (Tries(s, force, w, noFsync) && (k == |s.buf| || !w.truncateWorks) ==>
                  t.buf == s.buf[k..] && t.file == WriteAt(s.file, Position(s), s.buf[..k]))
            && (Tries(s, force, w, noFsync) && 0 < k < |s.buf| && w.truncateWorks && s.size == |s.file| ==>
                  t.buf == s.buf && t.file == s.file)
  {
    TriesMeans(s, force, w, noFsync);
    FlushedBytes(s, force, w, noFsync);
    hide Flushed, Accepted, Tries;
  }

  /** When the first flush was postponed since the last one that tried, among the first n events. */
  function HeldSince(states: seq<Log>, events: seq<Event>, noFsync: bool, n: nat): Option<int>
    requires n <= |events| < |states| && forall i :: 0 <= i < n ==> Placed(states[i])
  {
    if n == 0 then None
    else
      var before, s, e := HeldSince(states, events, noFsync, n - 1), states[n - 1], events[n - 1];
      if !e.Flush? || s.buf == [] then before
      else if Tries(s, e.force, e.world, noFsync) then None
      else if before.Some? then before
      else Some(e.world.now)
  }

  /** Clocks do not show zero. */
  predicate Timed(events: seq<Event>) { forall i :: 0 <= i < |events| && events[i].Flush? ==> events[i].world.now != 0 }

  lemma TracePlaced(states: seq<Log>, events: seq<Event>, noFsync: bool)
    requires Trace(states, events, noFsync)
    ensures forall i :: 0 <= i < |events| ==> Placed(states[i])
  {
    forall i | 0 <= i < |events| ensures Placed(states[i]) {
      assert Next(states[i], events[i], states[i + 1], noFsync);
    }
  }

  lemma {:induction false} PostponedIsFirst(states: seq<Log>, events: seq<Event>, noFsync: bool, n: nat)
    requires Trace(states, events, noFsync) && Timed(events) && states[0].postponed == 0 && n <= |events|
    requires forall i :: 0 <= i < n ==> Placed(states[i])
    ensures var h := HeldSince(states, events, noFsync, n);
            states[n].postponed == (if h.Some? then h.value else 0) && (h.Some? ==> h.value != 0)
  {
    hide Tries, Next;
    if n > 0 {
      PostponedIsFirst(states, events, noFsync, n - 1);
      var s, e, t := states[n - 1], events[n - 1], states[n];
      assert Next(s, e, t, noFsync);
      if e.Flush? && s.buf != [] { TriesMeans(s, e.force, e.world, noFsync); }
      PostponedNext(s, e, t, noFsync);
    }
  }

  lemma PostponedNext(s: Log, e: Event, t: Log, noFsync: bool)
    requires Next(s, e, t, noFsync)
    ensures t.postponed ==
            if !e.Flush? || s.buf == [] then s.postponed
            else if Attempts(s, e.force, e.world.now) then 0
            else if s.postponed == 0 then e.world.now
            else s.postponed
  {
    if e.Flush? {
      TransferFacts(s, e.world);
      hide Transfer, Accepted;
    }
  }

  /**
   Over any run, a flush with something in the buffer does not try to write it exactly if the policy is
   everysec, it is not forced, a background fsync runs, and it is the first such flush or comes less
   than two seconds after the first.
   */
  lemma WriteIsTried(states: seq<Log>, events: seq<Event>, noFsync: bool, i: nat)
    requires Trace(states, events, noFsync) && Timed(events) && states[0].postponed == 0 && i < |events|
    requires events[i].Flush? && states[i].buf != []
    ensures forall j :: 0 <= j < i ==> Placed(states[j])
    ensures Placed(states[i])
    ensures var s, e, h := states[i], events[i], HeldSince(states, events, noFsync, i);
            !Tries(s, e.force, e.world, noFsync) <==>
              s.policy == Everysec && !e.force && s.running && (h.None? || e.world.now - h.value < 2000)
  {
    TracePlaced(states, events, noFsync);
    hide Next, Tries;
    PostponedIsFirst(states, events, noFsync, i);
    TriesMeans(states[i], events[i].force, events[i].world, noFsync);
  }

  predicate Forward(events: seq<Event>) {
    forall i, j :: 0 <= i < j < |events| && events[i].Flush? && events[j].Flush? ==>
      events[i].world.now <= events[j].world.now
  }

  lemma {:induction false} HeldBefore(states: seq<Log>, events: seq<Event>, noFsync: bool, j: nat, n: nat)
    requires j < n <= |events| < |states| && forall i :: 0 <= i < n ==> Placed(states[i])
    requires Forward(events) && events[j].Flush? && states[j].buf != []
    requires forall m :: j <= m < n && events[m].Flush? && states[m].buf != [] ==>
               !Tries(states[m], events[m].force, events[m].world, noFsync)
    ensures var h := HeldSince(states, events, noFsync, n); h.Some? && h.value <= events[j].world.now
  {
    hide Tries;
    if n == j + 1 {
      HeldTime(states, events, noFsync, j, j);
    } else {
      HeldBefore(states, events, noFsync, j, n - 1);
    }
  }

  lemma {:induction false} HeldTime(states: seq<Log>, events: seq<Event>, noFsync: bool, j: nat, n: nat)
    requires n <= j < |events| < |states| && forall i :: 0 <= i < n ==> Placed(states[i])
    requires Forward(events) && events[j].Flush?
    ensures var h := HeldSince(states, events, noFsync, n); h.Some? ==> h.value <= events[j].world.now
  {
    hide Tries;
    if n > 0 { HeldTime(states, events, noFsync, j, n - 1); }
  }

  /** So bytes wait at most two seconds of flushes: one that comes two seconds after a postponed one tries. */
  lemma PostponedTwoSeconds(states: seq<Log>, events: seq<Event>, noFsync: bool, j: nat, i: nat)
    requires Trace(states, events, noFsync) && Timed(events) && Forward(events) && states[0].postponed == 0
    requires j < i < |events| && events[j].Flush? && states[j].buf != [] && events[i].Flush? && states[i].buf != []
    requires events[i].world.now >= events[j].world.now + 2000
    ensures forall m :: 0 <= m < |events| ==> Placed(states[m])
    ensures exists m :: j <= m <= i && events[m].Flush? && states[m].buf != []
                        && Tries(states[m], events[m].force, events[m].world, noFsync)
  {
    hide Next, Tries;
    TracePlaced(states, events, noFsync);
    if forall m :: j <= m < i && events[m].Flush? && states[m].buf != [] ==>
         !Tries(states[m], events[m].force, events[m].world, noFsync)
    {
      HeldBefore(states, events, noFsync, j, i);
      WriteIsTried(states, events, noFsync, i);
    }
  }

  // ---------------------------------------------------------------- when an fsync starts

  /** A flush starts a background fsync. */
  predicate Starts(s: Log, t: Log) { t.running && !s.running }

  /**
   A flush that gets everything written starts one exactly under everysec, at least a second after the last,
   if none runs, no child forbids it, and some byte was not given to one; it gets the whole file.
   */
  lemma StartsMeans(s: Log, force: bool, w: World, noFsync: bool)
    requires Placed(s) && s.fsync <= s.size && (s.buf != [] ==> Accepted(w.writes, |s.buf|) == |s.buf|)
    ensures var t := Flushed(s, force, w, noFsync);
            && (Starts(s, t) <==> s.policy == Everysec && !(noFsync && w.childActive) && !s.running
                                  && w.now - s.synced >= 1000 && (s.buf != [] || s.fsync != s.size))
            && (Starts(s, t) ==> t.handed == |t.file| && t.fsync == t.size && t.buf == [])
  {
    if s.buf != [] {
      TransferFacts(s, w);
      TransferKeeps(s, w);
      hide Transfer, Accepted;
    }
  }

  lemma TransferKeeps(s: Log, w: World)
    requires Placed(s)
    ensures var t := Transfer(s, w); t.policy == s.policy && t.running == s.running && t.synced == s.synced
  {
  }

  /** Whatever is written, a flush starts none within a second of the last, none beside another, and only everysec. */
  lemma StartsApart(s: Log, force: bool, w: World, noFsync: bool)
    requires Placed(s)
    ensures var t := Flushed(s, force, w, noFsync);
            && (Starts(s, t) ==> s.policy == Everysec && w.now - s.synced >= 1000 && t.synced == w.now)
            && (s.running ==> t.running && t.handed <= s.handed)
            && (s.policy == No ==> t.running == s.running && t.fsync == s.fsync && t.durable <= s.durable)
            && (s.policy == Everysec ==> t.durable <= s.durable)
            && (t.synced != s.synced ==> t.synced == w.now)
  {
    TransferKeeps(s, w);
    if s.buf != [] { TransferLess(s, w); }
    hide Transfer, Accepted;
  }

  lemma TransferLess(s: Log, w: World)
    requires Placed(s)
    ensures var t := Transfer(s, w); t.durable <= s.durable && t.handed <= s.handed && t.fsync == s.fsync
  {
  }

  /** The times of flushes and new files do not decrease. */
  predicate Clocked(events: seq<Event>) {
    forall i, j :: 0 <= i < j < |events| && TimeOf(events[i]).Some? && TimeOf(events[j]).Some? ==>
      TimeOf(events[i]).value <= TimeOf(events[j]).value
  }

  function TimeOf(e: Event): Option<int> {
    match e
    case Flush(_, w) => Some(w.now)
    case NewFile(now) => Some(now)
    case _ => None
  }

  lemma {:induction false} SyncedSince(states: seq<Log>, events: seq<Event>, noFsync: bool, i: nat, n: nat)
    requires Trace(states, events, noFsync) && Clocked(events) && i < n <= |events|
    requires events[i].Flush? && Starts(states[i], states[i + 1])
    ensures states[n].synced >= events[i].world.now
  {
    hide Next, Clocked;
    var s, e, t := states[n - 1], events[n - 1], states[n];
    assert Next(s, e, t, noFsync);
    if n > i + 1 { SyncedSince(states, events, noFsync, i, n - 1); }
    SyncedNext(s, e, t, noFsync);
    if n > i + 1 && TimeOf(e).Some? { ClockedAt(events, i, n - 1); }
  }

  lemma ClockedAt(events: seq<Event>, i: nat, j: nat)
    requires Clocked(events) && i < j < |events| && events[i].Flush? && TimeOf(events[j]).Some?
    ensures events[i].world.now <= TimeOf(events[j]).value
  {
    assert TimeOf(events[i]).Some?;
  }

  lemma SyncedNext(s: Log, e: Event, t: Log, noFsync: bool)
    requires Next(s, e, t, noFsync)
    ensures t.synced == s.synced || (TimeOf(e).Some? && t.synced == TimeOf(e).value)
    ensures e.Flush? && Starts(s, t) ==> t.synced == e.world.now && e.world.now - s.synced >= 1000
  {
    if e.Flush? {
      StartsApart(s, e.force, e.world, noFsync);
      hide Flushed;
    }
  }

  /** Over any run, background fsyncs of flushes start at least a second apart. */
  lemma OncePerSecond(states: seq<Log>, events: seq<Event>, noFsync: bool, i: nat, j: nat)
    requires Trace(states, events, noFsync) && Clocked(events) && i < j < |events|
    requires events[i].Flush? && Starts(states[i], states[i + 1])
    requires events[j].Flush? && Starts(states[j], states[j + 1])
    ensures events[j].world.now - events[i].world.now >= 1000
  {
    hide Next, Clocked;
    SyncedSince(states, events, noFsync, i, j);
    assert Next(states[j], events[j], states[j + 1], noFsync);
    SyncedNext(states[j], events[j], states[j + 1], noFsync);
  }

  // ---------------------------------------------------------------- what a disk takes

  /** The bytes that a script of write(2) results without a failure takes. */
  function Taken(writes: seq<WriteOutcome>): nat {
    if writes == [] then 0
    else (if writes[0].Wrote? then writes[0].n else 0) + Taken(writes[1..])
  }

  /** Interruptions and short writes are retried: only a failure keeps bytes from the file, those behind it. */
  lemma {:induction false} OnlyFailureStops(writes: seq<WriteOutcome>, more: seq<WriteOutcome>, n: nat)
    requires forall i :: 0 <= i < |writes| ==> writes[i] != Failed
    ensures Accepted(writes, n) == n
    ensures Accepted(writes + [Failed] + more, n) == if Taken(writes) < n then Taken(writes) else n
  {
    var all := writes + [Failed] + more;
    if writes == [] {
      assert all[0] == Failed;
    } else {
      var rest := writes[1..];
      assert all[0] == writes[0] && all[1..] == rest + [Failed] + more;
      var m := if writes[0].Wrote? then Min(writes[0].n, n) else 0;
      OnlyFailureStops(rest, more, n - m);
    }
  }

  /** The server ends itself only under "always", and only because of the disk. */
  lemma DiesOfDisk(s: Log, w: World, noFsync: bool)
    ensures Dies(s, w, noFsync) ==> s.policy == Always
    ensures (forall i :: 0 <= i < |w.writes| ==> w.writes[i] != Failed) && w.fsyncWorks ==> !Dies(s, w, noFsync)
    ensures s.policy == Always && s.buf != [] && w.writes == [Failed] ==> Dies(s, w, noFsync)
    ensures s.policy == Always && s.buf != [] && w.writes == [] && !w.fsyncWorks && !(noFsync && w.childActive) ==>
              Dies(s, w, noFsync)
  {
    if forall i :: 0 <= i < |w.writes| ==> w.writes[i] != Failed { OnlyFailureStops(w.writes, [], |s.buf|); }
  }

  // ---------------------------------------------------------------- a hole in a new file

  /** A rewrite opens a new INCR file; its first write is short and taken back, the next one complete. */
  function HoleRun(a: byte, b: byte): seq<Event> {
    [NewFile(0), Event.Feed([a, b]),
     Event.Flush(false, World(5, false, [Wrote(1), Failed], true, true)),
     Event.Flush(false, World(6, false, [], true, true))]
  }

  /** The logs it goes through. */
  function HoleLog(a: byte, b: byte, n: nat): Log {
    var start := Initial(No, []);
    if n == 0 then start
    else if n == 1 then start.(append := false)
    else if n == 2 then start.(append := false, buf := [a, b])
    else if n == 3 then start.(append := false, buf := [a, b], offset := 1)
    else start.(append := false, file := [0, a, b], offset := 3, size := 2)
  }

  lemma HoleStep(a: byte, b: byte, n: nat, t: Log)
    requires n < 4 && Next(HoleLog(a, b, n), HoleRun(a, b)[n], t, false)
    ensures t == HoleLog(a, b, n + 1)
  {
    if n == 2 || n == 3 { HoleWrites(a, b); hide Transfer; }
  }

  lemma HoleWrites(a: byte, b: byte)
    ensures forall n :: 2 <= n < 4 ==> Placed(HoleLog(a, b, n)) && HoleRun(a, b)[n].Flush?
    ensures Transfer(HoleLog(a, b, 2), HoleRun(a, b)[2].world) == HoleLog(a, b, 3)
    ensures Transfer(HoleLog(a, b, 3), HoleRun(a, b)[3].world) == HoleLog(a, b, 4)
  {
    HoleAfterTruncation(HoleLog(a, b, 2), HoleRun(a, b)[2].world, HoleRun(a, b)[3].world, a, b);
    assert Accepted([], 2) == 2 && [a, b][2..] == [];
  }

  lemma {:induction false} HoleTrace(states: seq<Log>, a: byte, b: byte, n: nat)
    requires n <= 4 && Trace(states, HoleRun(a, b)[..n], false) && states[0] == Initial(No, [])
    ensures states[n] == HoleLog(a, b, n)
  {
    if n > 0 {
      var events := HoleRun(a, b)[..n];
      assert Next(states[n - 1], events[n - 1], states[n], false);
      assert events[..n - 1] == HoleRun(a, b)[..n - 1];
      assert Trace(states[..n], HoleRun(a, b)[..n - 1], false) by {
        forall i | 0 <= i < n - 1 ensures Next(states[..n][i], events[..n - 1][i], states[..n][i + 1], false) {
          assert Next(states[i], events[i], states[i + 1], false);
        }
      }
      hide Next;
      HoleTrace(states[..n], a, b, n - 1);
      HoleStep(a, b, n - 1, states[n]);
    }
  }

  /** The server fed two bytes to the new file, and three are in it: the first is a zero. */
  method HoleInNewFile(a: byte, b: byte) returns (aof: Aof, alive: bool)
    ensures alive && aof.file == [0, a, b] && aof.buf == []
  {
    aof := new Aof(No, false, []);
    ghost var states;
    alive, states := aof.Run(HoleRun(a, b));
    ghost var n := |states| - 1;
    HoleTrace(states, a, b, n);
    assert HoleRun(a, b)[..4] == HoleRun(a, b);
  }
}
