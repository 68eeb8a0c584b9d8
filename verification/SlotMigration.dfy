/**
 A slot moving between two primaries: the source is migrating it, the target importing it.
 Requests are routed by getNodeByQuery on either node, keys move by MIGRATE. All keys here
 are keys of that slot.
 */
module SlotMigration {
  import opened Options
  import opened SlotRouting

  // ---------------------------------------------------------------- migrateCommand

  function Keep(keys: seq<Key>, wanted: set<Key>): seq<Key> {
    if keys == [] then []
    else Keep(keys[..|keys| - 1], wanted)
         + (if keys[|keys| - 1] in wanted then [keys[|keys| - 1]] else [])
  }

  /** The keys whose RESTORE was acknowledged; replies may stop early on a socket error. */
  function Acknowledged(keys: seq<Key>, replies: seq<bool>): seq<Key>
    requires |replies| <= |keys|
  {
    if replies == [] then []
    else
      var j := |replies| - 1;
      Acknowledged(keys, replies[..j]) + (if replies[j] then [keys[j]] else [])
  }

  /** The loop that closes the holes left by expired keys, in place. */
  method Compact(kv: array<Key>, n: nat, live: set<Key>) returns (m: nat)
    requires n <= kv.Length
    modifies kv
    ensures m <= n && kv[..m] == Keep(old(kv[..n]), live)
  {
    m := 0;
    ghost var was := kv[..n];
    for j := 0 to n
      invariant 0 <= m <= j
      invariant kv[..m] == Keep(was[..j], live)
      invariant forall i :: j <= i < n ==> kv[i] == was[i]
    {
      assert was[..j + 1][..j] == was[..j];
      if kv[j] !in live { continue; }
      kv[m] := kv[j];
      m := m + 1;
    }
    assert was[..n] == was;
  }

  /** The keys that are sent: those named that are here, and have not expired meanwhile. */
  function Sent(held: set<Key>, names: seq<Key>, live: set<Key>): seq<Key> { Keep(Keep(names, held), live) }

  function Deleted(sent: seq<Key>, replies: seq<bool>, copy: bool): seq<Key>
    requires |replies| <= |sent|
  {
    if copy then [] else Acknowledged(sent, replies)
  }

  /**
   MIGRATE on the source: keys that are here and not expired are sent, and those whose
   RESTORE was acknowledged are deleted, unless COPY was given; the deleted keys are also
   the arguments of the DEL that replaces the command.
   */
  method MigrateKeys(held: set<Key>, names: seq<Key>, live: set<Key>, replies: seq<bool>, copy: bool)
    returns (left: set<Key>, deleted: seq<Key>)
    requires |replies| <= |Sent(held, names, live)|
    ensures deleted == Deleted(Sent(held, names, live), replies, copy)
    ensures left == held - set k | k in deleted
  {
    var kv := new Key[|names|](_ => "");
    var oi := SelectHeld(kv, names, held);
    var numKeys := Compact(kv, oi, live);
    left, deleted := DeleteAcknowledged(held, kv[..numKeys], replies, copy);
  }

  /** The loop over the names that looks the keys up. */
  method SelectHeld(kv: array<Key>, names: seq<Key>, held: set<Key>) returns (oi: nat)
    requires kv.Length == |names|
    modifies kv
    ensures oi <= |names| && kv[..oi] == Keep(names, held)
  {
    oi := 0;
    for j := 0 to |names|
      invariant 0 <= oi <= j && kv[..oi] == Keep(names[..j], held)
    {
      assert names[..j + 1][..j] == names[..j];
      if names[j] in held {
        kv[oi] := names[j];
        oi := oi + 1;
      }
    }
    assert names[..|names|] == names;
  }

  /** The loop over the replies. */
  method DeleteAcknowledged(held: set<Key>, sent: seq<Key>, replies: seq<bool>, copy: bool)
    returns (left: set<Key>, deleted: seq<Key>)
    requires |replies| <= |sent|
    ensures deleted == Deleted(sent, replies, copy)
    ensures left == held - set k | k in deleted
  {
    left, deleted := held, [];
    for j := 0 to |replies|
      invariant deleted == Deleted(sent, replies[..j], copy)
      invariant left == held - set k | k in deleted
    {
      assert replies[..j + 1][..j] == replies[..j];
      if replies[j] && !copy {
        left := left - {sent[j]};
        deleted := deleted + [sent[j]];
      }
    }
    assert replies[..|replies|] == replies;
  }

  lemma {:induction false} KeptWereNamed(keys: seq<Key>, wanted: set<Key>)
    ensures forall k :: k in Keep(keys, wanted) ==> k in keys && k in wanted
  {
    if keys != [] { KeptWereNamed(keys[..|keys| - 1], wanted); }
  }

  lemma {:induction false} AcknowledgedWereSent(keys: seq<Key>, replies: seq<bool>)
    requires |replies| <= |keys|
    ensures forall k :: k in Acknowledged(keys, replies) <==>
              exists j :: 0 <= j < |replies| && replies[j] && keys[j] == k
  {
    if replies != [] {
      var j, rest := |replies| - 1, replies[..|replies| - 1];
      AcknowledgedWereSent(keys, rest);
      assert forall i :: 0 <= i < j ==> rest[i] == replies[i];
      assert forall k :: k in Acknowledged(keys, replies) <==>
               k in Acknowledged(keys, rest) || (replies[j] && keys[j] == k);
    }
  }

  /** The places in a list of names, in increasing order. */
  ghost predicate Places(names: seq<Key>, wanted: set<Key>, at: seq<nat>, kept: seq<Key>) {
    && |at| == |kept|
    && (forall i :: 0 <= i < |at| ==> at[i] < |names| && kept[i] == names[at[i]] && names[at[i]] in wanted)
    && (forall i, j :: 0 <= i < j < |at| ==> at[i] < at[j])
    && (forall p: nat :: p < |names| && names[p] in wanted ==> p in at)
  }

  lemma {:induction false} KeepPlaces(names: seq<Key>, wanted: set<Key>) returns (at: seq<nat>)
    ensures Places(names, wanted, at, Keep(names, wanted))
  {
    if names == [] {
      at := [];
    } else {
      var n := |names| - 1;
      var most := names[..n];
      at := KeepPlaces(most, wanted);
      if names[n] in wanted {
        var before := at;
        at := at + [n];
        assert at[|before|] == n;
        forall p: nat | p < |names| && names[p] in wanted ensures p in at {
          if p < n {
            assert most[p] == names[p] && p in before;
          }
        }
      } else {
        forall p: nat | p < |names| && names[p] in wanted ensures p in at { assert most[p] == names[p]; }
      }
    }
  }

  lemma {:induction false} KeepTwice(names: seq<Key>, a: set<Key>, b: set<Key>)
    ensures Keep(Keep(names, a), b) == Keep(names, a * b)
  {
    if names != [] {
      var most, last := names[..|names| - 1], names[|names| - 1];
      KeepTwice(most, a, b);
      var kept := Keep(most, a);
      if last in a {
        assert (kept + [last])[..|kept|] == kept;
      } else {
        assert kept + [] == kept;
      }
    }
  }

  /** MIGRATE sends exactly the names that are held and have not expired, as often as named and in their order. */
  lemma SentInOrder(held: set<Key>, names: seq<Key>, live: set<Key>) returns (at: seq<nat>)
    ensures Places(names, held * live, at, Sent(held, names, live))
  {
    KeepTwice(names, held, live);
    at := KeepPlaces(names, held * live);
  }

  // ---------------------------------------------------------------- the two nodes

  const SOURCE: Node := 1
  const TARGET: Node := 2

  /** Keys of the slot on each node, and requests that the source answered with ASK. */
  datatype Pair = Pair(source: set<DbKey>, target: set<DbKey>, asked: set<Request>)

  /** The cluster's state as a node sees it, and what is allowed when it is down. */
  datatype Health = Health(healthy: bool, readsWhenDown: bool, pubsubWhenDown: bool)

  function SourceView(h: Health): View {
    View(SOURCE, true, SOURCE, Some(SOURCE), Some(TARGET), None,
         h.healthy, h.readsWhenDown, h.pubsubWhenDown, false)
  }

  function TargetView(h: Health): View {
    View(TARGET, true, TARGET, Some(SOURCE), None, Some(SOURCE),
         h.healthy, h.readsWhenDown, h.pubsubWhenDown, false)
  }

  function KeySet(r: Request): set<DbKey> { set k | k in KeysOf(r.commands, r.db) }

  /** A keyed request that is executed at once or by EXEC, other than MIGRATE. */
  predicate Addressed(r: Request) {
    !r.migrate && r.exec == r.multi && SlotOf(r) != -1
  }

  /** One that names no shard channel. */
  predicate Keyed(r: Request) { Addressed(r) && !Sharded(r) }

  /**
   A command at either node, with those of its keys that exist after it if it is served; or a
   MIGRATE, with the keys that have not expired, the replies that were read, what the
   target did for each key that was sent, and the database it did it in.
   */
  datatype Event =
    | AtSource(r: Request, after: set<DbKey>, h: Health)
    | AtTarget(r: Request, after: set<DbKey>, h: Health)
    | Migrate(db: nat, dest: nat, names: seq<Key>, live: set<Key>,
              replies: seq<bool>, restored: seq<bool>, copy: bool)

  /** What a served command may do: change which of its own keys exist. */
  function Executed(held: set<DbKey>, r: Request, after: set<DbKey>): set<DbKey> {
    held - KeySet(r) + after * KeySet(r)
  }

  function NamesIn(held: set<DbKey>, db: nat): set<Key> { set k | k in held && k.db == db :: k.key }

  function Placed(names: seq<Key>, db: nat): set<DbKey> { set k | k in names :: DbKey(db, k) }

  function SentBy(p: Pair, e: Event): seq<Key>
    requires e.Migrate?
  {
    Sent(NamesIn(p.source, e.db), e.names, e.live)
  }

  /** A key that is acknowledged was restored; replies may be lost. */
  predicate Answers(p: Pair, e: Event)
    requires e.Migrate?
  {
    && |e.replies| <= |e.restored| == |SentBy(p, e)|
    && forall j :: 0 <= j < |e.replies| && e.replies[j] ==> e.restored[j]
  }

  /** MIGRATE as the source runs it. */
  method MigrateAtSource(p: Pair, e: Event) returns (left: set<DbKey>, deleted: seq<Key>)
    requires e.Migrate? && Answers(p, e)
    ensures left == Next(p, e).source
    ensures deleted == Deleted(SentBy(p, e), e.replies, e.copy)
  {
    var names: set<Key>;
    names, deleted := MigrateKeys(NamesIn(p.source, e.db), e.names, e.live, e.replies, e.copy);
    left := set k | k in p.source && (k.db != e.db || k.key in names);
    assert left == p.source - Placed(deleted, e.db);
  }

  ghost function Next(p: Pair, e: Event): Pair {
    match e
    case AtSource(r, after, h) =>
      var reply := Decision(SourceView(h), r, p.source);
      if reply == Serve(SOURCE) then p.(source := Executed(p.source, r, after))
      else if reply.Ask? then p.(asked := p.asked + {r})
      else p
    case AtTarget(r, after, h) =>
      if Decision(TargetView(h), r, p.target) == Serve(TARGET)
      then p.(target := Executed(p.target, r, after)) else p
    case Migrate(db, dest, _, _, replies, restored, copy) =>
      if !Answers(p, e) then p
      else p.(source := p.source - Placed(Deleted(SentBy(p, e), replies, copy), db),
              target := p.target + Placed(Acknowledged(SentBy(p, e), restored), dest))
  }

  /** ASKING is sent only for a request that got ASK. */
  predicate Allowed(p: Pair, e: Event) {
    match e
    case AtSource(r, _, _) => Keyed(r)
    case AtTarget(r, _, _) => Keyed(r) && (r.asking ==> exists q :: q in p.asked && SameKeys(q, r))
    case Migrate(_, _, _, _, _, _, _) => Answers(p, e)
  }

  predicate SameKeys(q: Request, r: Request) { q.commands == r.commands && q.db == r.db }

  /**
   Every key that MIGRATE restored was acknowledged and no COPY was asked for; or it went to a
   database where the source does not have it.
   */
  predicate Clean(p: Pair, e: Event) {
    e.Migrate? && Answers(p, e) ==>
      var sent := SentBy(p, e);
      forall j :: 0 <= j < |sent| && e.restored[j] ==>
        if e.dest == e.db then !e.copy && sent[j] in Acknowledged(sent, e.replies)
        else DbKey(e.dest, sent[j]) !in p.source
  }

  /** No key on both nodes; keys of a request that got ASK are not on the source. */
  predicate Apart(p: Pair) {
    && p.source !! p.target
    && (forall q :: q in p.asked ==> KeySet(q) !! p.source)
  }

  /** A served command runs where all its keys are, or on the importing node for one absent name. */
  ghost predicate RunsWithItsKeys(p: Pair, e: Event) {
    match e
    case AtSource(r, _, h) =>
      Decision(SourceView(h), r, p.source) == Serve(SOURCE) ==> KeySet(r) <= p.source
    case AtTarget(r, _, h) =>
      Decision(TargetView(h), r, p.target) == Serve(TARGET) ==>
        KeySet(r) <= p.target || (!SeveralNames(KeysOf(r.commands, r.db)) && KeySet(r) !! p.source)
    case Migrate(_, _, _, _, _, _, _) => true
  }

  // ---------------------------------------------------------------- one step

  lemma SourceServesHeld(p: Pair, r: Request, h: Health)
    requires Keyed(r) && Decision(SourceView(h), r, p.source) == Serve(SOURCE)
    ensures KeySet(r) <= p.source
  {
    hide KeysOf, AnyRefused, SameSlot, FirstSlot;
    var keys := KeysOf(r.commands, r.db);
    assert !Missing(keys, p.source);
    forall k | k in KeySet(r) ensures k in p.source {
      var i :| 0 <= i < |keys| && keys[i] == k;
    }
  }

  /** With a shard channel in the request, the keys of the source do not matter. */
  lemma ShardedIgnoresKeys(r: Request, h: Health, held: set<DbKey>, other: set<DbKey>)
    requires Addressed(r) && Sharded(r)
    ensures Decision(SourceView(h), r, held) == Decision(SourceView(h), r, other)
  {
  }

  /**
   A request that the migrating node would serve if it had all its keys is served only
   with all its keys exactly if it names no shard channel.
   */
  lemma ServedWithItsKeys(r: Request, h: Health)
    requires Addressed(r) && KeySet(r) != {}
    requires Decision(SourceView(h), r, KeySet(r)) == Serve(SOURCE)
    ensures (forall held :: Decision(SourceView(h), r, held) == Serve(SOURCE) ==> KeySet(r) <= held) <==> !Sharded(r)
  {
    hide Decision;
    if Sharded(r) {
      ShardedIgnoresKeys(r, h, KeySet(r), {});
      assert Decision(SourceView(h), r, {}) == Serve(SOURCE) && !(KeySet(r) <= {});
    } else {
      forall held | Decision(SourceView(h), r, held) == Serve(SOURCE) ensures KeySet(r) <= held {
        SourceServesHeld(Pair(held, {}, {}), r, h);
      }
    }
  }

  /** EXEC of a shard channel's message and a write, at the source: the key that had moved is on both nodes. */
  lemma ShardedTransactionSplits()
    ensures var k, up := DbKey(0, "{t}k"), Health(true, false, false);
            var queue := [Command(Plain, ["{t}c"], 5), Command(Plain, ["{t}k"], 5)];
            var r := Request(true, true, queue, -1, false, 0, false, false, false, true, true, false, false);
            var p := Pair({}, {k}, {});
            Addressed(r) && Apart(p) && !Apart(Next(p, AtSource(r, {k}, up)))
  {
    hide SameSlot;
    var k, up := DbKey(0, "{t}k"), Health(true, false, false);
    var a, b := Command(Plain, ["{t}c"], 5), Command(Plain, ["{t}k"], 5);
    var r := Request(true, true, [a, b], -1, false, 0, false, false, false, true, true, false, false);
    assert FirstSlot([a, b]) == 5;
    assert SameSlot([a, b]) by { SameSlots(a, b); }
    assert [a, b][..1] == [a];
    assert k in KeysOf([a, b], 0) by {
      assert [a][..0] == [] && DbAfter([a], 0) == 0 && DbAfter([a, b], 0) == 0;
      assert InDb(b.keys, 0)[0] == k;
      assert KeysOf([a, b], 0) == KeysOf([a], 0) + InDb(b.keys, 0);
    }
    assert k in Executed({}, r, {k});
  }

  lemma SameSlots(a: Command, b: Command)
    requires a.slot == b.slot
    ensures SameSlot([a, b])
  {
  }

  lemma SourceAsksForAbsent(p: Pair, r: Request, h: Health)
    requires Keyed(r) && Decision(SourceView(h), r, p.source).Ask?
    ensures KeySet(r) !! p.source
  {
    hide KeysOf, AnyRefused, SameSlot, FirstSlot;
    var keys := KeysOf(r.commands, r.db);
    assert !Existing(keys, p.source);
    forall k | k in KeySet(r) ensures k !in p.source {
      var i :| 0 <= i < |keys| && keys[i] == k;
    }
  }

  lemma TargetServes(p: Pair, r: Request, h: Health)
    requires Keyed(r) && Decision(TargetView(h), r, p.target) == Serve(TARGET)
    ensures r.asking
    ensures KeySet(r) <= p.target || !SeveralNames(KeysOf(r.commands, r.db))
  {
    hide KeysOf, AnyRefused, SameSlot, FirstSlot;
    var keys := KeysOf(r.commands, r.db);
    if !Missing(keys, p.target) {
      forall k | k in KeySet(r) ensures k in p.target {
        var i :| 0 <= i < |keys| && keys[i] == k;
      }
    }
  }

  lemma SameKeySet(q: Request, r: Request)
    requires SameKeys(q, r)
    ensures KeySet(q) == KeySet(r)
  {
  }

  /** What is sent is held by the source, so what is deleted was there. */
  lemma SentWereHeld(p: Pair, e: Event)
    requires e.Migrate?
    ensures forall k :: k in SentBy(p, e) ==> DbKey(e.db, k) in p.source
  {
    var held := NamesIn(p.source, e.db);
    KeptWereNamed(e.names, held);
    KeptWereNamed(Keep(e.names, held), e.live);
  }

  /** MIGRATE leaves the nodes apart exactly when it is clean. */
  lemma MigrateKeepsApart(p: Pair, e: Event)
    requires Apart(p) && e.Migrate? && Answers(p, e)
    ensures Apart(Next(p, e)) <==> Clean(p, e)
  {
    hide Keep, Acknowledged, KeySet, Sent;
    var sent, p' := SentBy(p, e), Next(p, e);
    SentWereHeld(p, e);
    AcknowledgedWereSent(sent, e.replies);
    AcknowledgedWereSent(sent, e.restored);
    if Clean(p, e) {
      forall k | k in p'.target ensures k !in p'.source {
        if k !in p.target {
          var j :| 0 <= j < |sent| && e.restored[j] && DbKey(e.dest, sent[j]) == k;
        }
      }
    } else {
      var j :| 0 <= j < |sent| && e.restored[j] &&
        !(if e.dest == e.db then !e.copy && sent[j] in Acknowledged(sent, e.replies)
          else DbKey(e.dest, sent[j]) !in p.source);
      var k := DbKey(e.dest, sent[j]);
      assert sent[j] in sent;
      assert sent[j] in Acknowledged(sent, e.restored);
      assert k in p'.target && k in p'.source;
    }
  }

  /** The reply to a RESTORE that was done is lost: the key is on both nodes. */
  lemma LostReplySplits()
    ensures var k := DbKey(0, "k");
            var p, e := Pair({k}, {}, {}), Migrate(0, 0, ["k"], {"k"}, [], [true], false);
            Apart(p) && Allowed(p, e) && !Apart(Next(p, e))
  {
    var k := DbKey(0, "k");
    var p, e := Pair({k}, {}, {}), Migrate(0, 0, ["k"], {"k"}, [], [true], false);
    assert NamesIn(p.source, 0) == {"k"} by { assert k.key in NamesIn(p.source, 0); }
    assert Keep(["k"], {"k"}) == ["k"];
    assert SentBy(p, e) == ["k"];
    assert Acknowledged(["k"], []) == [];
    MigrateKeepsApart(p, e);
  }

  /**
   One step of two nodes that are apart: they stay apart exactly if it is clean, and a command that
   is executed runs with its keys.
   */
  lemma StepKeepsApart(p: Pair, e: Event)
    requires Apart(p) && Allowed(p, e)
    ensures (Apart(Next(p, e)) <==> Clean(p, e)) && RunsWithItsKeys(p, e)
  {
    hide Decision, KeySet, Keyed;
    match e {
      case AtSource(r, after, h) =>
        var reply := Decision(SourceView(h), r, p.source);
        if reply == Serve(SOURCE) { SourceServesHeld(p, r, h); }
        else if reply.Ask? { SourceAsksForAbsent(p, r, h); }
      case AtTarget(r, after, h) =>
        if Decision(TargetView(h), r, p.target) == Serve(TARGET) {
          TargetServes(p, r, h);
          var q :| q in p.asked && SameKeys(q, r);
          SameKeySet(q, r);
        }
      case Migrate(_, _, _, _, _, _, _) =>
        MigrateKeepsApart(p, e);
    }
  }

  lemma SourceShrinks(p: Pair, e: Event)
    requires Allowed(p, e)
    ensures Next(p, e).source <= p.source
  {
    hide Decision, KeySet, Keyed;
    if e.AtSource? && Decision(SourceView(e.h), e.r, p.source) == Serve(SOURCE) {
      SourceServesHeld(p, e.r, e.h);
    }
  }

  // ---------------------------------------------------------------- whole runs

  ghost function Run(p: Pair, events: seq<Event>): Pair {
    if events == [] then p else Next(Run(p, events[..|events| - 1]), events[|events| - 1])
  }

  ghost predicate Disciplined(p: Pair, events: seq<Event>) {
    forall i :: 0 <= i < |events| ==> Allowed(Run(p, events[..i]), events[i])
  }

  ghost predicate AllApart(p: Pair, events: seq<Event>) {
    forall i :: 0 <= i <= |events| ==> Apart(Run(p, events[..i]))
  }

  ghost predicate AllClean(p: Pair, events: seq<Event>) {
    forall i :: 0 <= i < |events| ==> Clean(Run(p, events[..i]), events[i])
  }

  ghost predicate AllWithKeys(p: Pair, events: seq<Event>) {
    forall i :: 0 <= i < |events| ==> RunsWithItsKeys(Run(p, events[..i]), events[i])
  }

  lemma {:induction false} RunSourceShrinks(p: Pair, events: seq<Event>)
    requires Disciplined(p, events)
    ensures Run(p, events).source <= p.source
  {
    hide Next, Allowed;
    if events != [] {
      var most := events[..|events| - 1];
      assert forall i :: 0 <= i < |most| ==> most[..i] == events[..i];
      RunSourceShrinks(p, most);
      SourceShrinks(Run(p, most), events[|events| - 1]);
    }
  }

  lemma Shorter(p: Pair, events: seq<Event>)
    requires events != []
    ensures var most, last := events[..|events| - 1], events[|events| - 1];
            && (Disciplined(p, events) <==> Disciplined(p, most) && Allowed(Run(p, most), last))
            && (AllApart(p, events) <==> AllApart(p, most) && Apart(Run(p, events)))
            && (AllClean(p, events) <==> AllClean(p, most) && Clean(Run(p, most), last))
            && (AllWithKeys(p, events) <==> AllWithKeys(p, most) && RunsWithItsKeys(Run(p, most), last))
  {
    hide Next, Run, Allowed, Apart, Clean, RunsWithItsKeys;
    var n := |events| - 1;
    var most := events[..n];
    assert forall i :: 0 <= i <= n ==> most[..i] == events[..i];
    assert events[..|events|] == events;
  }

  /**
   Whatever clients and MIGRATE do, in any order: no key is ever on both nodes exactly if every
   MIGRATE is clean, and then every command that is executed runs with its keys.
   */
  lemma {:induction false} RunKeepsApart(p: Pair, events: seq<Event>)
    requires Apart(p) && Disciplined(p, events)
    ensures AllApart(p, events) <==> AllClean(p, events)
    ensures AllClean(p, events) ==> AllWithKeys(p, events)
  {
    hide Next, Apart, Allowed, Clean, RunsWithItsKeys, AllApart, AllClean, AllWithKeys, Disciplined;
    if events == [] {
      NoEvents(p);
    } else {
      var most := events[..|events| - 1];
      Shorter(p, events);
      RunKeepsApart(p, most);
      if AllApart(p, most) {
        LastApart(p, most);
        StepKeepsApart(Run(p, most), events[|events| - 1]);
      }
    }
  }

  lemma NoEvents(p: Pair)
    requires Apart(p)
    ensures AllApart(p, []) && AllClean(p, []) && AllWithKeys(p, [])
  {
  }

  lemma LastApart(p: Pair, events: seq<Event>)
    requires AllApart(p, events)
    ensures Apart(Run(p, events))
  {
    hide Run, Apart;
    assert events[..|events|] == events;
  }
}
