/**
 Blocking on keys (blocked.c): clients block and unblock, keys are signalled as ready, and
 the ready keys are handled by re-executing the commands of the clients that wait for them.
 What a re-executed command does to this state (block clients again, signal keys) is an
 arbitrary script chosen by the environment.
 */
module Blocking {

  import opened BlockIndex
  import opened Options

  /** Kinds of blocking; `NotBlocked` is BLOCKED_NONE. */
  datatype BlockType = NotBlocked | OnList | OnZset | OnStream | OnModule | OnWait | OnPostpone | OnShutdown

  /** Kinds of values a key can hold, as far as blocking tells them apart. */
  datatype ValueType = ListValue | ZsetValue | StreamValue | ModuleValue | OtherValue

  /** getBlockedTypeByType. */
  function BlockTypeOf(t: ValueType): BlockType {
    match t
    case ListValue => OnList
    case ZsetValue => OnZset
    case ModuleValue => OnModule
    case StreamValue => OnStream
    case OtherValue => NotBlocked
  }

  predicate WaitsForData(t: BlockType) { t == OnList || t == OnZset || t == OnStream }

  predicate ForKeys(t: BlockType) { WaitsForData(t) || t == OnModule }

  /** Flags and blocking state of a client; its keys are in the index. */
  datatype ClientState = ClientState(
    blocked: bool,
    kind: BlockType,
    onNoKey: bool,
    pending: bool,
    queued: bool,
    isModule: bool)

  type Clients = map<Client, ClientState>

  // ---------------------------------------------------------------- invariants

  function Wants(cs: Clients): set<Client> { set c | c in cs && cs[c].onNoKey }

  function BlockedAs(cs: Clients, t: BlockType): set<Client> { set c | c in cs && cs[c].blocked && cs[c].kind == t }

  function BlockedRegular(cs: Clients): set<Client> { set c | c in cs && cs[c].blocked && !cs[c].isModule }

  predicate ClientStatus(cs: Clients, x: Index, c: Client) {
    && (KeysOf(x, c) != map[] ==> c in cs && ForKeys(cs[c].kind))
    && (c in cs ==> (cs[c].blocked <==> cs[c].kind != NotBlocked) && (cs[c].onNoKey ==> cs[c].blocked))
    && (c in cs && WaitsForData(cs[c].kind) ==> cs[c].pending)
  }

  ghost predicate Status(cs: Clients, x: Index) { forall c :: ClientStatus(cs, x, c) }

  /** Every counter is the number of clients it counts. */
  ghost predicate Counted(cs: Clients, byType: map<BlockType, nat>, regular: nat) {
    && (forall t :: t in byType && byType[t] == |BlockedAs(cs, t)|)
    && regular == |BlockedRegular(cs)|
  }

  predicate NoRepeats<T(==)>(s: seq<T>) { forall i, j :: 0 <= i < j < |s| ==> s[i] != s[j] }

  /** A queue without repetitions beside the set of its members. */
  ghost predicate Pending<T(!new)>(s: seq<T>, members: set<T>) { NoRepeats(s) && forall k :: k in members <==> k in s }

  function Queued(cs: Clients): set<Client> { set c | c in cs && cs[c].queued }

  // ---------------------------------------------------------------- lemmas about the counters

  function One(b: bool): int { if b then 1 else 0 }

  /** Two sets that differ at most in one element. */
  lemma OneDiffers(a: set<Client>, b: set<Client>, c: Client)
    requires forall d :: d != c ==> (d in a <==> d in b)
    ensures |b| == |a| - One(c in a) + One(c in b)
    ensures c in a ==> |a| > 0
  {
    assert a - {c} == b - {c};
    SizeWithout(a, c);
    SizeWithout(b, c);
  }

  lemma SizeWithout(a: set<Client>, c: Client)
    ensures |a - {c}| == |a| - One(c in a)
  {
    if c in a { assert a == (a - {c}) + {c}; } else { assert a - {c} == a; }
  }

  lemma BlockedAsChanged(cs: Clients, c: Client, s: ClientState, t: BlockType)
    requires c in cs
    ensures |BlockedAs(cs[c := s], t)| ==
            |BlockedAs(cs, t)| - One(cs[c].blocked && cs[c].kind == t) + One(s.blocked && s.kind == t)
    ensures cs[c].blocked && cs[c].kind == t ==> |BlockedAs(cs, t)| > 0
  {
    OneDiffers(BlockedAs(cs, t), BlockedAs(cs[c := s], t), c);
  }

  lemma BlockedRegularChanged(cs: Clients, c: Client, s: ClientState)
    requires c in cs
    ensures |BlockedRegular(cs[c := s])| ==
            |BlockedRegular(cs)| - One(cs[c].blocked && !cs[c].isModule) + One(s.blocked && !s.isModule)
    ensures cs[c].blocked && !cs[c].isModule ==> |BlockedRegular(cs)| > 0
  {
    OneDiffers(BlockedRegular(cs), BlockedRegular(cs[c := s]), c);
  }

  lemma CountedBlock(cs: Clients, byType: map<BlockType, nat>, regular: nat, c: Client, s: ClientState)
    requires Counted(cs, byType, regular) && c in cs && !cs[c].blocked
    requires s.blocked && s.isModule == cs[c].isModule
    ensures Counted(cs[c := s], byType[s.kind := byType[s.kind] + 1], if s.isModule then regular else regular + 1)
  {
    hide BlockedAs, BlockedRegular;
    forall t { BlockedAsChanged(cs, c, s, t); }
    BlockedRegularChanged(cs, c, s);
  }

  lemma CountedUnblock(cs: Clients, byType: map<BlockType, nat>, regular: nat, c: Client, s: ClientState)
    requires Counted(cs, byType, regular) && c in cs && cs[c].blocked
    requires !s.blocked && s.isModule == cs[c].isModule
    ensures byType[cs[c].kind] > 0 && (!s.isModule ==> regular > 0)
    ensures Counted(cs[c := s], byType[cs[c].kind := byType[cs[c].kind] - 1],
                    if s.isModule then regular else regular - 1)
  {
    hide BlockedAs, BlockedRegular;
    forall t { BlockedAsChanged(cs, c, s, t); }
    BlockedAsChanged(cs, c, s, cs[c].kind);
    BlockedRegularChanged(cs, c, s);
  }

  lemma CountedSame(cs: Clients, byType: map<BlockType, nat>, regular: nat, c: Client, s: ClientState)
    requires Counted(cs, byType, regular) && c in cs
    requires s.blocked == cs[c].blocked && s.kind == cs[c].kind && s.isModule == cs[c].isModule
    ensures Counted(cs[c := s], byType, regular)
  {
    hide BlockedAs, BlockedRegular;
    forall t { BlockedAsChanged(cs, c, s, t); }
    BlockedRegularChanged(cs, c, s);
  }

  /** A client of a kind keeps the counter of that kind positive. */
  lemma CountedPositive(cs: Clients, byType: map<BlockType, nat>, regular: nat, c: Client)
    requires Counted(cs, byType, regular) && c in cs && cs[c].blocked
    ensures byType[cs[c].kind] > 0
  {
    assert c in BlockedAs(cs, cs[c].kind);
  }

  lemma SetsChanged(cs: Clients, c: Client, s: ClientState)
    requires c in cs
    ensures Wants(cs[c := s]) == Wants(cs) - {c} + if s.onNoKey then {c} else {}
    ensures Queued(cs[c := s]) == Queued(cs) - {c} + if s.queued then {c} else {}
    ensures c in Wants(cs) <==> cs[c].onNoKey
    ensures c in Queued(cs) <==> cs[c].queued
  {
  }

  lemma Overwrite(cs: Clients, c: Client, s: ClientState, t: ClientState)
    ensures cs[c := s][c := t] == cs[c := t]
  {
  }

  /** The sets when a client that was not blocked, and so did not wait for deletions, changes. */
  lemma SetsWhenBlocked(cs: Clients, c: Client, s: ClientState)
    requires c in cs && !cs[c].onNoKey && s.queued == cs[c].queued
    ensures Wants(cs[c := s]) == if s.onNoKey then Wants(cs) + {c} else Wants(cs) - {c}
    ensures !s.onNoKey ==> Wants(cs[c := s]) == Wants(cs)
    ensures Queued(cs[c := s]) == Queued(cs)
  {
    SetsChanged(cs, c, s);
  }

  lemma PendingAppend<T(!new)>(s: seq<T>, members: set<T>, k: T)
    requires Pending(s, members) && k !in members
    ensures Pending(s + [k], members + {k})
  {
  }

  lemma PendingFirst<T(!new)>(s: seq<T>, members: set<T>)
    requires Pending(s, members) && s != []
    ensures Pending(s[1..], members - {s[0]})
  {
    forall k ensures k in members - {s[0]} <==> k in s[1..] {
      if k in s && k != s[0] {
        var i :| 0 <= i < |s| && s[i] == k;
        assert s[1..][i - 1] == k;
      }
    }
  }

  // ---------------------------------------------------------------- the environment

  /** What a command may do to the blocking state while it runs. */
  datatype Action =
    | BlockForKeys(client: Client, kind: BlockType, keys: seq<Key>, noKey: bool)
    | BlockOtherwise(client: Client, kind: BlockType)
    | Signal(key: Key, value: ValueType, deleted: bool)

  /**
   What the server finds under the key when it looks at one waiting client, what its command then
   does, and what the handler does that a module has for the end of its client's command.
   */
  datatype Visit = Visit(found: Option<ValueType>, script: seq<Action>, handler: seq<Action>)

  function VisitAt(visits: seq<Visit>, i: nat): Visit {
    if i < |visits| then visits[i] else Visit(None, [], [])
  }

  /** The condition under which a waiting client is served. */
  predicate Serves(s: ClientState, found: Option<ValueType>) {
    || (found.Some? && s.kind == BlockTypeOf(found.value))
    || (found.Some? && s.kind == OnModule)
    || s.onNoKey
  }

  /** Whether a signal reaches the queue, by the quick checks of signalKeyAsReadyLogic. */
  predicate Signals(x: Index, byType: map<BlockType, nat>, key: Key, value: ValueType, deleted: bool) {
    var kind := BlockTypeOf(value);
    && kind != NotBlocked
    && ((kind in byType && byType[kind] != 0) || (OnModule in byType && byType[OnModule] != 0))
    && (if deleted then key in x.noKey else key in x.waiting)
  }

  /** Client c waits for what the signal announces: this kind of value, or the loss of the key. */
  predicate Awaits(cs: Clients, x: Index, c: Client, key: Key, value: ValueType, deleted: bool) {
    && c in cs && key in KeysOf(x, c)
    && BlockTypeOf(value) != NotBlocked
    && (cs[c].kind == BlockTypeOf(value) || cs[c].kind == OnModule)
    && (deleted ==> cs[c].onNoKey)
  }

  function Bump(byType: map<BlockType, nat>, t: BlockType): map<BlockType, nat> {
    byType[t := if t in byType then byType[t] + 1 else 1]
  }

  /** A client once it is blocked for keys, or for another reason. */
  function KeyBlocked(s: ClientState, t: BlockType, noKey: bool): ClientState {
    s.(blocked := true, kind := t, onNoKey := noKey, pending := s.pending || t != OnModule)
  }

  function ElseBlocked(s: ClientState, t: BlockType): ClientState {
    s.(blocked := true, kind := t, pending := s.pending || t == OnPostpone)
  }

  /** The part of the state that running commands change. */
  datatype Core = Core(index: Index, clients: Clients, byType: map<BlockType, nat>, ready: seq<Key>, readySet: set<Key>)

  /** The effect of one action; blocking a client that is blocked already is no effect. */
  function Acted(s: Core, a: Action): Core {
    match a
    case BlockForKeys(c, kind, keys, noKey) =>
      if c in s.clients && !s.clients[c].blocked && ForKeys(kind) then
        s.(index := JoinAll(s.index, c, keys, noKey), clients := s.clients[c := KeyBlocked(s.clients[c], kind, noKey)],
           byType := Bump(s.byType, kind))
      else s
    case BlockOtherwise(c, kind) =>
      if c in s.clients && !s.clients[c].blocked && kind != NotBlocked && !ForKeys(kind) then
        s.(clients := s.clients[c := ElseBlocked(s.clients[c], kind)], byType := Bump(s.byType, kind))
      else s
    case Signal(key, value, deleted) =>
      if Signals(s.index, s.byType, key, value, deleted) then
        s.(ready := if key in s.readySet then s.ready else s.ready + [key], readySet := s.readySet + {key})
      else s
  }

  function Performed(s: Core, script: seq<Action>): Core {
    if script == [] then s else Acted(Performed(s, script[..|script| - 1]), script[|script| - 1])
  }

  /** A client that is no longer blocked. */
  function Freed(s: ClientState): ClientState { s.(blocked := false, kind := NotBlocked, onNoKey := false) }

  /**
   The command of client c ran in state `mid`; unless it blocked again the client is queued, or the
   handler called if it is a module's.
   */
  predicate Reran(mid: Core, script: seq<Action>, handler: seq<Action>, c: Client, now: Core) {
    var end := Performed(mid, script);
    && c in end.clients
    && now == if end.clients[c].blocked then end
              else if end.clients[c].isModule then Performed(end, handler)
              else end.(clients := end.clients[c := end.clients[c].(queued := true)])
  }

  class Server {
    var index: Index
    var clients: Clients
    var byType: map<BlockType, nat>
    var blockedClients: nat
    var unblocked: seq<Client>
    var ready: seq<Key>
    var readySet: set<Key>
    var draining: seq<Key>
    var handling: bool

    ghost predicate Valid()
      reads this
    {
      && Exact(index, Wants(clients)) && Status(clients, index)
      && Counted(clients, byType, blockedClients)
      && Pending(unblocked, Queued(clients))
      && Pending(draining + ready, readySet)
      && (!handling ==> draining == [])
    }

    ghost function Now(): Core
      reads this
    {
      Core(index, clients, byType, ready, readySet)
    }

    constructor (names: set<Client>, modules: set<Client>)
      ensures Valid() && index.waiting == map[] && ready == draining == [] && !handling
      ensures clients.Keys == names && forall c :: c in names ==> !clients[c].blocked
    {
      index := Index(map[], map[], map[], 0);
      clients := map c | c in names :: ClientState(false, NotBlocked, false, false, false, c in modules);
      byType := map[NotBlocked := 0, OnList := 0, OnZset := 0, OnStream := 0,
                    OnModule := 0, OnWait := 0, OnPostpone := 0, OnShutdown := 0];
      blockedClients := 0;
      unblocked, ready, readySet, draining, handling := [], [], {}, [], false;
      new;
      assert BlockedRegular(clients) == {};
      forall t ensures t in byType && byType[t] == |BlockedAs(clients, t)| {
        assert BlockedAs(clients, t) == {};
        assert t.NotBlocked? || t.OnList? || t.OnZset? || t.OnStream? || t.OnModule? || t.OnWait? || t.OnPostpone?
            || t.OnShutdown?;
      }
    }

    /** blockClient. */
    method BlockClient(c: Client, t: BlockType)
      requires Counted(clients, byType, blockedClients)
      requires c in clients && !clients[c].blocked
      modifies this`clients, this`byType, this`blockedClients
      ensures clients == old(clients)[c := old(clients[c]).(blocked := true, kind := t)]
      ensures Counted(clients, byType, blockedClients) && byType == Bump(old(byType), t)
    {
      var s := clients[c].(blocked := true, kind := t);
      CountedBlock(clients, byType, blockedClients, c, s);
      clients := clients[c := s];
      if !s.isModule { blockedClients := blockedClients + 1; }
      byType := byType[t := byType[t] + 1];
    }

    /** The loop of blockForKeys: a key that occurs again is ignored. */
    method JoinLists(c: Client, keys: seq<Key>, noKey: bool, ghost wants: set<Client>)
      requires Exact(index, wants) && KeysOf(index, c) == map[] && (noKey <==> c in wants)
      modifies this`index
      ensures Exact(index, wants) && Joined(old(index), index, c, keys)
      ensures index == JoinAll(old(index), c, keys, noKey)
    {
      hide Exact, Added, Joined, KeysOf;
      JoinedNone(index, c);
      for j := 0 to |keys|
        invariant Exact(index, wants) && Joined(old(index), index, c, keys[..j])
        invariant index == JoinAll(old(index), c, keys[..j], noKey)
      {
        JoinedNext(old(index), index, c, keys[..j], keys[j], noKey);
        assert keys[..j + 1] == keys[..j] + [keys[j]];
        if keys[j] !in KeysOf(index, c) {
          AddedExact(index, wants, c, keys[j], noKey);
          index := Added(index, c, keys[j], noKey);
        }
      }
      assert keys[..|keys|] == keys;
    }

    /** blockForKeys. */
    method JoinKeys(c: Client, t: BlockType, keys: seq<Key>, noKey: bool)
      requires Valid() && c in clients && !clients[c].blocked && ForKeys(t)
      modifies this`index, this`clients, this`byType, this`blockedClients
      ensures Valid()
      ensures Joined(old(index), index, c, keys)
      ensures clients == old(clients)[c := KeyBlocked(old(clients[c]), t, noKey)]
      ensures index == JoinAll(old(index), c, keys, noKey) && byType == Bump(old(byType), t)
    {
      hide Exact, Counted, Joined, JoinAll, Pending, Wants, Queued, Status, ForKeys, KeysOf;
      ghost var wants := if noKey then Wants(clients) + {c} else Wants(clients) - {c};
      NotBlockedNoKeys(clients, index, c);
      WantsChange(index, Wants(clients), wants, c);
      JoinLists(c, keys, noKey, wants);
      var s := clients[c].(onNoKey := noKey);
      if t != OnModule { s := s.(pending := true); }
      CountedSame(clients, byType, blockedClients, c, s);
      clients := clients[c := s];
      BlockClient(c, t);
      Overwrite(old(clients), c, s, clients[c]);
      SetsWhenBlocked(old(clients), c, clients[c]);
      StatusJoined(old(clients), old(index), c, clients[c], index, keys);
    }

    /** unblockClientWaitingData. */
    method LeaveKeys(c: Client)
      requires Exact(index, Wants(clients)) && c in clients
      modifies this`index
      ensures Exact(index, Wants(clients)) && Dropped(old(index), index, c)
    {
      hide Exact, Wants, Dropped, Leaving, Restricted;
      ghost var wants := Wants(clients);
      assert c in wants <==> clients[c].onNoKey by { SetsChanged(clients, c, clients[c]); }
      if KeysOf(index, c) == map[] {
        NothingToDrop(index, wants, c);
        return;
      }
      var rest := KeysOf(index, c).Keys;
      LeavingStart(index, wants, c);
      while rest != {}
        invariant Leaving(old(index), index, c, rest) && Exact(Restricted(index, c, rest), wants)
        decreases |rest|
      {
        var k :| k in rest;
        LeavingNext(old(index), index, wants, c, rest, k);
        assert k in index.waiting && (clients[c].onNoKey ==> k in index.noKey);
        index := Unlisted(index, k, KeysOf(index, c)[k], clients[c].onNoKey);
        rest := rest - {k};
      }
      LeavingEnd(old(index), index, wants, c);
      index := index.(keys := index.keys[c := map[]]);
    }

    /** queueClientForReprocessing. */
    method Enqueue(c: Client)
      requires Valid() && c in clients
      modifies this`clients, this`unblocked
      ensures Valid()
      ensures clients == old(clients)[c := old(clients[c]).(queued := true)]
      ensures unblocked == if old(clients[c]).queued then old(unblocked) else old(unblocked) + [c]
    {
      hide Exact, Counted, Pending, Wants, Queued, Status;
      var s := clients[c].(queued := true);
      SetsChanged(clients, c, s);
      if !clients[c].queued {
        CountedSame(clients, byType, blockedClients, c, s);
        StatusKept(clients, index, c, s);
        PendingAppend(unblocked, Queued(clients), c);
        clients := clients[c := s];
        unblocked := unblocked + [c];
        assert Wants(clients) == Wants(old(clients)) && Queued(clients) == Queued(old(clients)) + {c};
      } else {
        assert clients == clients[c := s];
      }
    }

    /** unblockClient. */
    method UnblockClient(c: Client, queue: bool)
      requires Valid() && c in clients && clients[c].blocked
      modifies this`index, this`clients, this`byType, this`blockedClients, this`unblocked
      ensures Valid()
      ensures Dropped(old(index), index, c)
      ensures clients == old(clients)[c := old(clients[c]).(blocked := false, kind := NotBlocked, onNoKey := false,
                                               queued := old(clients[c]).queued || queue)]
      ensures unblocked == if queue && !old(clients[c]).queued then old(unblocked) + [c] else old(unblocked)
    {
      hide Exact, Counted, Pending, Wants, Queued, Status, Dropped;
      if ForKeys(clients[c].kind) {
        LeaveKeys(c);
      } else {
        assert KeysOf(index, c) == map[] by { StatusAt(clients, index, c); }
        NothingToDrop(index, Wants(clients), c);
      }
      var s := Freed(clients[c]);
      CountersExist(clients, byType, blockedClients);
      CountedUnblock(clients, byType, blockedClients, c, s);
      FreedOk(clients, old(index), index, c);
      if !s.isModule { blockedClients := blockedClients - 1; }
      byType := byType[clients[c].kind := byType[clients[c].kind] - 1];
      clients := clients[c := s];
      if queue {
        Enqueue(c);
        Overwrite(old(clients), c, s, clients[c]);
      }
    }

    /** signalKeyAsReadyLogic: a signal that some waiting client needs is never lost. */
    method SignalKey(key: Key, value: ValueType, deleted: bool)
      requires Valid()
      modifies this`ready, this`readySet
      ensures Valid()
      ensures ready == if Signals(index, byType, key, value, deleted) && key !in old(readySet)
                       then old(ready) + [key] else old(ready)
      ensures readySet == if Signals(index, byType, key, value, deleted) then old(readySet) + {key} else old(readySet)
      ensures forall c :: Awaits(clients, index, c, key, value, deleted) ==> key in readySet
    {
      hide Exact, Counted, Pending, Status;
      assert forall t :: t in byType by { CountersExist(clients, byType, blockedClients); }
      forall c | Awaits(clients, index, c, key, value, deleted)
        ensures Signals(index, byType, key, value, deleted)
      {
        WaiterSignals(clients, index, byType, blockedClients, key, value, deleted, c);
      }
      var kind := BlockTypeOf(value);
      if kind == NotBlocked { return; }
      if byType[kind] == 0 && byType[OnModule] == 0 { return; }
      if deleted {
        if key !in index.noKey { return; }
      } else {
        if key !in index.waiting { return; }
      }
      if key in readySet { return; }
      PendingAppend(draining + ready, readySet, key);
      assert draining + ready + [key] == draining + (ready + [key]);
      readySet := readySet + {key};
      ready := ready + [key];
    }

    /** The effects of a running command, one after the other. */
    method Perform(script: seq<Action>)
      requires Valid()
      modifies this`index, this`clients, this`byType, this`blockedClients, this`ready, this`readySet
      ensures Valid()
      ensures Now() == Performed(old(Now()), script)
      ensures AllGrown(old(index), index) && Undisturbed(old(clients), clients)
      ensures old(ready) <= ready && (script == [] ==> ready == old(ready))
    {
      hide Exact, Counted, Pending, Status, AllGrown, Joined, Wants, Queued, Undisturbed, ForKeys, Signals, JoinAll,
        Performed, KeyBlocked, ElseBlocked, Bump;
      PerformedNone(Now());
      GrownSame(index);
      SameUndisturbed(clients);
      for i := 0 to |script|
        invariant Valid()
        invariant Now() == Performed(old(Now()), script[..i])
        invariant AllGrown(old(index), index) && Undisturbed(old(clients), clients)
        invariant old(ready) <= ready && (script == [] ==> ready == old(ready))
      {
        ghost var before, cs := index, clients;
        PerformedNext(old(Now()), script, i);
        match script[i] {
          case BlockForKeys(c, kind, keys, noKey) =>
            if c in clients && !clients[c].blocked && ForKeys(kind) {
              JoinKeys(c, kind, keys, noKey);
              JoinedGrows(before, index, c, keys);
              AllGrownTwice(old(index), before, index);
              OneUndisturbed(old(clients), cs, c, clients[c]);
            }
          case BlockOtherwise(c, kind) =>
            if c in clients && !clients[c].blocked && kind != NotBlocked && !ForKeys(kind) {
              BlockElse(c, kind);
              OneUndisturbed(old(clients), cs, c, clients[c]);
            }
          case Signal(key, value, deleted) =>
            SignalKey(key, value, deleted);
        }
      }
      assert script[..|script|] == script;
    }

    /** blockClientForReplicaAck, blockPostponeClient and blockClientShutdown, as far as the shared state goes. */
    method BlockElse(c: Client, kind: BlockType)
      requires Valid() && c in clients && !clients[c].blocked && kind != NotBlocked && !ForKeys(kind)
      modifies this`clients, this`byType, this`blockedClients
      ensures Valid()
      ensures clients == old(clients)[c := ElseBlocked(old(clients[c]), kind)] && byType == Bump(old(byType), kind)
    {
      hide Exact, Counted, Pending, Status, Wants, Queued;
      BlockClient(c, kind);
      var s := clients[c].(pending := clients[c].pending || kind == OnPostpone);
      CountedSame(clients, byType, blockedClients, c, s);
      Overwrite(old(clients), c, clients[c], s);
      clients := clients[c := s];
      NotBlockedNoKeys(old(clients), index, c);
      SetsWhenBlocked(old(clients), c, s);
      StatusBlocked(old(clients), index, c, s);
    }

    /** The first half of unblockClientOnKey: the entry of the key goes first, then all others. */
    method Detach(c: Client, key: Key)
      requires Valid() && c in clients && key in KeysOf(index, c) && WaitsForData(clients[c].kind)
      modifies this`index, this`clients, this`byType, this`blockedClients, this`unblocked
      ensures Valid()
      ensures Dropped(old(index), index, c) && unblocked == old(unblocked)
      ensures clients == old(clients)[c := Freed(old(clients[c]))]
    {
      hide Exact, Counted, Pending, Status, Wants, Queued, Dropped, Unlisted, Restricted;
      ghost var wants, start := Wants(clients), index;
      assert c in wants <==> clients[c].onNoKey by { SetsChanged(clients, c, clients[c]); }
      assert clients[c].blocked by { StatusAt(clients, index, c); }
      ReleasedExact(index, wants, c, key, KeysOf(index, c).Keys);
      StatusReleased(clients, index, wants, c, key);
      index := Restricted(Unlisted(index, key, KeysOf(index, c)[key], clients[c].onNoKey),
                          c, KeysOf(index, c).Keys - {key});
      UnblockClient(c, false);
      ReleasedThenDropped(start, index, wants, c, key);
    }

    /** The command of a client that was freed, and what follows unless it blocks again. */
    method Rerun(c: Client, script: seq<Action>, handler: seq<Action>)
      requires Valid() && c in clients && !clients[c].blocked
      modifies this`index, this`clients, this`byType, this`blockedClients, this`ready, this`readySet, this`unblocked
      ensures Valid() && Reran(old(Now()), script, handler, c, Now())
      ensures AllGrown(old(index), index) && UndisturbedBut(old(clients), clients, c)
      ensures old(ready) <= ready && (script == handler == [] ==> ready == old(ready))
    {
      hide Exact, Counted, Pending, Status, Wants, Queued, AllGrown, Performed, Undisturbed;
      Perform(script);
      ghost var mid, cs := index, clients;
      ButUndisturbed(old(clients), cs, c);
      if !clients[c].blocked {
        if clients[c].isModule {
          Perform(handler);
          AllGrownTwice(old(index), mid, index);
          UndisturbedTwice(old(clients), cs, clients, c);
        } else {
          Enqueue(c);
        }
      }
    }

    /**
     unblockClientOnKey: the client leaves all its lists before its command runs again. `mid` is the
     state in which the command starts.
     */
    method UnblockOnKey(c: Client, key: Key, script: seq<Action>, handler: seq<Action>)
      returns (ghost mid: Core)
      requires Valid() && c in clients && key in KeysOf(index, c) && WaitsForData(clients[c].kind)
      modifies this`index, this`clients, this`byType, this`blockedClients, this`ready, this`readySet, this`unblocked
      ensures Valid()
      ensures Dropped(old(index), mid.index, c) && mid.ready == old(ready) && mid.readySet == old(readySet)
      ensures mid.clients == old(clients)[c := Freed(old(clients[c])).(pending := false)]
      ensures Reran(mid, script, handler, c, Now())
      ensures LeftThenGrown(old(index), index, c)
      ensures UndisturbedBut(old(clients), clients, c)
      ensures old(ready) <= ready && (script == handler == [] ==> ready == old(ready))
    {
      hide Exact, Counted, Pending, Status, Wants, Queued, Dropped, AllGrown, LeftThenGrown, Performed, KeysOf;
      ghost var start := index;
      assert clients[c].pending by { StatusAt(clients, index, c); }
      Detach(c, key);
      ghost var left := index;
      GrownSame(index);
      mid := Now();
      if clients[c].pending {
        SetPending(c, false);
        mid := Now();
        Rerun(c, script, handler);
      }
      DroppedThenGrown(start, left, index, c);
    }

    method SetPending(c: Client, pending: bool)
      requires Valid() && c in clients && !WaitsForData(clients[c].kind)
      modifies this`clients
      ensures Valid()
      ensures clients == old(clients)[c := old(clients[c]).(pending := pending)]
    {
      hide Exact, Counted, Pending, Status, Wants, Queued;
      var s := clients[c].(pending := pending);
      CountedSame(clients, byType, blockedClients, c, s);
      StatusKept(clients, index, c, s);
      SetsChanged(clients, c, s);
      assert Wants(clients[c := s]) == Wants(clients) && Queued(clients[c := s]) == Queued(clients);
      clients := clients[c := s];
    }

    /**
     handleClientsBlockedOnKey: exactly the clients that waited when the pass began are visited,
     each once and in order; those that are released leave the list, the others keep their order,
     and whoever blocks during the pass stands behind them unvisited.
     */
    method HandleKey(key: Key, visits: seq<Visit>) returns (visited: seq<Client>, released: seq<bool>)
      requires Valid()
      modifies this`index, this`clients, this`byType, this`blockedClients, this`ready, this`readySet, this`unblocked
      ensures Valid()
      ensures Passed(old(index), old(clients), key, visits, visited, released, index)
      ensures Remain(old(index), old(clients), index, clients, Gone(visited, released))
      ensures old(ready) <= ready && (visits == [] ==> ready == old(ready))
      ensures clients.Keys == old(clients.Keys)
    {
      hide Exact, Counted, Pending, Status, Wants, Queued, AllButGrown, DistinctEntries, NoRepeats, HasNode, VisitAt,
        Grown, ClientsOf, Outcomes, UndisturbedBut, Undisturbed, Midway, Find, Released, Passed, Remain, Gone, Dropped,
        Reran, Performed, Serves, Without;
      visited, released := [], [];
      ghost var start, was0, first, bound := clients, index, WaitingOf(index, key), index.next;
      ghost var gone, todo, kept := [], first, [];
      MidwayStart(clients, index, Wants(clients), key, visits);
      RemainStart(index, clients);
      if key !in index.waiting {
        MidwayEnd(start, clients, visits, first, gone, released, kept, visited, index, index, key);
        return;
      }
      var count := |index.waiting[key]|;
      var next := if count == 0 then None else Some(index.waiting[key][0].node);
      if count > 0 { HasItself(first, 0); }
      while next.Some?
        invariant Valid() && clients.Keys == start.Keys && bound <= index.next
        invariant 0 <= count == |todo| && |visited| == |released|
        invariant Midway(start, clients, visits, first, gone, todo, released, kept, visited,
                         WaitingOf(index, key), bound)
        invariant Remain(was0, start, index, clients, Gone(visited, released))
        invariant todo != [] ==> next == Some(todo[0].node)
        invariant next.Some? ==> HasNode(WaitingOf(index, key), next.value)
        invariant old(ready) <= ready && (visits == [] ==> ready == old(ready))
        decreases count, next.Some?
      {
        var list := WaitingOf(index, key);
        FoundNode(list, next.value);
        var p := Find(list, next.value);
        next := if p + 1 < |list| then Some(list[p + 1].node) else None;
        if count == 0 { break; }
        count := count - 1;
        ghost var e, rest := todo[0], todo[1..];
        assert todo == [e] + rest;
        FirstFacts(clients, index, Wants(clients), key);
        MidwayHere(start, clients, visits, first, gone, e, rest, released, kept, visited, list, bound);
        var receiver := list[p].client;
        ghost var was, before := index, clients;
        NoScript(visits, |released|);
        var out, _ := VisitClient(receiver, key, VisitAt(visits, |released|));
        GrownAt(was, index, receiver, out, key);
        MidwayNext(start, before, clients, visits, first, gone, e, rest, released, kept, visited,
                   list, WaitingOf(index, key), bound, was.next, out);
        RemainNext(was0, start, was, before, index, clients, visited, released, receiver, out);
        visited, released := visited + [receiver], released + [out];
        gone, todo, kept := gone + [e], rest, kept + if out then [] else [e];
      }
      MidwayEnd(start, clients, visits, first, gone, released, kept, visited, was0, index, key);
    }

    /** One turn of the loop of handleClientsBlockedOnKey. */
    method VisitClient(receiver: Client, key: Key, visit: Visit) returns (released: bool, ghost mid: Core)
      requires Valid() && receiver in clients && key in KeysOf(index, receiver)
      modifies this`index, this`clients, this`byType, this`blockedClients, this`ready, this`readySet, this`unblocked
      ensures Valid()
      ensures released <==> Released(old(clients)[receiver], visit.found)
      ensures !released ==>
                Now() == if Serves(old(clients)[receiver], visit.found) then Performed(old(Now()), visit.script)
                         else old(Now())
      ensures !released ==> Undisturbed(old(clients), clients)
      ensures released ==> Dropped(old(index), mid.index, receiver)
                           && mid.clients == old(clients)[receiver := Freed(old(clients[receiver])).(pending := false)]
                           && Reran(mid, visit.script, visit.handler, receiver, Now())
      ensures AllButGrown(old(index), index, receiver, released)
      ensures UndisturbedBut(old(clients), clients, receiver)
      ensures old(ready) <= ready && (visit.script == visit.handler == [] ==> ready == old(ready))
    {
      hide Exact, Counted, Pending, Status, Wants, Queued, LeftThenGrown, AllGrown;
      released, mid := false, Now();
      GrownSame(index);
      SameUndisturbed(clients);
      StatusAt(clients, index, receiver);
      if Serves(clients[receiver], visit.found) {
        if clients[receiver].kind != OnModule {
          mid := UnblockOnKey(receiver, key, visit.script, visit.handler);
          released := true;
        } else {
          Perform(visit.script);
        }
      }
      GrownBut(old(index), index, receiver, released);
    }

    /** The first of the ready keys taken over: it may be signalled again while it is handled. */
    method HandleFirst(world: seq<Visit>) returns (r: Round)
      requires Valid() && handling && draining != []
      modifies this`index, this`clients, this`byType, this`blockedClients, this`ready, this`readySet, this`unblocked,
               this`draining
      ensures Valid()
      ensures r.key == old(draining)[0] && draining == old(draining)[1..]
      ensures Passed(old(index), old(clients), r.key, world, r.visited, r.released, index)
      ensures Remain(old(index), old(clients), index, clients, Gone(r.visited, r.released))
      ensures old(ready) <= ready && (world == [] ==> ready == old(ready))
    {
      hide Exact, Counted, Pending, Status, Wants, Queued, Passed, Remain;
      var key := draining[0];
      PendingFirst(draining + ready, readySet);
      assert (draining + ready)[1..] == draining[1..] + ready;
      readySet := readySet - {key};
      draining := draining[1..];
      var visited, released := HandleKey(key, world);
      r := Round(key, visited, released);
    }

    /**
     handleClientsBlockedOnKeys: one round for each ready key in the order they were signalled, also for
     those that handling makes ready, until none is left. `draining` is the part of the list taken over
     that is behind the key being handled. Once `worlds` is used up the commands do nothing more.
     */
    method HandleReady(worlds: seq<seq<Visit>>) returns (rounds: seq<Round>, ghost states: seq<(Index, Clients)>)
      requires Valid()
      modifies this
      ensures Valid() && handling == old(handling)
      ensures Rounds(states, rounds, worlds)
      ensures states[0] == old((index, clients)) && states[|rounds|] == (index, clients)
      ensures old(handling) ==> rounds == [] && ready == old(ready)
      ensures !old(handling) ==> ready == [] && readySet == {} && old(ready) <= KeysHandled(rounds)
    {
      hide Exact, Counted, Pending, Status, Wants, Queued, Rounds, Passed, Remain, KeysHandled, WorldAt;
      rounds, states := [], [(index, clients)];
      NoRounds((index, clients), worlds);
      if handling { return; }
      handling := true;
      while ready != []
        invariant Valid() && handling && draining == []
        invariant Rounds(states, rounds, worlds) && |states| == |rounds| + 1
        invariant states[0] == old((index, clients)) && states[|rounds|] == (index, clients)
        invariant old(ready) <= KeysHandled(rounds) + ready
        decreases if |rounds| < |worlds| then |worlds| - |rounds| else 0, |ready|
      {
        ghost var n := |rounds|;
        assert draining + ready == ready + [];
        draining, ready := ready, [];
        assert KeysHandled(rounds) + draining == KeysHandled(rounds) + draining + ready;
        while draining != []
          invariant Valid() && handling && n <= |rounds|
          invariant Rounds(states, rounds, worlds) && |states| == |rounds| + 1
          invariant states[0] == old((index, clients)) && states[|rounds|] == (index, clients)
          invariant old(ready) <= KeysHandled(rounds) + draining
          invariant n >= |worlds| ==> ready == []
          invariant draining == [] ==> |rounds| > n
          decreases |draining|
        {
          assert KeysHandled(rounds) + draining == KeysHandled(rounds) + [draining[0]] + draining[1..];
          var r := HandleFirst(WorldAt(worlds, |rounds|));
          NextRound(states, rounds, worlds, r, (index, clients));
          if |rounds| >= |worlds| { NoWorld(worlds, |rounds|); }
          rounds := rounds + [r];
          states := states + [(index, clients)];
        }
        assert KeysHandled(rounds) + draining == KeysHandled(rounds) <= KeysHandled(rounds) + ready;
      }
      assert KeysHandled(rounds) + ready == KeysHandled(rounds);
      PendingNone(draining + ready, readySet);
      handling := false;
    }

    /** processUnblockedClients, for one client: it leaves the queue and may be queued again. */
    method TakeUnblocked() returns (c: Client)
      requires Valid() && unblocked != []
      modifies this`clients, this`unblocked
      ensures Valid()
      ensures c == old(unblocked)[0] && unblocked == old(unblocked)[1..]
      ensures c in old(clients) && clients == old(clients)[c := old(clients)[c].(queued := false)]
    {
      hide Exact, Counted, Status, Wants;
      c := unblocked[0];
      assert c in Queued(clients);
      var s := clients[c].(queued := false);
      CountedSame(clients, byType, blockedClients, c, s);
      StatusKept(clients, index, c, s);
      SetsChanged(clients, c, s);
      PendingFirst(unblocked, Queued(clients));
      assert Wants(clients[c := s]) == Wants(clients) && Queued(clients[c := s]) == Queued(clients) - {c};
      unblocked := unblocked[1..];
      clients := clients[c := s];
    }

    /** Any run of the server: commands, time-outs, and the handling of ready keys, in any order. */
    method Run(steps: seq<Step>)
      requires Valid() && !handling
      modifies this
      ensures Valid() && !handling
      ensures forall c, k :: k in KeysOf(index, c) <==> c in ClientsOf(WaitingOf(index, k))
      ensures forall c, k :: multiset(ClientsOf(WaitingOf(index, k)))[c] <= 1
      ensures forall k :: k in index.waiting ==> index.waiting[k] != []
      ensures forall t :: t in byType && byType[t] == |BlockedAs(clients, t)|
    {
      hide Exact, Counted, Pending, Status, Wants, Queued, Dropped, AllGrown, Undisturbed;
      for i := 0 to |steps|
        invariant Valid() && !handling
      {
        match steps[i] {
          case Command(script) => Perform(script);
          case Unblock(c) => if c in clients && clients[c].blocked { UnblockClient(c, true); }
          case Handle(worlds) => var _, _ := HandleReady(worlds);
          case Reprocess => if unblocked != [] { var _ := TakeUnblocked(); }
        }
      }
      ExactLists(index, Wants(clients));
      CountersMean(clients, byType, blockedClients);
    }
  }

  /** One handled key: the clients visited, and which of them were released. */
  datatype Round = Round(key: Key, visited: seq<Client>, released: seq<bool>)

  function WorldAt(worlds: seq<seq<Visit>>, j: nat): seq<Visit> { if j < |worlds| then worlds[j] else [] }

  function KeysHandled(rounds: seq<Round>): seq<Key> {
    if rounds == [] then [] else KeysHandled(rounds[..|rounds| - 1]) + [rounds[|rounds| - 1].key]
  }

  /** A pass over a key, from one state to another. */
  predicate Passed(x: Index, cs: Clients, key: Key, visits: seq<Visit>,
                   visited: seq<Client>, released: seq<bool>, y: Index)
  {
    && visited == ClientsOf(WaitingOf(x, key)) && NoRepeats(visited)
    && Outcomes(cs, visited, released, visits)
    && Grown(Kept(WaitingOf(x, key), released), WaitingOf(y, key), x.next)
  }

  /** Every round is a pass from its state to the next. */
  ghost predicate Rounds(states: seq<(Index, Clients)>, rounds: seq<Round>, worlds: seq<seq<Visit>>) {
    && |states| == |rounds| + 1
    && forall j :: 0 <= j < |rounds| ==> OneRound(states[j], rounds[j], WorldAt(worlds, j), states[j + 1])
  }

  ghost predicate OneRound(s: (Index, Clients), r: Round, visits: seq<Visit>, t: (Index, Clients)) {
    && Passed(s.0, s.1, r.key, visits, r.visited, r.released, t.0)
    && Remain(s.0, s.1, t.0, t.1, Gone(r.visited, r.released))
  }

  /** The clients that a pass released. */
  function Gone(visited: seq<Client>, released: seq<bool>): set<Client> {
    set i | 0 <= i < |visited| && i < |released| && released[i] :: visited[i]
  }

  /** Whoever waited and is not in `out` is as it was, in every list it was in. */
  ghost predicate Remain(x: Index, cs: Clients, y: Index, ds: Clients, out: set<Client>) {
    && (forall k, e :: e in WaitingOf(x, k) && e.client !in out ==> e in WaitingOf(y, k))
    && (forall c :: c in cs && cs[c].blocked && c !in out ==> c in ds && ds[c] == cs[c])
  }

  lemma RemainStart(x: Index, cs: Clients)
    ensures Remain(x, cs, x, cs, Gone([], []))
  {
  }

  lemma RemainNext(x: Index, cs: Clients, y: Index, ds: Clients, z: Index, es: Clients,
                   visited: seq<Client>, released: seq<bool>, c: Client, out: bool)
    requires Remain(x, cs, y, ds, Gone(visited, released)) && |visited| == |released|
    requires AllButGrown(y, z, c, out) && UndisturbedBut(ds, es, c) && (!out ==> Undisturbed(ds, es))
    ensures Remain(x, cs, z, es, Gone(visited + [c], released + [out]))
  {
    hide Grown, Without;
    var more := Gone(visited + [c], released + [out]);
    GoneNext(visited, released, c, out);
    forall k, e | e in WaitingOf(x, k) && e.client !in more ensures e in WaitingOf(z, k) {
      var before := if out then Without(WaitingOf(y, k), c) else WaitingOf(y, k);
      assert Grown(before, WaitingOf(z, k), y.next);
      if out { WithoutKeeps(WaitingOf(y, k), c, e); }
      GrownKeeps(before, WaitingOf(z, k), y.next, e);
    }
  }

  lemma GoneNext(visited: seq<Client>, released: seq<bool>, c: Client, out: bool)
    requires |visited| == |released|
    ensures Gone(visited + [c], released + [out]) == Gone(visited, released) + if out then {c} else {}
  {
    var left, right := Gone(visited + [c], released + [out]), Gone(visited, released) + if out then {c} else {};
    forall d | d in right ensures d in left {
      if d in Gone(visited, released) {
        var i :| 0 <= i < |visited| && released[i] && visited[i] == d;
        assert (visited + [c])[i] == d && (released + [out])[i];
      } else {
        assert (visited + [c])[|visited|] == d && (released + [out])[|visited|];
      }
    }
  }

  lemma {:induction false} WithoutKeeps(list: seq<Entry>, c: Client, e: Entry)
    requires e.client != c
    ensures e in list ==> e in Without(list, c)
  {
    if list != [] { WithoutKeeps(list[..|list| - 1], c, e); }
  }

  lemma GrownKeeps(before: seq<Entry>, after: seq<Entry>, bound: nat, e: Entry)
    requires Grown(before, after, bound)
    ensures e in before ==> e in after
  {
    if e in before {
      var i :| 0 <= i < |before| && before[i] == e;
      assert after[i] == after[..|before|][i];
    }
  }

  lemma NoRounds(state: (Index, Clients), worlds: seq<seq<Visit>>)
    ensures Rounds([state], [], worlds) && KeysHandled([]) == []
  {
  }

  lemma NextRound(states: seq<(Index, Clients)>, rounds: seq<Round>, worlds: seq<seq<Visit>>,
                  r: Round, state: (Index, Clients))
    requires Rounds(states, rounds, worlds)
    requires OneRound(states[|rounds|], r, WorldAt(worlds, |rounds|), state)
    ensures Rounds(states + [state], rounds + [r], worlds)
    ensures KeysHandled(rounds + [r]) == KeysHandled(rounds) + [r.key]
  {
    hide OneRound, WorldAt, KeysHandled;
    KeysNext(rounds, r);
    var (ss, rs) := (states + [state], rounds + [r]);
    forall j | 0 <= j < |rs| ensures OneRound(ss[j], rs[j], WorldAt(worlds, j), ss[j + 1]) {
      if j < |rounds| { assert OneRound(states[j], rounds[j], WorldAt(worlds, j), states[j + 1]); }
    }
  }

  lemma KeysNext(rounds: seq<Round>, r: Round)
    ensures KeysHandled(rounds + [r]) == KeysHandled(rounds) + [r.key]
  {
    assert (rounds + [r])[..|rounds|] == rounds;
  }

  lemma NoWorld(worlds: seq<seq<Visit>>, i: nat)
    requires i >= |worlds|
    ensures WorldAt(worlds, i) == []
  {
  }

  datatype Step =
    | Command(script: seq<Action>)
    | Unblock(client: Client)
    | Handle(worlds: seq<seq<Visit>>)
    | Reprocess

  lemma PendingNone<T(!new)>(s: seq<T>, members: set<T>)
    requires Pending(s, members) && s == []
    ensures members == {}
  {
  }

  lemma CountersMean(cs: Clients, byType: map<BlockType, nat>, regular: nat)
    requires Counted(cs, byType, regular)
    ensures forall t :: t in byType && byType[t] == |BlockedAs(cs, t)|
  {
  }

  /** What an exact index means for the waiting lists. */
  lemma ExactLists(x: Index, wants: set<Client>)
    requires Exact(x, wants)
    ensures forall c, k :: k in KeysOf(x, c) <==> c in ClientsOf(WaitingOf(x, k))
    ensures forall c, k :: multiset(ClientsOf(WaitingOf(x, k)))[c] <= 1
    ensures forall k :: k in x.waiting ==> x.waiting[k] != []
  {
    forall c, k ensures k in KeysOf(x, c) <==> c in ClientsOf(WaitingOf(x, k)) {
      var list := WaitingOf(x, k);
      assert ListOk(x, k) && ClientOk(x, c, k);
      if k in KeysOf(x, c) {
        var i :| 0 <= i < |list| && list[i] == Entry(KeysOf(x, c)[k], c);
        assert ClientsOf(list)[i] == c;
      }
    }
    forall c, k ensures multiset(ClientsOf(WaitingOf(x, k)))[c] <= 1 {
      assert ListOk(x, k);
      AtMostOnce(ClientsOf(WaitingOf(x, k)), c);
    }
    forall k | k in x.waiting ensures x.waiting[k] != [] { assert ListOk(x, k); }
  }

  lemma {:induction false} AtMostOnce(s: seq<Client>, c: Client)
    requires NoRepeats(s)
    ensures multiset(s)[c] <= 1
    ensures c !in s ==> multiset(s)[c] == 0
  {
    if s != [] {
      AtMostOnce(s[1..], c);
      assert s == [s[0]] + s[1..];
    }
  }

  /** A served client that is not a module's is taken off the lists. */
  predicate Released(s: ClientState, found: Option<ValueType>) { Serves(s, found) && s.kind != OnModule }

  function ClientsOf(list: seq<Entry>): seq<Client> { seq(|list|, i requires 0 <= i < |list| => list[i].client) }

  predicate HasNode(list: seq<Entry>, node: nat) { exists i :: 0 <= i < |list| && list[i].node == node }

  /** The entries that were not released, in their order. */
  function Kept(list: seq<Entry>, released: seq<bool>): seq<Entry>
    requires |list| == |released|
  {
    if list == [] then []
    else
      var n := |list| - 1;
      Kept(list[..n], released[..n]) + if released[n] then [] else [list[n]]
  }

  /**
   A pass over `first`: the entries `gone` were visited and `todo` not yet; the list holds what is
   left of them, then newcomers.
   */
  predicate Pass(first: seq<Entry>, gone: seq<Entry>, todo: seq<Entry>, released: seq<bool>, kept: seq<Entry>,
                 list: seq<Entry>, bound: nat)
  {
    && first == gone + todo
    && |gone| == |released| && kept == Kept(gone, released)
    && Grown(kept + todo, list, bound)
  }

  /** A pass half way: what it has done, against the state it started in. */
  ghost predicate Midway(start: Clients, cs: Clients, visits: seq<Visit>, first: seq<Entry>, gone: seq<Entry>,
                         todo: seq<Entry>, released: seq<bool>, kept: seq<Entry>, visited: seq<Client>,
                         list: seq<Entry>, bound: nat)
  {
    && |visited| == |released| && visited == ClientsOf(gone)
    && Outcomes(start, visited, released, visits)
    && Pass(first, gone, todo, released, kept, list, bound)
    && StillWaiting(start, cs, todo)
  }

  lemma MidwayStart(cs: Clients, x: Index, wants: set<Client>, key: Key, visits: seq<Visit>)
    requires Exact(x, wants) && Status(cs, x)
    ensures var first := WaitingOf(x, key);
            Midway(cs, cs, visits, first, [], first, [], [], [], first, x.next)
    ensures NoRepeats(ClientsOf(WaitingOf(x, key)))
  {
    hide Exact, Status, WaitingOf, ClientsOf, Outcomes, StillWaiting, Pass, DistinctEntries, NoRepeats;
    FirstFacts(cs, x, wants, key);
    WaitingStart(cs, x, wants, key);
    PassStart(WaitingOf(x, key), x.next);
  }

  lemma MidwayHere(start: Clients, cs: Clients, visits: seq<Visit>, first: seq<Entry>, gone: seq<Entry>, e: Entry,
                   rest: seq<Entry>, released: seq<bool>, kept: seq<Entry>, visited: seq<Client>,
                   list: seq<Entry>, bound: nat)
    requires Midway(start, cs, visits, first, gone, [e] + rest, released, kept, visited, list, bound)
    requires DistinctEntries(list)
    ensures var p := Find(list, e.node);
            && p == |kept| && p < |list| && list[p] == e
            && (rest != [] ==> p + 1 < |list| && list[p + 1] == rest[0])
  {
    hide ClientsOf, Outcomes, Pass, StillWaiting, DistinctEntries, Find;
    PassHere(first, gone, e, rest, released, kept, list, bound);
  }

  lemma MidwayNext(start: Clients, cs: Clients, ds: Clients, visits: seq<Visit>, first: seq<Entry>, gone: seq<Entry>,
                   e: Entry, rest: seq<Entry>, released: seq<bool>, kept: seq<Entry>, visited: seq<Client>,
                   list: seq<Entry>, list': seq<Entry>, bound: nat, bound': nat, out: bool)
    requires Midway(start, cs, visits, first, gone, [e] + rest, released, kept, visited, list, bound)
    requires DistinctEntries(list) && forall i :: 0 <= i < |list| ==> list[i].client in cs && cs[list[i].client].blocked
    requires bound <= bound' && Grown(if out then Without(list, e.client) else list, list', bound')
    requires UndisturbedBut(cs, ds, e.client)
    requires e.client in cs && (out <==> Released(cs[e.client], VisitAt(visits, |released|).found))
    ensures Midway(start, ds, visits, first, gone + [e], rest, released + [out], kept + (if out then [] else [e]),
                   visited + [e.client], list', bound)
    ensures |kept| + 1 < |list| ==> HasNode(list', list[|kept| + 1].node)
    ensures cs.Keys == ds.Keys
  {
    hide ClientsOf, Outcomes, Pass, StillWaiting, DistinctEntries, Grown, Without, UndisturbedBut, Released, VisitAt,
      HasNode, Find;
    PassHere(first, gone, e, rest, released, kept, list, bound);
    PassNext(first, gone, e, rest, released, kept, list, list', bound, bound', out);
    ClientsNext(gone, e);
    RestUndisturbed(start, cs, ds, e, rest, list);
    OutcomesNext(start, visited, released, visits, e.client, out);
  }

  lemma MidwayEnd(start: Clients, cs: Clients, visits: seq<Visit>, first: seq<Entry>, gone: seq<Entry>,
                  released: seq<bool>, kept: seq<Entry>, visited: seq<Client>, x: Index, y: Index, key: Key)
    requires Midway(start, cs, visits, first, gone, [], released, kept, visited, WaitingOf(y, key), x.next)
    requires first == WaitingOf(x, key) && NoRepeats(ClientsOf(first))
    ensures Passed(x, start, key, visits, visited, released, y)
  {
    hide ClientsOf, Outcomes, Pass, StillWaiting, NoRepeats, Kept, Grown, WaitingOf;
    PassEnd(first, gone, released, kept, WaitingOf(y, key), x.next);
  }

  lemma PassStart(first: seq<Entry>, bound: nat)
    ensures Pass(first, [], first, [], [], first, bound) && ClientsOf([]) == []
  {
    assert [] + first == first;
  }

  lemma PassEnd(first: seq<Entry>, gone: seq<Entry>, released: seq<bool>, kept: seq<Entry>,
                list: seq<Entry>, bound: nat)
    requires Pass(first, gone, [], released, kept, list, bound)
    ensures gone == first && |released| == |first| && Grown(Kept(first, released), list, bound)
    ensures |ClientsOf(first)| == |first|
  {
    assert gone + [] == gone;
    assert kept + [] == kept;
  }

  /** The next client to visit is where the saved pointer says, and is followed by the one after it. */
  lemma PassHere(first: seq<Entry>, gone: seq<Entry>, e: Entry, rest: seq<Entry>, released: seq<bool>, kept: seq<Entry>,
                 list: seq<Entry>, bound: nat)
    requires Pass(first, gone, [e] + rest, released, kept, list, bound) && DistinctEntries(list)
    ensures var p := Find(list, e.node);
            && p == |kept| && p < |list| && list[p] == e
            && (rest != [] ==> p + 1 < |list| && list[p + 1] == rest[0])
            && (forall i :: 0 <= i < |rest| ==> rest[i].client != e.client && rest[i] in list)
  {
    var core := kept + ([e] + rest);
    assert core == list[..|core|];
    assert core[|kept|] == e;
    assert forall i :: 0 <= i < |rest| ==> core[|kept| + 1 + i] == rest[i];
  }

  /** One visit of a pass; the saved pointer stays in the list. */
  lemma PassNext(first: seq<Entry>, gone: seq<Entry>, e: Entry, rest: seq<Entry>, released: seq<bool>, kept: seq<Entry>,
                 list: seq<Entry>, list': seq<Entry>, bound: nat, bound': nat, out: bool)
    requires Pass(first, gone, [e] + rest, released, kept, list, bound) && DistinctEntries(list)
    requires bound <= bound' && Grown(if out then Without(list, e.client) else list, list', bound')
    ensures Pass(first, gone + [e], rest, released + [out], kept + (if out then [] else [e]), list', bound)
    ensures |kept| + 1 < |list| ==> HasNode(list', list[|kept| + 1].node)
  {
    PassHere(first, gone, e, rest, released, kept, list, bound);
    KeptStep(gone, e, released, out);
    hide Kept, Without, Find, DistinctEntries, Grown, HasNode;
    Assoc(gone, e, rest);
    Assoc(kept, e, rest);
    if out {
      ListRelease(kept, e, rest, list, list', bound, bound');
    } else {
      ListKeep(kept, e, rest, list, list', bound, bound');
    }
  }

  lemma Assoc(a: seq<Entry>, e: Entry, rest: seq<Entry>)
    ensures a + ([e] + rest) == a + [e] + rest
  {
  }

  lemma ListKeep(kept: seq<Entry>, e: Entry, rest: seq<Entry>, list: seq<Entry>, list': seq<Entry>,
                 bound: nat, bound': nat)
    requires Grown(kept + [e] + rest, list, bound) && bound <= bound' && Grown(list, list', bound')
    ensures Grown(kept + [e] + rest, list', bound)
    ensures |kept| + 1 < |list| ==> HasNode(list', list[|kept| + 1].node)
  {
    GrownTwice(kept + [e] + rest, list, list', bound, bound');
    hide Grown;
    if |kept| + 1 < |list| { GrownHas(list, list', bound', |kept| + 1); }
  }

  lemma ListRelease(kept: seq<Entry>, e: Entry, rest: seq<Entry>, list: seq<Entry>, list': seq<Entry>,
                    bound: nat, bound': nat)
    requires Grown(kept + [e] + rest, list, bound) && DistinctEntries(list)
    requires bound <= bound' && |kept| < |list| && list[|kept|] == e && Grown(Without(list, e.client), list', bound')
    ensures Grown(kept + [] + rest, list', bound)
    ensures |kept| + 1 < |list| ==> HasNode(list', list[|kept| + 1].node)
  {
    RemoveIsWithout(list, |kept|);
    CoreStep(kept, e, rest, list, bound);
    hide Grown, Without, DistinctEntries;
    var mid := list[..|kept|] + list[|kept| + 1..];
    GrownTwice(kept + [] + rest, mid, list', bound, bound');
    if |kept| + 1 < |list| {
      assert mid[|kept|] == list[|kept| + 1];
      GrownHas(mid, list', bound', |kept|);
    }
  }

  lemma ClientsNext(gone: seq<Entry>, e: Entry)
    ensures ClientsOf(gone + [e]) == ClientsOf(gone) + [e.client]
  {
  }

  lemma KeptStep(list: seq<Entry>, e: Entry, released: seq<bool>, out: bool)
    requires |list| == |released|
    ensures Kept(list + [e], released + [out]) == Kept(list, released) + if out then [] else [e]
  {
    assert (list + [e])[..|list|] == list && (released + [out])[..|list|] == released;
  }

  /** The list once the entry behind `kept` is released. */
  lemma CoreStep(kept: seq<Entry>, e: Entry, rest: seq<Entry>, list: seq<Entry>, bound: nat)
    requires Grown(kept + [e] + rest, list, bound)
    ensures |kept| < |list|
    ensures Grown(kept + [] + rest, list[..|kept|] + list[|kept| + 1..], bound)
  {
    var core := kept + [e] + rest;
    var extra := list[|core|..];
    assert list == core + extra;
    SplitAt(kept, e, rest, extra, list);
    GrownBy(kept + rest, extra, bound);
    assert kept + [] + rest == kept + rest;
  }

  lemma SplitAt(a: seq<Entry>, e: Entry, b: seq<Entry>, c: seq<Entry>, list: seq<Entry>)
    requires list == a + [e] + b + c
    ensures list[..|a|] + list[|a| + 1..] == a + b + c
  {
  }

  lemma GrownHas(before: seq<Entry>, after: seq<Entry>, bound: nat, i: nat)
    requires Grown(before, after, bound) && i < |before|
    ensures HasNode(after, before[i].node)
  {
    assert after[i] == after[..|before|][i];
  }

  lemma GrownBy(a: seq<Entry>, extra: seq<Entry>, bound: nat)
    requires forall i :: 0 <= i < |extra| ==> extra[i].node >= bound
    ensures Grown(a, a + extra, bound)
  {
  }

  lemma HasItself(list: seq<Entry>, i: nat)
    requires i < |list|
    ensures HasNode(list, list[i].node)
  {
  }

  lemma FoundNode(list: seq<Entry>, node: nat)
    requires HasNode(list, node)
    ensures Find(list, node) < |list|
  {
  }

  lemma NoScript(visits: seq<Visit>, i: nat)
    ensures visits == [] ==> VisitAt(visits, i).script == VisitAt(visits, i).handler == []
  {
  }

  /** Each visited client is released exactly if it was to be served, judged by its state before the pass. */
  predicate Outcomes(cs: Clients, visited: seq<Client>, released: seq<bool>, visits: seq<Visit>) {
    && |visited| == |released|
    && forall i :: 0 <= i < |visited| ==>
         visited[i] in cs && (released[i] <==> Released(cs[visited[i]], VisitAt(visits, i).found))
  }

  lemma OutcomesNext(cs: Clients, visited: seq<Client>, released: seq<bool>, visits: seq<Visit>, c: Client, out: bool)
    requires Outcomes(cs, visited, released, visits) && c in cs
    requires out <==> Released(cs[c], VisitAt(visits, |released|).found)
    ensures Outcomes(cs, visited + [c], released + [out], visits)
  {
  }

  /** The clients of these entries are as they were. */
  predicate StillWaiting(cs: Clients, ds: Clients, todo: seq<Entry>) {
    forall i :: 0 <= i < |todo| ==>
      todo[i].client in cs && todo[i].client in ds && ds[todo[i].client] == cs[todo[i].client]
  }

  lemma WaitingStart(cs: Clients, x: Index, wants: set<Client>, key: Key)
    requires Exact(x, wants) && Status(cs, x)
    ensures StillWaiting(cs, cs, WaitingOf(x, key)) && forall visits :: Outcomes(cs, [], [], visits)
  {
    FirstFacts(cs, x, wants, key);
  }

  /** A visit leaves the clients still to be visited as they are. */
  lemma RestUndisturbed(start: Clients, cs: Clients, ds: Clients, e: Entry, rest: seq<Entry>, list: seq<Entry>)
    requires StillWaiting(start, cs, [e] + rest) && UndisturbedBut(cs, ds, e.client)
    requires forall i :: 0 <= i < |rest| ==> rest[i].client != e.client && rest[i] in list
    requires forall i :: 0 <= i < |list| ==> list[i].client in cs && cs[list[i].client].blocked
    ensures StillWaiting(start, ds, rest) && e.client in start && e.client in cs && cs[e.client] == start[e.client]
    ensures cs.Keys == ds.Keys
  {
    assert ([e] + rest)[0] == e;
    forall i | 0 <= i < |rest| ensures
      rest[i].client in start && rest[i].client in ds && ds[rest[i].client] == start[rest[i].client]
    {
      assert ([e] + rest)[i + 1] == rest[i];
    }
  }

  /** The clients of a waiting list are distinct, blocked and wait for its key. */
  lemma FirstFacts(cs: Clients, x: Index, wants: set<Client>, key: Key)
    requires Exact(x, wants) && Status(cs, x)
    ensures var list := WaitingOf(x, key);
            && DistinctEntries(list) && NoRepeats(ClientsOf(list))
            && forall i :: 0 <= i < |list| ==>
                 list[i].client in cs && cs[list[i].client].blocked && key in KeysOf(x, list[i].client)
  {
    var list := WaitingOf(x, key);
    assert ListOk(x, key);
    forall i | 0 <= i < |list| ensures list[i].client in cs && cs[list[i].client].blocked {
      assert ClientStatus(cs, x, list[i].client);
    }
  }

  // ---------------------------------------------------------------- growth of all lists

  ghost predicate AllButGrown(x: Index, y: Index, c: Client, out: bool) {
    && x.next <= y.next
    && forall k :: Grown(if out then Without(WaitingOf(x, k), c) else WaitingOf(x, k), WaitingOf(y, k), x.next)
  }

  ghost predicate LeftThenGrown(x: Index, y: Index, c: Client) {
    x.next <= y.next && forall k :: Grown(Without(WaitingOf(x, k), c), WaitingOf(y, k), x.next)
  }

  lemma GrownAt(x: Index, y: Index, c: Client, out: bool, k: Key)
    requires AllButGrown(x, y, c, out)
    ensures x.next <= y.next
    ensures Grown(if out then Without(WaitingOf(x, k), c) else WaitingOf(x, k), WaitingOf(y, k), x.next)
  {
  }

  lemma GrownBut(x: Index, y: Index, c: Client, out: bool)
    requires if out then LeftThenGrown(x, y, c) else AllGrown(x, y)
    ensures AllButGrown(x, y, c, out)
  {
    hide Grown, Without;
  }

  lemma DroppedThenGrown(x: Index, y: Index, z: Index, c: Client)
    requires Dropped(x, y, c) && AllGrown(y, z)
    ensures LeftThenGrown(x, z, c)
  {
    hide Grown, Without;
    forall k ensures Grown(Without(WaitingOf(x, k), c), WaitingOf(z, k), x.next) {
      assert Grown(WaitingOf(y, k), WaitingOf(z, k), y.next);
    }
  }

  lemma StatusReleased(cs: Clients, x: Index, wants: set<Client>, c: Client, key: Key)
    requires Status(cs, x) && key in KeysOf(x, c) && key in x.waiting
    ensures Status(cs, Restricted(Unlisted(x, key, KeysOf(x, c)[key], c in wants), c, KeysOf(x, c).Keys - {key}))
  {
    var y := Restricted(Unlisted(x, key, KeysOf(x, c)[key], c in wants), c, KeysOf(x, c).Keys - {key});
    forall c' ensures ClientStatus(cs, y, c') { assert ClientStatus(cs, x, c'); }
  }

  ghost predicate UndisturbedBut(cs: Clients, ds: Clients, c: Client) {
    cs.Keys == ds.Keys && forall c' :: c' in cs && cs[c'].blocked && c' != c ==> ds[c'] == cs[c']
  }

  /** Blocked clients are left alone, and nobody is added or lost. */
  ghost predicate Undisturbed(cs: Clients, ds: Clients) {
    cs.Keys == ds.Keys && forall c :: c in cs && cs[c].blocked ==> ds[c] == cs[c]
  }

  lemma PerformedNone(s: Core)
    ensures Performed(s, []) == s
  {
  }

  lemma PerformedNext(s: Core, script: seq<Action>, i: nat)
    requires i < |script|
    ensures Performed(s, script[..i + 1]) == Acted(Performed(s, script[..i]), script[i])
    ensures script[..0] == []
  {
    assert script[..i + 1][..i] == script[..i];
  }

  lemma SameUndisturbed(cs: Clients)
    ensures Undisturbed(cs, cs)
  {
  }

  lemma OneUndisturbed(cs: Clients, ds: Clients, c: Client, s: ClientState)
    requires Undisturbed(cs, ds) && c in ds && !ds[c].blocked
    ensures Undisturbed(cs, ds[c := s])
  {
  }

  lemma ButUndisturbed(cs: Clients, ds: Clients, c: Client)
    requires Undisturbed(cs, ds)
    ensures UndisturbedBut(cs, ds, c)
  {
  }

  lemma UndisturbedTwice(cs: Clients, ds: Clients, es: Clients, c: Client)
    requires UndisturbedBut(cs, ds, c) && Undisturbed(ds, es)
    ensures UndisturbedBut(cs, es, c)
  {
  }

  lemma GrownSame(x: Index)
    ensures AllGrown(x, x)
  {
  }

  lemma CountersExist(cs: Clients, byType: map<BlockType, nat>, regular: nat)
    requires Counted(cs, byType, regular)
    ensures forall t :: t in byType
  {
  }

  /** A waiting client makes every quick check of a signal for it pass. */
  lemma WaiterSignals(cs: Clients, x: Index, byType: map<BlockType, nat>, regular: nat,
                      key: Key, value: ValueType, deleted: bool, c: Client)
    requires Exact(x, Wants(cs)) && Status(cs, x) && Counted(cs, byType, regular)
    requires Awaits(cs, x, c, key, value, deleted)
    ensures forall t :: t in byType
    ensures Signals(x, byType, key, value, deleted)
  {
    assert ClientStatus(cs, x, c) && ClientOk(x, c, key) && ListOk(x, key);
    CountedPositive(cs, byType, regular, c);
    if deleted {
      assert CountOk(x, Wants(cs), key);
      var list := x.waiting[key];
      var i :| 0 <= i < |list| && list[i] == Entry(KeysOf(x, c)[key], c);
      CountRemove(list, i, Wants(cs));
    }
  }

  lemma StatusAt(cs: Clients, x: Index, c: Client)
    requires Status(cs, x)
    ensures ClientStatus(cs, x, c)
  {
  }

  lemma StatusKept(cs: Clients, x: Index, c: Client, s: ClientState)
    requires Status(cs, x) && c in cs
    requires s.blocked == cs[c].blocked && s.kind == cs[c].kind && s.onNoKey == cs[c].onNoKey
    requires WaitsForData(s.kind) ==> s.pending || !cs[c].pending
    ensures Status(cs[c := s], x)
  {
    var ds := cs[c := s];
    forall c' ensures ClientStatus(ds, x, c') { assert ClientStatus(cs, x, c'); }
  }

  lemma StatusBlocked(cs: Clients, x: Index, c: Client, s: ClientState)
    requires Status(cs, x) && c in cs && !cs[c].blocked && s.blocked && s.kind != NotBlocked && !WaitsForData(s.kind)
    ensures Status(cs[c := s], x)
  {
    var ds := cs[c := s];
    assert ClientStatus(cs, x, c);
    forall c' ensures ClientStatus(ds, x, c') { assert ClientStatus(cs, x, c'); }
  }

  /** A client that left all lists may be marked as not blocked. */
  lemma FreedOk(cs: Clients, x: Index, y: Index, c: Client)
    requires Exact(y, Wants(cs)) && Status(cs, x) && Dropped(x, y, c) && c in cs
    ensures Exact(y, Wants(cs[c := Freed(cs[c])])) && Status(cs[c := Freed(cs[c])], y)
    ensures Queued(cs[c := Freed(cs[c])]) == Queued(cs)
  {
    var s := Freed(cs[c]);
    SetsChanged(cs, c, s);
    hide Exact, Status, Wants, Queued, Dropped;
    DroppedKeys(x, y, c);
    WantsChange(y, Wants(cs), Wants(cs[c := s]), c);
    StatusDropped(cs, x, y, c, s);
  }

  lemma DroppedKeys(x: Index, y: Index, c: Client)
    requires Dropped(x, y, c)
    ensures KeysOf(y, c) == map[]
  {
  }

  lemma StatusDropped(cs: Clients, x: Index, y: Index, c: Client, s: ClientState)
    requires Status(cs, x) && Dropped(x, y, c) && c in cs && !s.blocked && s.kind == NotBlocked && !s.onNoKey
    ensures Status(cs[c := s], y)
  {
    var ds := cs[c := s];
    forall c' ensures ClientStatus(ds, y, c') { assert ClientStatus(cs, x, c'); }
  }

  lemma JoinedNone(x: Index, c: Client)
    requires KeysOf(x, c) == map[]
    ensures Joined(x, x, c, [])
  {
  }

  lemma NotBlockedNoKeys(cs: Clients, x: Index, c: Client)
    requires Status(cs, x) && c in cs && !cs[c].blocked
    ensures KeysOf(x, c) == map[] && !cs[c].onNoKey
  {
    assert ClientStatus(cs, x, c);
  }

  lemma StatusJoined(cs: Clients, x: Index, c: Client, s: ClientState, y: Index, keys: seq<Key>)
    requires Status(cs, x) && Joined(x, y, c, keys) && c in cs && ForKeys(s.kind) && s.blocked
    requires WaitsForData(s.kind) ==> s.pending
    ensures Status(cs[c := s], y)
  {
    var ds := cs[c := s];
    forall c' ensures ClientStatus(ds, y, c') { assert ClientStatus(cs, x, c'); }
  }
}
