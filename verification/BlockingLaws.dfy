/** Who is served when keys become ready. */
module BlockingLaws {

  import opened BlockIndex
  import opened Blocking
  import opened Options

  /** What a client blocked by BLPOP, BZPOPMIN, XREAD and their like waits for. */
  predicate WaitsFor(kind: BlockType, value: ValueType) {
    || (kind == OnList && value == ListValue)
    || (kind == OnZset && value == ZsetValue)
    || (kind == OnStream && value == StreamValue)
  }

  predicate DataKind(kind: BlockType) { kind == OnList || kind == OnZset || kind == OnStream }

  /** A client that waits for data is released by its kind of value, or by anything if it asked for that. */
  lemma ReleasedMeans(s: ClientState, found: Option<ValueType>)
    ensures DataKind(s.kind) ==>
              (Released(s, found) <==> s.onNoKey || (found.Some? && WaitsFor(s.kind, found.value)))
    ensures s.kind == OnModule ==> !Released(s, found) && (Serves(s, found) <==> s.onNoKey || found.Some?)
  {
  }

  /**
   One pass over a key. Every initial waiter is visited, in order; one that waits for data is released
   exactly if it finds its kind of value or is to hear of any change; module clients stay.
   */
  lemma PassServes(x: Index, cs: Clients, key: Key, visits: seq<Visit>, visited: seq<Client>, released: seq<bool>,
                   y: Index, i: nat)
    requires Passed(x, cs, key, visits, visited, released, y) && i < |WaitingOf(x, key)|
    ensures |visited| == |released| == |WaitingOf(x, key)| && visited[i] == WaitingOf(x, key)[i].client
    ensures visited[i] in cs
    ensures var s, found := cs[visited[i]], VisitAt(visits, i).found;
            && (DataKind(s.kind) ==> (released[i] <==> s.onNoKey || (found.Some? && WaitsFor(s.kind, found.value))))
            && (s.kind == OnModule ==> !released[i])
  {
    hide NoRepeats, Grown, Released;
    ReleasedMeans(cs[visited[i]], VisitAt(visits, i).found);
  }

  /** Some client is blocked as `kind`. */
  predicate SomeBlocked(cs: Clients, kind: BlockType) {
    exists c :: c in cs && cs[c].blocked && cs[c].kind == kind
  }

  /** Some client waits at the key; for a deletion, one that is to hear of any change. */
  predicate SomeWaits(x: Index, cs: Clients, key: Key, deleted: bool) {
    exists i :: 0 <= i < |WaitingOf(x, key)| &&
                (deleted ==> var c := WaitingOf(x, key)[i].client; c in cs && cs[c].onNoKey)
  }

  /**
   A signal makes a key ready exactly if a client is blocked for that type of value or by a module, and
   somebody waits at the key whom the signal may concern. The first need not be the second.
   */
  lemma SignalsMean(x: Index, cs: Clients, byType: map<BlockType, nat>, regular: nat,
                    key: Key, value: ValueType, deleted: bool)
    requires Exact(x, Wants(cs)) && Counted(cs, byType, regular)
    ensures Signals(x, byType, key, value, deleted) <==>
              && value != OtherValue
              && (SomeBlocked(cs, OnModule) || exists kind :: WaitsFor(kind, value) && SomeBlocked(cs, kind))
              && SomeWaits(x, cs, key, deleted)
  {
    var kind := BlockTypeOf(value);
    assert forall t :: WaitsFor(t, value) <==> t == kind && DataKind(kind);
    CountedMeans(cs, byType, regular, kind);
    CountedMeans(cs, byType, regular, OnModule);
    WaitersMean(x, cs, key);
    assert DataKind(kind) ==> WaitsFor(kind, value);
  }

  lemma WaitersMean(x: Index, cs: Clients, key: Key)
    requires Exact(x, Wants(cs))
    ensures key in x.waiting <==> SomeWaits(x, cs, key, false)
    ensures key in x.noKey <==> SomeWaits(x, cs, key, true)
  {
    assert ListOk(x, key) && CountOk(x, Wants(cs), key);
    var list := WaitingOf(x, key);
    CountMeans(list, Wants(cs));
    if list != [] { assert list[0] == WaitingOf(x, key)[0]; }
    assert SomeWaits(x, cs, key, true) <==> exists i :: 0 <= i < |list| && list[i].client in Wants(cs);
  }

  lemma CountedMeans(cs: Clients, byType: map<BlockType, nat>, regular: nat, t: BlockType)
    requires Counted(cs, byType, regular)
    ensures t in byType && (byType[t] != 0 <==> SomeBlocked(cs, t))
  {
    var s := BlockedAs(cs, t);
    if s != {} {
      var c :| c in s;
      assert SomeBlocked(cs, t);
    }
    assert forall c :: c in cs && cs[c].blocked && cs[c].kind == t ==> c in s;
  }

  lemma {:induction false} CountMeans(list: seq<Entry>, wants: set<Client>)
    ensures Count(list, wants) > 0 <==> exists i :: 0 <= i < |list| && list[i].client in wants
  {
    if list != [] {
      var n := |list| - 1;
      CountMeans(list[..n], wants);
      if Count(list[..n], wants) > 0 {
        var i :| 0 <= i < n && list[..n][i].client in wants;
        assert list[i].client in wants;
      } else {
        assert forall i :: 0 <= i < n ==> list[..n][i] == list[i];
        assert list[n].client in wants <==> Count(list, wants) > 0;
      }
    }
  }

  /**
   Running the command of a released client again: if it does not block, and the client is not a module's,
   the client is queued for more work, and nothing else is changed behind the command.
   */
  lemma RerunMeans(mid: Core, script: seq<Action>, handler: seq<Action>, c: Client, now: Core)
    requires Reran(mid, script, handler, c, now)
    ensures var end := Performed(mid, script);
            && c in end.clients
            && (end.clients[c].blocked ==> now == end)
            && (!end.clients[c].blocked && !end.clients[c].isModule ==>
                  && now.clients.Keys == end.clients.Keys && now.clients[c].queued && !now.clients[c].blocked
                  && (forall d :: d in end.clients && d != c ==> now.clients[d] == end.clients[d])
                  && now.index == end.index && now.ready == end.ready && now.byType == end.byType)
  {
  }

  /** Client c waits in the list of key k, for data. */
  ghost predicate WaitsAt(s: (Index, Clients), c: Client, k: Key) {
    && c in s.1 && s.1[c].blocked && DataKind(s.1[c].kind)
    && exists e :: e in WaitingOf(s.0, k) && e.client == c
  }

  /** In round j client c is visited and released. */
  predicate ReleasedIn(r: Round, c: Client) {
    exists i :: 0 <= i < |r.visited| && i < |r.released| && r.visited[i] == c && r.released[i]
  }

  ghost predicate ReleasedBefore(rounds: seq<Round>, c: Client, n: nat) {
    exists j :: 0 <= j < n && j < |rounds| && ReleasedIn(rounds[j], c)
  }

  /** A client that no round released waits where it waited. */
  lemma {:induction false} WaitsOn(states: seq<(Index, Clients)>, rounds: seq<Round>, worlds: seq<seq<Visit>>,
                                   c: Client, k: Key, n: nat)
    requires Rounds(states, rounds, worlds) && n <= |rounds| && WaitsAt(states[0], c, k)
    ensures ReleasedBefore(rounds, c, n) || (WaitsAt(states[n], c, k) && states[n].1[c] == states[0].1[c])
  {
    hide Passed;
    if n > 0 {
      WaitsOn(states, rounds, worlds, c, k, n - 1);
      var j := n - 1;
      assert OneRound(states[j], rounds[j], WorldAt(worlds, j), states[j + 1]);
      if !ReleasedBefore(rounds, c, n) {
        assert !ReleasedIn(rounds[j], c);
        assert c !in Gone(rounds[j].visited, rounds[j].released);
        var e :| e in WaitingOf(states[j].0, k) && e.client == c;
        assert e in WaitingOf(states[n].0, k);
      }
    }
  }

  /** Whenever client c is looked at for key k, the key holds what it waits for, or it is to hear of any change. */
  predicate FindsIt(rounds: seq<Round>, worlds: seq<seq<Visit>>, c: Client, k: Key, s: ClientState) {
    !s.onNoKey ==>
      forall j, i :: 0 <= j < |rounds| && rounds[j].key == k &&
                     0 <= i < |rounds[j].visited| && rounds[j].visited[i] == c ==>
        var found := VisitAt(WorldAt(worlds, j), i).found;
        found.Some? && WaitsFor(s.kind, found.value)
  }

  /** A client that waits for a key that gets a round is released, by that round or an earlier one. */
  lemma HandledIsReleased(states: seq<(Index, Clients)>, rounds: seq<Round>, worlds: seq<seq<Visit>>,
                          c: Client, k: Key, n: nat)
    requires Rounds(states, rounds, worlds) && n < |rounds| && rounds[n].key == k && WaitsAt(states[0], c, k)
    requires FindsIt(rounds, worlds, c, k, states[0].1[c])
    ensures ReleasedBefore(rounds, c, n + 1)
  {
    hide Passed, Remain;
    WaitsOn(states, rounds, worlds, c, k, n);
    if !ReleasedBefore(rounds, c, n) {
      var s, r, visits := states[n], rounds[n], WorldAt(worlds, n);
      assert OneRound(s, r, visits, states[n + 1]);
      var list := WaitingOf(s.0, k);
      var e :| e in list && e.client == c;
      var i :| 0 <= i < |list| && list[i] == e;
      PassServes(s.0, s.1, k, visits, r.visited, r.released, states[n + 1].0, i);
      assert r.visited[i] == c && r.released[i];
      assert ReleasedIn(rounds[n], c);
    }
  }

  lemma {:induction false} HandledAt(rounds: seq<Round>, k: Key) returns (n: nat)
    requires k in KeysHandled(rounds)
    ensures n < |rounds| && rounds[n].key == k
  {
    if rounds[|rounds| - 1].key == k {
      n := |rounds| - 1;
    } else {
      n := HandledAt(rounds[..|rounds| - 1], k);
    }
  }

  /**
   A key is signalled with a value, and a client waits there for such a value; or it is signalled as deleted,
   and the client is to hear of that. Handling the ready keys releases the client, provided the key
   still holds such a value whenever a client that waits only for values is looked at.
   */
  method SignalThenHandle(server: Server, c: Client, k: Key, value: ValueType, deleted: bool, worlds: seq<seq<Visit>>)
    returns (rounds: seq<Round>)
    requires server.Valid() && !server.handling
    requires WaitsAt((server.index, server.clients), c, k) && WaitsFor(server.clients[c].kind, value)
    requires deleted ==> server.clients[c].onNoKey
    modifies server
    ensures server.Valid() && server.ready == []
    ensures FindsIt(rounds, worlds, c, k, old(server.clients[c])) ==> ReleasedBefore(rounds, c, |rounds|)
  {
    hide Exact, Status, Counted, Pending, Wants, Queued, Rounds, FindsIt, ReleasedBefore, KeysHandled;
    assert Awaits(server.clients, server.index, c, k, value, deleted) by {
      WaitsKeys(server.clients, server.index, c, k);
    }
    server.SignalKey(k, value, deleted);
    assert k in server.ready by { ReadyListed(server.draining + server.ready, server.readySet, k); }
    ghost var before := server.ready;
    ghost var states;
    rounds, states := server.HandleReady(worlds);
    if FindsIt(rounds, worlds, c, k, old(server.clients[c])) {
      assert k in KeysHandled(rounds) by {
        var i :| 0 <= i < |before| && before[i] == k;
        assert KeysHandled(rounds)[i] == k;
      }
      ghost var n := HandledAt(rounds, k);
      HandledIsReleased(states, rounds, worlds, c, k, n);
      Later(rounds, c, n + 1);
    }
  }

  lemma Later(rounds: seq<Round>, c: Client, n: nat)
    requires ReleasedBefore(rounds, c, n)
    ensures ReleasedBefore(rounds, c, |rounds|)
  {
  }

  lemma WaitsKeys(cs: Clients, x: Index, c: Client, k: Key)
    requires Exact(x, Wants(cs)) && WaitsAt((x, cs), c, k)
    ensures k in KeysOf(x, c)
  {
    hide Wants;
    ExactLists(x, Wants(cs));
    var e :| e in WaitingOf(x, k) && e.client == c;
    var list := WaitingOf(x, k);
    var i :| 0 <= i < |list| && list[i] == e;
    assert ClientsOf(list)[i] == c;
  }

  lemma ReadyListed(s: seq<Key>, members: set<Key>, k: Key)
    requires Pending(s, members) && k in members
    ensures k in s
  {
  }
}
