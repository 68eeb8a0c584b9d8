/** What the answers of getNodeByQuery mean for a client that follows them. */
module RoutingLaws {

  import opened Options
  import opened SlotRouting

  // ---------------------------------------------------------------- the keys of a request

  /** The command selects a database that exists. */
  predicate Selects(c: Command) { c.verb.Select? && c.verb.db.Some? }

  /** Command i runs in database d: the one its last SELECT names, or the client's. */
  predicate RunsIn(commands: seq<Command>, db: nat, i: nat, d: nat)
    requires i < |commands|
  {
    || (d == db && forall p :: 0 <= p <= i ==> !Selects(commands[p]))
    || exists p :: 0 <= p <= i && Selects(commands[p]) && commands[p].verb.db == Some(d)
                   && forall q :: p < q <= i ==> !Selects(commands[q])
  }

  lemma {:induction false} DbAfterMeans(commands: seq<Command>, db: nat, i: nat)
    requires i < |commands|
    ensures RunsIn(commands, db, i, DbAfter(commands[..i + 1], db))
  {
    assert commands[..i + 1][..i] == commands[..i];
    if Selects(commands[i]) {
      assert RunsIn(commands, db, i, commands[i].verb.db.value);
    } else if i > 0 {
      DbAfterMeans(commands, db, i - 1);
    } else {
      assert commands[..0] == [];
    }
  }

  lemma OneDb(commands: seq<Command>, db: nat, i: nat, d: nat, e: nat)
    requires i < |commands| && RunsIn(commands, db, i, d) && RunsIn(commands, db, i, e)
    ensures d == e
  {
  }

  lemma {:induction false} KeysOfPrefix(commands: seq<Command>, db: nat, n: nat, k: DbKey)
    requires n <= |commands|
    ensures k in KeysOf(commands[..n], db) <==>
            exists i :: 0 <= i < n && k.key in commands[i].keys && k.db == DbAfter(commands[..i + 1], db)
  {
    hide DbAfter;
    if n == 0 {
      assert commands[..0] == [];
    } else {
      KeysOfPrefix(commands, db, n - 1, k);
      var cs := commands[..n];
      assert cs[..n - 1] == commands[..n - 1] && cs[n - 1] == commands[n - 1];
      InDbMeans(commands[n - 1].keys, DbAfter(cs, db), k);
    }
  }

  lemma InDbMeans(keys: seq<Key>, db: nat, k: DbKey)
    ensures k in InDb(keys, db) <==> k.db == db && k.key in keys
  {
    if k.db == db && k.key in keys {
      var i :| 0 <= i < |keys| && keys[i] == k.key;
      assert InDb(keys, db)[i] == k;
    }
  }

  /** A request touches exactly the keys of its commands, each in the database its command runs in. */
  lemma RequestKeys(commands: seq<Command>, db: nat, k: DbKey)
    ensures k in KeysOf(commands, db) <==>
            exists i :: 0 <= i < |commands| && k.key in commands[i].keys && RunsIn(commands, db, i, k.db)
  {
    assert commands[..|commands|] == commands;
    KeysOfPrefix(commands, db, |commands|, k);
    hide KeysOf, RunsIn, DbAfter;
    forall i | 0 <= i < |commands| ensures RunsIn(commands, db, i, k.db) <==> k.db == DbAfter(commands[..i + 1], db) {
      DbAfterMeans(commands, db, i);
      if RunsIn(commands, db, i, k.db) { OneDb(commands, db, i, k.db, DbAfter(commands[..i + 1], db)); }
    }
  }

  /** The request is refused while the slot moves: MOVE, or COPY whose DB is not the one the command runs in. */
  lemma RefusedMeans(commands: seq<Command>, db: nat)
    ensures AnyRefused(commands, db) <==>
            exists i, d :: 0 <= i < |commands| && RunsIn(commands, db, i, d) && commands[i].keys != []
                           && LeavesDb(commands[i].verb, d)
  {
    hide RunsIn, DbAfter, LeavesDb;
    forall c, d ensures Refused(c, d) <==> c.keys != [] && LeavesDb(c.verb, d) { LeavesDbMeans(c, d); }
    if AnyRefused(commands, db) {
      var i :| 0 <= i < |commands| && Refused(commands[i], DbAfter(commands[..i + 1], db));
      DbAfterMeans(commands, db, i);
    }
    if i, d :| 0 <= i < |commands| && RunsIn(commands, db, i, d) && commands[i].keys != []
               && LeavesDb(commands[i].verb, d)
    {
      DbAfterMeans(commands, db, i);
      OneDb(commands, db, i, d, DbAfter(commands[..i + 1], db));
    }
  }

  predicate LeavesDb(verb: Verb, d: nat) {
    match verb
    case Move => true
    case Copy(words, beyond) =>
      words != [] && words[0] == DbWord && (if |words| == 1 then beyond else words[1]) != Text(Some(d))
    case _ => false
  }

  lemma LeavesDbMeans(c: Command, d: nat)
    ensures Refused(c, d) <==> c.keys != [] && LeavesDb(c.verb, d)
  {
  }

  /** The request has a slot, and only one. */
  predicate HasSlot(r: Request) {
    if r.exec && r.multi then exists i :: 0 <= i < |r.commands| && r.commands[i].slot != -1 else r.slot != -1
  }

  predicate TwoSlots(r: Request) {
    if r.exec && r.multi then
      exists i, j :: 0 <= i < |r.commands| && 0 <= j < |r.commands| && r.commands[i].slot != r.commands[j].slot
                     && r.commands[i].slot != -1 && r.commands[j].slot != -1
    else r.crossSlot
  }

  lemma {:induction false} FirstSlotMeans(commands: seq<Command>)
    ensures FirstSlot(commands) != -1 <==> exists i :: 0 <= i < |commands| && commands[i].slot != -1
  {
    if commands != [] {
      FirstSlotMeans(commands[1..]);
      if i :| 0 <= i < |commands| && commands[i].slot != -1 {
        if i > 0 { assert commands[1..][i - 1] == commands[i]; }
      }
    }
  }

  lemma SlotsMean(r: Request)
    ensures SlotOf(r) != -1 <==> HasSlot(r)
    ensures TwoSlots(r) <==> if r.exec && r.multi then !SameSlot(r.commands) else r.crossSlot
  {
    FirstSlotMeans(r.commands);
  }

  // ---------------------------------------------------------------- a slot that stays

  /** The node moves this slot neither away nor here. */
  predicate Settled(v: View) { v.migratingTo.None? && v.importingFrom.None? }

  /** Redirection is on, and the request has one slot that some node owns. */
  predicate Routed(v: View, r: Request) { !v.noRedirection && !TwoSlots(r) && HasSlot(r) && v.owner.Some? }

  /** The cluster is up, or the configuration lets the request through although it is down. */
  predicate Admitted(v: View, r: Request) {
    || v.healthy
    || (if r.pubsub || (r.exec && r.queuedPubsub) then v.pubsubWhenDown else v.readsWhenDown && !r.write)
  }

  /** A replica of the owner may answer: a client that asked for it, or a shard channel, and nothing is written. */
  predicate ReplicaServes(v: View, r: Request) {
    && !v.primary && v.owner == Some(v.myPrimary)
    && (r.readonly || r.pubsub || (r.exec && r.queuedPubsub))
    && !r.write && !(r.exec && r.queuedWrite)
  }

  /** All answers of a node that does not move the slot. */
  lemma SettledAnswers(v: View, r: Request, held: set<DbKey>)
    requires Settled(v)
    ensures var reply := Decision(v, r, held);
            && (reply.Moved? <==>
                  Routed(v, r) && Admitted(v, r) && v.owner != Some(v.myself) && !ReplicaServes(v, r))
            && (reply == CrossSlot <==> !v.noRedirection && TwoSlots(r))
            && (reply == DownUnbound <==> !v.noRedirection && !TwoSlots(r) && HasSlot(r) && v.owner.None?)
            && (reply == DownState || reply == DownReadOnly <==> Routed(v, r) && !Admitted(v, r))
            && (reply == DownReadOnly <==>
                  Routed(v, r) && !v.healthy && v.readsWhenDown && r.write && !(r.pubsub || (r.exec && r.queuedPubsub)))
            && !reply.Ask? && reply != TryAgain
            && (reply.Serve? ==> reply.node == v.myself)
  {
    hide KeysOf, AnyRefused, SameSlot, FirstSlot, Missing, Existing, SeveralNames, HasSlot, TwoSlots, SlotOf;
    SlotsMean(r);
  }

  // ---------------------------------------------------------------- redirections

  /** A redirection names another node: MOVED the owner of the slot, ASK the node it is moving to. */
  lemma RedirectsElsewhere(v: View, r: Request, held: set<DbKey>)
    ensures var reply := Decision(v, r, held);
            && (reply.Moved? ==> v.owner == Some(reply.node) && reply.node != v.myself)
            && (reply.Ask? ==> v.migratingTo == Some(reply.node) && v.owner == Some(v.myPrimary))
            && (reply.Serve? ==> reply.node == v.myself)
  {
    hide KeysOf, AnyRefused, SameSlot, FirstSlot, Missing, Existing, SeveralNames;
  }

  /** The node that MOVED names does not say MOVED if it agrees on the owner, whatever else it knows. */
  lemma MovedOnce(v: View, w: View, r: Request, again: Request, held: set<DbKey>, there: set<DbKey>)
    requires Decision(v, r, held) == Moved(w.myself) && w.owner == v.owner
    ensures !Decision(w, again, there).Moved?
  {
    hide Decision;
    RedirectsElsewhere(v, r, held);
    RedirectsElsewhere(w, again, there);
  }

  /** The keys of a request are all there, or none of them. */
  ghost predicate AllHeld(r: Request, held: set<DbKey>) { forall k :: k in KeysOf(r.commands, r.db) ==> k in held }

  ghost predicate NoneHeld(r: Request, held: set<DbKey>) { forall k :: k in KeysOf(r.commands, r.db) ==> k !in held }

  ghost predicate OneName(r: Request) {
    forall j, k :: j in KeysOf(r.commands, r.db) && k in KeysOf(r.commands, r.db) ==> j.key == k.key
  }

  lemma HeldMeans(r: Request, held: set<DbKey>)
    ensures Missing(KeysOf(r.commands, r.db), held) <==> !AllHeld(r, held)
    ensures Existing(KeysOf(r.commands, r.db), held) <==> !NoneHeld(r, held)
    ensures SeveralNames(KeysOf(r.commands, r.db)) <==> !OneName(r)
  {
    hide KeysOf;
    var keys := KeysOf(r.commands, r.db);
    if SeveralNames(keys) {
      var i :| 0 <= i < |keys| && keys[i].key != keys[0].key;
      assert keys[i] in keys && keys[0] in keys;
    } else {
      assert forall k :: k in keys ==> k.key == keys[0].key;
    }
  }

  /** A request that is executed when it is answered: not MIGRATE, not queued, and about keys. */
  predicate Plainly(r: Request) {
    !r.migrate && r.exec == r.multi && !r.pubsub && !(r.exec && r.queuedPubsub) && HasSlot(r) && !TwoSlots(r)
  }

  /** All answers of a primary that is moving its slot away. */
  lemma MigratingAnswers(v: View, r: Request, held: set<DbKey>)
    requires Plainly(r) && !v.noRedirection && v.primary && v.myPrimary == v.myself
    requires v.owner == Some(v.myself) && v.migratingTo.Some? && Admitted(v, r)
    ensures var reply := Decision(v, r, held);
            && (reply == Serve(v.myself) <==> !AnyRefused(r.commands, r.db) && AllHeld(r, held))
            && (reply == Ask(v.migratingTo.value) <==>
                  !AnyRefused(r.commands, r.db) && !AllHeld(r, held) && NoneHeld(r, held))
            && (reply == TryAgain <==>
                  AnyRefused(r.commands, r.db) || (!AllHeld(r, held) && !NoneHeld(r, held)))
  {
    hide KeysOf, AnyRefused, SameSlot, FirstSlot, Missing, Existing, SeveralNames, HasSlot, TwoSlots, SlotOf, AllHeld,
      NoneHeld, OneName;
    SlotsMean(r);
    HeldMeans(r, held);
  }

  /** All answers of a primary that the slot is moving to. */
  lemma ImportingAnswers(v: View, r: Request, held: set<DbKey>)
    requires Plainly(r) && !v.noRedirection && v.primary && v.myPrimary == v.myself
    requires v.owner.Some? && v.owner != Some(v.myself) && v.importingFrom.Some? && Admitted(v, r)
    ensures var reply := Decision(v, r, held);
            && (reply == Serve(v.myself) <==>
                  !AnyRefused(r.commands, r.db) && r.asking && (AllHeld(r, held) || OneName(r)))
            && (reply == Moved(v.owner.value) <==> !AnyRefused(r.commands, r.db) && !r.asking)
            && (reply == TryAgain <==>
                  AnyRefused(r.commands, r.db) || (r.asking && !AllHeld(r, held) && !OneName(r)))
  {
    hide KeysOf, AnyRefused, SameSlot, FirstSlot, Missing, Existing, SeveralNames, HasSlot, TwoSlots, SlotOf, AllHeld,
      NoneHeld, OneName;
    SlotsMean(r);
    HeldMeans(r, held);
  }

  /** MIGRATE is always executed by a primary that moves the slot, either way, while the cluster lets it. */
  lemma MigrateStays(v: View, r: Request, held: set<DbKey>)
    requires r.migrate && !r.exec && !r.multi && !v.noRedirection && v.primary && v.myPrimary == v.myself
    requires Routed(v, r) && Admitted(v, r) && !AnyRefused(r.commands, r.db)
    requires (v.owner == Some(v.myself) && v.migratingTo.Some?) || v.importingFrom.Some?
    ensures Decision(v, r, held) == Serve(v.myself)
  {
    hide KeysOf, AnyRefused, SameSlot, FirstSlot, Missing, Existing, SeveralNames, HasSlot, TwoSlots, SlotOf;
    SlotsMean(r);
  }

  // ---------------------------------------------------------------- a client that follows redirections

  /** What the node with view v says to the request, and what a client does next: at most `hops` more requests. */
  ghost predicate ServedWithin(views: map<Node, View>, keys: map<Node, set<DbKey>>, at: Node, r: Request, hops: nat)
    requires views.Keys == keys.Keys
    decreases hops
  {
    && at in views
    && var reply := Decision(views[at], r, keys[at]);
       || reply == Serve(at)
       || (hops > 0 && reply.Moved? && ServedWithin(views, keys, reply.node, r.(asking := false), hops - 1))
       || (hops > 0 && reply.Ask? && ServedWithin(views, keys, reply.node, r.(asking := true), hops - 1))
  }

  /** Primaries that agree on the owner of the slot; it may be moving the slot to `to`, and nobody else moves it. */
  ghost predicate Agreed(views: map<Node, View>, owner: Node, to: Option<Node>) {
    && owner in views && (to.Some? ==> to.value in views && to.value != owner)
    && forall n :: n in views ==>
         var v := views[n];
         && v.myself == n == v.myPrimary && v.primary && v.healthy && !v.noRedirection && v.owner == Some(owner)
         && v.migratingTo == (if n == owner then to else None)
         && v.importingFrom == (if to == Some(n) then Some(owner) else None)
  }

  /**
   From whatever node a client starts, following MOVED and ASK gets its request served within two
   redirections if its keys are all at the owner, or all at the node the slot moves to, or it
   names one key that is at neither.
   */
  lemma FollowedIsServed(views: map<Node, View>, keys: map<Node, set<DbKey>>, owner: Node, to: Option<Node>,
                         at: Node, r: Request)
    requires views.Keys == keys.Keys && Agreed(views, owner, to) && at in views
    requires Plainly(r) && !r.asking && !AnyRefused(r.commands, r.db)
    requires || AllHeld(r, keys[owner])
             || (to.Some? && NoneHeld(r, keys[owner]) && (AllHeld(r, keys[to.value]) || OneName(r)))
             || to.None?
    ensures ServedWithin(views, keys, at, r, 2)
  {
    hide Decision, AnyRefused, AllHeld, NoneHeld, OneName, HasSlot, TwoSlots;
    assert r.(asking := false) == r;
    OwnerAnswers(views, keys, owner, to, r);
    if at != owner {
      if to == Some(at) {
        ImportingAnswers(views[at], r, keys[at]);
      } else {
        SettledAnswers(views[at], r, keys[at]);
        RedirectsElsewhere(views[at], r, keys[at]);
      }
      assert Decision(views[at], r, keys[at]) == Moved(owner);
      assert ServedWithin(views, keys, owner, r, 1);
    } else {
      MoreHops(views, keys, owner, r);
    }
  }

  lemma MoreHops(views: map<Node, View>, keys: map<Node, set<DbKey>>, at: Node, r: Request)
    requires views.Keys == keys.Keys && ServedWithin(views, keys, at, r, 1)
    ensures ServedWithin(views, keys, at, r, 2)
  {
    hide Decision;
    var reply := Decision(views[at], r, keys[at]);
    if reply.Moved? && reply != Serve(at) {
      assert ServedWithin(views, keys, reply.node, r.(asking := false), 0);
      assert ServedWithin(views, keys, reply.node, r.(asking := false), 1);
    } else if reply.Ask? {
      assert ServedWithin(views, keys, reply.node, r.(asking := true), 0);
      assert ServedWithin(views, keys, reply.node, r.(asking := true), 1);
    }
  }

  lemma OwnerAnswers(views: map<Node, View>, keys: map<Node, set<DbKey>>, owner: Node, to: Option<Node>, r: Request)
    requires views.Keys == keys.Keys && Agreed(views, owner, to)
    requires Plainly(r) && !r.asking && !AnyRefused(r.commands, r.db)
    requires || AllHeld(r, keys[owner])
             || (to.Some? && NoneHeld(r, keys[owner]) && (AllHeld(r, keys[to.value]) || OneName(r)))
             || to.None?
    ensures ServedWithin(views, keys, owner, r, 1)
  {
    hide Decision, AnyRefused, AllHeld, NoneHeld, OneName, HasSlot, TwoSlots;
    if to.None? {
      SettledAnswers(views[owner], r, keys[owner]);
      SettledServes(views[owner], r, keys[owner]);
    } else {
      MigratingAnswers(views[owner], r, keys[owner]);
      if !AllHeld(r, keys[owner]) {
        var n, again := to.value, r.(asking := true);
        SameKeysAsked(r);
        ImportingAnswers(views[n], again, keys[n]);
        assert ServedWithin(views, keys, n, again, 0);
      }
    }
  }

  lemma SameKeysAsked(r: Request)
    ensures var again := r.(asking := true);
            && (Plainly(again) <==> Plainly(r)) && (OneName(again) <==> OneName(r))
            && (forall held :: (AllHeld(again, held) <==> AllHeld(r, held)))
  {
    hide KeysOf;
  }

  lemma SettledServes(v: View, r: Request, held: set<DbKey>)
    requires Settled(v) && Plainly(r) && v.owner == Some(v.myself) && v.healthy
    ensures Decision(v, r, held) == Serve(v.myself)
  {
    hide KeysOf, AnyRefused, SameSlot, FirstSlot, Missing, Existing, SeveralNames, HasSlot, TwoSlots, SlotOf;
    SlotsMean(r);
  }
}
