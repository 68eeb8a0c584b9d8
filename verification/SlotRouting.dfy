/**
 Request routing while slots move between nodes: getNodeByQuery, and the key bookkeeping of
 migrateCommand.
 */
module SlotRouting {

  import opened Options

  type Node = nat
  type Key = string

  /** A key of one of the node's databases. */
  datatype DbKey = DbKey(db: nat, key: Key)

  /** An argument of COPY behind its two keys: the word DB, or any other text with its number if it is one. */
  datatype CopyWord = DbWord | Text(number: Option<int>)

  /** Commands as far as routing tells them apart. */
  datatype Verb =
    | Select(db: Option<nat>)                          // None: not a valid database
    | Move
    | Copy(words: seq<CopyWord>, beyond: CopyWord)     // what is read behind the last argument, if it is
    | Plain

  datatype Command = Command(verb: Verb, keys: seq<Key>, slot: int)

  /** A client's request: one command, or the commands queued for EXEC. */
  datatype Request = Request(
    exec: bool,              // the command is EXEC
    multi: bool,             // the client is in MULTI state
    commands: seq<Command>,  // the queue for EXEC in MULTI, else the command itself
    slot: int,               // c->slot as parsed, -1 for no keys
    crossSlot: bool,         // READ_FLAGS_CROSSSLOT
    db: nat,
    migrate: bool,           // the command is MIGRATE
    write: bool,             // the command's own flags
    pubsub: bool,
    queuedWrite: bool,       // the flags of the queue
    queuedPubsub: bool,
    asking: bool, readonly: bool)

  /** What this node knows about the slot, the cluster and its own role. */
  datatype View = View(
    myself: Node, primary: bool, myPrimary: Node,
    owner: Option<Node>, migratingTo: Option<Node>, importingFrom: Option<Node>,
    healthy: bool, readsWhenDown: bool, pubsubWhenDown: bool, noRedirection: bool)

  datatype Reply =
    | Serve(node: Node) | Moved(node: Node) | Ask(node: Node)
    | CrossSlot | TryAgain | DownUnbound | DownState | DownReadOnly

  // ---------------------------------------------------------------- specification

  /** The slot of a transaction: that of its commands that have one. */
  predicate SameSlot(commands: seq<Command>) {
    forall i, j :: 0 <= i < j < |commands| && commands[i].slot != -1 && commands[j].slot != -1 ==>
                     commands[i].slot == commands[j].slot
  }

  function FirstSlot(commands: seq<Command>): int {
    if commands == [] then -1
    else if commands[0].slot != -1 then commands[0].slot
    else FirstSlot(commands[1..])
  }

  /** The database in force after a prefix of the commands. */
  function DbAfter(commands: seq<Command>, db: nat): nat {
    if commands == [] then db
    else
      var last := commands[|commands| - 1];
      if last.verb.Select? && last.verb.db.Some? then last.verb.db.value
      else DbAfter(commands[..|commands| - 1], db)
  }

  /** Every key of the request, in order, each in its database. */
  function KeysOf(commands: seq<Command>, db: nat): seq<DbKey> {
    if commands == [] then []
    else
      var most, last := commands[..|commands| - 1], commands[|commands| - 1];
      KeysOf(most, db) + InDb(last.keys, DbAfter(commands, db))
  }

  function InDb(keys: seq<Key>, db: nat): seq<DbKey> {
    seq(|keys|, i requires 0 <= i < |keys| => DbKey(db, keys[i]))
  }

  /** COPY looks at the argument behind the word DB, which need not be there. */
  predicate ReadsDb(words: seq<CopyWord>) { words != [] && words[0].DbWord? }

  predicate ReadsBeyond(words: seq<CopyWord>) { ReadsDb(words) && |words| == 1 }

  predicate OtherDb(words: seq<CopyWord>, beyond: CopyWord, db: nat) {
    && ReadsDb(words)
    && (var word := if |words| > 1 then words[1] else beyond;
        word.DbWord? || word.number != Some(db as int))
  }

  /** MOVE, and COPY to another database, are refused while a slot moves. */
  predicate Refused(c: Command, db: nat) {
    c.keys != [] && (c.verb.Move? || (c.verb.Copy? && OtherDb(c.verb.words, c.verb.beyond, db)))
  }

  /** Whether COPY is refused is settled by its arguments exactly if it does not end with the word DB. */
  lemma CopyReadsArguments(words: seq<CopyWord>, db: nat)
    ensures (forall x, y :: OtherDb(words, x, db) == OtherDb(words, y, db)) <==> !ReadsBeyond(words)
  {
    if ReadsBeyond(words) {
      assert !OtherDb(words, Text(Some(db as int)), db) && OtherDb(words, Text(None), db);
    }
  }

  /** COPY a b DB: what is behind the arguments decides. */
  lemma CopyEndsWithDb()
    ensures ReadsBeyond([DbWord])
    ensures !OtherDb([DbWord], Text(Some(0)), 0) && OtherDb([DbWord], Text(None), 0)
  {
  }

  /** Shard channels are named by the request, by itself or in its transaction. */
  predicate Sharded(r: Request) { r.pubsub || (r.exec && r.queuedPubsub) }

  predicate Writes(r: Request) { r.write || (r.exec && r.queuedWrite) }

  predicate AnyRefused(commands: seq<Command>, db: nat) {
    exists i :: 0 <= i < |commands| && Refused(commands[i], DbAfter(commands[..i + 1], db))
  }

  ghost predicate Missing(keys: seq<DbKey>, held: set<DbKey>) { exists i :: 0 <= i < |keys| && keys[i] !in held }

  ghost predicate Existing(keys: seq<DbKey>, held: set<DbKey>) { exists i :: 0 <= i < |keys| && keys[i] in held }

  ghost predicate SeveralNames(keys: seq<DbKey>) { exists i :: 0 <= i < |keys| && keys[i].key != keys[0].key }

  predicate Migrating(v: View, r: Request) {
    (v.primary || r.readonly) && v.owner == Some(v.myPrimary) && v.migratingTo.Some?
  }

  predicate Importing(v: View, r: Request) {
    (v.primary || r.readonly) && !Migrating(v, r) && v.importingFrom.Some?
  }

  function SlotOf(r: Request): int {
    if r.exec && r.multi then FirstSlot(r.commands) else r.slot
  }

  /** The last part of getNodeByQuery, once the keys have been looked at. */
  function Route(v: View, r: Request, missing: bool, existing: bool, several: bool): Reply
    requires v.owner.Some?
  {
    if !v.healthy && Sharded(r) && !v.pubsubWhenDown then DownState
    else if !v.healthy && !Sharded(r) && !v.readsWhenDown then DownState
    else if !v.healthy && !Sharded(r) && r.write then DownReadOnly
    else if (Migrating(v, r) || Importing(v, r)) && r.migrate && v.primary then Serve(v.myself)
    else if Migrating(v, r) && missing then (if existing then TryAgain else Ask(v.migratingTo.value))
    else if Importing(v, r) && r.asking then (if several && missing then TryAgain else Serve(v.myself))
    else if (r.readonly || Sharded(r)) && !Writes(r) && !v.primary && v.owner.value == v.myPrimary
    then Serve(v.myself)
    else if v.owner.value == v.myself then Serve(v.myself)
    else Moved(v.owner.value)
  }

  /** What the node answers, in terms of the request's keys and the keys it holds. */
  ghost function Decision(v: View, r: Request, held: set<DbKey>): Reply {
    if v.noRedirection then Serve(v.myself)
    else if r.exec && r.multi && !SameSlot(r.commands) then CrossSlot
    else if !(r.exec && r.multi) && r.crossSlot then CrossSlot
    else if SlotOf(r) == -1 then Serve(v.myself)
    else if v.owner.None? then DownUnbound
    else if !Migrating(v, r) && !Importing(v, r) then Route(v, r, false, false, false)
    else if r.exec && !r.multi then Serve(v.myself)
    else if AnyRefused(r.commands, r.db) then TryAgain
    else
      var keys := KeysOf(r.commands, r.db);
      var looked := !Sharded(r) && (!r.multi || r.exec);
      Route(v, r, looked && Missing(keys, held), looked && Existing(keys, held),
            Importing(v, r) && SeveralNames(keys))
  }

  // ---------------------------------------------------------------- getNodeByQuery

  /** The loop that finds the slot of a transaction. */
  method TransactionSlot(commands: seq<Command>) returns (ok: bool, slot: int)
    ensures ok <==> SameSlot(commands)
    ensures ok ==> slot == FirstSlot(commands)
  {
    slot := -1;
    for i := 0 to |commands|
      invariant slot == FirstSlot(commands[..i])
      invariant SameSlot(commands[..i])
      invariant forall k :: 0 <= k < i && commands[k].slot != -1 ==> commands[k].slot == slot
      invariant slot != -1 ==> exists k :: 0 <= k < i && commands[k].slot == slot
    {
      FirstSlotNext(commands[..i], commands[i]);
      assert commands[..i + 1] == commands[..i] + [commands[i]];
      if slot == -1 {
        slot := commands[i].slot;
      } else if commands[i].slot != -1 && commands[i].slot != slot {
        return false, slot;
      }
    }
    assert commands[..|commands|] == commands;
    ok := true;
  }

  lemma {:induction false} FirstSlotNext(cs: seq<Command>, c: Command)
    ensures FirstSlot(cs + [c]) == if FirstSlot(cs) != -1 then FirstSlot(cs) else c.slot
  {
    if cs == [] {
      assert [c][1..] == [];
    } else {
      assert (cs + [c])[1..] == cs[1..] + [c];
      FirstSlotNext(cs[1..], c);
    }
  }

  /** The loop over the keys of all commands: refusals, missing and existing keys, distinct names. */
  method CountKeys(commands: seq<Command>, db: nat, held: set<DbKey>, importing: bool, looked: bool)
    returns (refused: bool, missing: nat, existing: nat, several: bool)
    ensures refused <==> AnyRefused(commands, db)
    ensures !refused ==> var keys := KeysOf(commands, db);
              && (missing > 0 <==> looked && Missing(keys, held))
              && (existing > 0 <==> looked && Existing(keys, held))
              && (several <==> importing && SeveralNames(keys))
  {
    missing, existing, several := 0, 0, false;
    var current := db;
    var first: Option<Key> := None;
    for i := 0 to |commands|
      invariant current == DbAfter(commands[..i], db)
      invariant !AnyRefused(commands[..i], db)
      invariant Counted(KeysOf(commands[..i], db), held, importing, looked, first, missing, existing, several)
    {
      var c := commands[i];
      assert commands[..i + 1][..i] == commands[..i];
      if c.verb.Select? && c.verb.db.Some? { current := c.verb.db.value; }
      if c.keys != [] && (c.verb.Move? || (c.verb.Copy? && OtherDb(c.verb.words, c.verb.beyond, current))) {
        assert Refused(commands[i], DbAfter(commands[..i + 1], db));
        refused := true;
        return;
      }
      RefusedNext(commands, i, db);
      first, missing, existing, several :=
        CountCommand(c.keys, current, held, importing, looked, first, missing, existing, several,
                     KeysOf(commands[..i], db));
    }
    assert commands[..|commands|] == commands;
    refused := false;
  }

  lemma RefusedNext(commands: seq<Command>, i: nat, db: nat)
    requires i < |commands| && !AnyRefused(commands[..i], db)
    requires !Refused(commands[i], DbAfter(commands[..i + 1], db))
    ensures !AnyRefused(commands[..i + 1], db)
  {
    var cs := commands[..i + 1];
    forall k | 0 <= k < |cs| ensures !Refused(cs[k], DbAfter(cs[..k + 1], db)) {
      assert cs[..k + 1] == commands[..k + 1];
      if k < i { assert commands[..i][..k + 1] == commands[..k + 1]; }
    }
  }

  /** The counters after some keys, and the first key seen. */
  ghost predicate Counted(keys: seq<DbKey>, held: set<DbKey>, importing: bool, looked: bool,
                          first: Option<Key>, missing: nat, existing: nat, several: bool)
  {
    && (first.None? <==> keys == [])
    && (first.Some? ==> keys[0].key == first.value)
    && (missing > 0 <==> looked && Missing(keys, held))
    && (existing > 0 <==> looked && Existing(keys, held))
    && (several <==> importing && SeveralNames(keys))
  }

  /** The inner loop: the keys of one command. */
  method CountCommand(names: seq<Key>, db: nat, held: set<DbKey>, importing: bool, looked: bool,
                      first0: Option<Key>, missing0: nat, existing0: nat, several0: bool, ghost before: seq<DbKey>)
    returns (first: Option<Key>, missing: nat, existing: nat, several: bool)
    requires Counted(before, held, importing, looked, first0, missing0, existing0, several0)
    ensures Counted(before + InDb(names, db), held, importing, looked, first, missing, existing, several)
  {
    first, missing, existing, several := first0, missing0, existing0, several0;
    assert before + InDb(names[..0], db) == before;
    for j := 0 to |names|
      invariant Counted(before + InDb(names[..j], db), held, importing, looked, first, missing, existing, several)
    {
      ghost var keys := before + InDb(names[..j], db);
      var key := DbKey(db, names[j]);
      CountedNext(keys, key, held, importing, looked, first, missing, existing, several);
      assert before + InDb(names[..j + 1], db) == keys + [key];
      if first.None? {
        first := Some(names[j]);
      } else if importing && !several && first.value != names[j] {
        several := true;
      }
      if looked {
        if key !in held { missing := missing + 1; } else { existing := existing + 1; }
      }
    }
    assert names[..|names|] == names;
  }

  lemma CountedNext(keys: seq<DbKey>, key: DbKey, held: set<DbKey>, importing: bool, looked: bool,
                    first: Option<Key>, missing: nat, existing: nat, several: bool)
    requires Counted(keys, held, importing, looked, first, missing, existing, several)
    ensures Missing(keys + [key], held) <==> Missing(keys, held) || key !in held
    ensures Existing(keys + [key], held) <==> Existing(keys, held) || key in held
    ensures SeveralNames(keys + [key]) <==> SeveralNames(keys) || (first.Some? && key.key != first.value)
  {
    var more := keys + [key];
    assert more[|keys|] == key;
    if Missing(keys, held) { var i :| 0 <= i < |keys| && keys[i] !in held; assert more[i] == keys[i]; }
    if Existing(keys, held) { var i :| 0 <= i < |keys| && keys[i] in held; assert more[i] == keys[i]; }
    if SeveralNames(keys) { var i :| 0 <= i < |keys| && keys[i].key != keys[0].key; assert more[i] == keys[i]; }
  }

  /** getNodeByQuery. */
  method GetNodeByQuery(v: View, r: Request, held: set<DbKey>) returns (reply: Reply, slot: int)
    ensures reply == Decision(v, r, held)
    ensures slot == r.slot || (r.exec && r.multi && slot == FirstSlot(r.commands))
  {
    hide KeysOf, Missing, Existing, SeveralNames, AnyRefused, SameSlot, FirstSlot, Route, Sharded;
    slot := r.slot;
    if v.noRedirection { return Serve(v.myself), slot; }
    if r.exec && r.multi {
      var ok, own := TransactionSlot(r.commands);
      if !ok { return CrossSlot, slot; }
      slot := own;
    } else if r.crossSlot {
      return CrossSlot, slot;
    }
    if slot == -1 { return Serve(v.myself), slot; }
    if v.owner.None? { return DownUnbound, slot; }
    var migrating, importing := false, false;
    if v.primary || r.readonly {
      if v.owner.value == v.myPrimary && v.migratingTo.Some? {
        migrating := true;
      } else if v.importingFrom.Some? {
        importing := true;
      }
    }
    var missing, existing, several := 0, 0, false;
    if migrating || importing {
      if r.exec && !r.multi { return Serve(v.myself), slot; }
      var refused;
      refused, missing, existing, several :=
        CountKeys(r.commands, r.db, held, importing, !Sharded(r) && (!r.multi || r.exec));
      if refused { return TryAgain, slot; }
    }
    reply := Route(v, r, missing > 0, existing > 0, several);
  }
}
