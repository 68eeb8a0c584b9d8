/**
 The two-way index of blocked.c: every key has a list of waiting clients, every client a set
 of keys with its place in each list, and some keys a count of waiters that want to be
 woken when the key disappears. Lists are sequences; a place is the identity of a node.
 */
module BlockIndex {

  type Client = nat

  /** A key of one database. */
  datatype Key = Key(db: nat, name: string)

  /** A node of a waiting list. */
  datatype Entry = Entry(node: nat, client: Client)

  /**
   db->blocking_keys, db->blocking_keys_unblock_on_nokey and bstate->keys of every client;
   `next` is a node identity not used yet.
   */
  datatype Index = Index(
    waiting: map<Key, seq<Entry>>,
    noKey: map<Key, nat>,
    keys: map<Client, map<Key, nat>>,
    next: nat)

  /** Number of entries of a list whose client is in `wants`. */
  function Count(list: seq<Entry>, wants: set<Client>): nat {
    if list == [] then 0
    else Count(list[..|list| - 1], wants) + (if list[|list| - 1].client in wants then 1 else 0)
  }

  function KeysOf(x: Index, c: Client): map<Key, nat> { if c in x.keys then x.keys[c] else map[] }

  predicate DistinctEntries(list: seq<Entry>) {
    forall i, j :: 0 <= i < j < |list| ==> list[i].client != list[j].client && list[i].node != list[j].node
  }

  predicate Listed(list: seq<Entry>, c: Client, node: nat) { Entry(node, c) in list }

  /** Key k: its list is not empty, without repetition, and each entry is known to its client. */
  predicate ListOk(x: Index, k: Key) {
    k in x.waiting ==>
      && x.waiting[k] != [] && DistinctEntries(x.waiting[k])
      && forall i :: 0 <= i < |x.waiting[k]| ==>
           var e := x.waiting[k][i];
           e.node < x.next && k in KeysOf(x, e.client) && KeysOf(x, e.client)[k] == e.node
  }

  /** Key k of client c: the client is in the key's list, at the place it remembers. */
  predicate ClientOk(x: Index, c: Client, k: Key) {
    k in KeysOf(x, c) ==> k in x.waiting && Listed(x.waiting[k], c, KeysOf(x, c)[k])
  }

  /** The count of waiters to wake on deletion is exact, and kept only while positive. */
  predicate CountOk(x: Index, wants: set<Client>, k: Key) {
    var n := if k in x.waiting then Count(x.waiting[k], wants) else 0;
    if n == 0 then k !in x.noKey else k in x.noKey && x.noKey[k] == n
  }

  ghost predicate Exact(x: Index, wants: set<Client>) {
    && (forall k :: ListOk(x, k))
    && (forall c, k :: ClientOk(x, c, k))
    && (forall k :: CountOk(x, wants, k))
  }

  // ---------------------------------------------------------------- counting

  lemma CountAppend(list: seq<Entry>, e: Entry, wants: set<Client>)
    ensures Count(list + [e], wants) == Count(list, wants) + (if e.client in wants then 1 else 0)
  {
    assert (list + [e])[..|list|] == list;
  }

  lemma {:induction false} CountRemove(list: seq<Entry>, i: nat, wants: set<Client>)
    requires i < |list|
    ensures Count(list[..i] + list[i + 1..], wants) == Count(list, wants) - (if list[i].client in wants then 1 else 0)
    ensures list[i].client in wants ==> Count(list, wants) > 0
  {
    var rest := list[..i] + list[i + 1..];
    if i == |list| - 1 {
      assert rest == list[..i];
    } else {
      var most := list[..|list| - 1];
      CountRemove(most, i, wants);
      assert rest[..|rest| - 1] == most[..i] + most[i + 1..];
    }
  }

  /** Clients that are in no entry do not matter. */
  lemma {:induction false} CountFrame(list: seq<Entry>, wants: set<Client>, wants': set<Client>)
    requires forall i :: 0 <= i < |list| ==> (list[i].client in wants <==> list[i].client in wants')
    ensures Count(list, wants) == Count(list, wants')
  {
    if list != [] { CountFrame(list[..|list| - 1], wants, wants'); }
  }

  /** A client without keys may change its mind about deletions. */
  lemma WantsChange(x: Index, wants: set<Client>, wants': set<Client>, c: Client)
    requires Exact(x, wants) && KeysOf(x, c) == map[] && wants - {c} == wants' - {c}
    ensures Exact(x, wants')
  {
    forall k ensures CountOk(x, wants', k) {
      assert CountOk(x, wants, k);
      if k in x.waiting {
        var list := x.waiting[k];
        assert ListOk(x, k);
        forall i | 0 <= i < |list| ensures list[i].client in wants <==> list[i].client in wants' {
          assert list[i].client != c;
          assert list[i].client in wants - {c} <==> list[i].client in wants;
          assert list[i].client in wants' - {c} <==> list[i].client in wants';
        }
        CountFrame(list, wants, wants');
      }
    }
  }

  // ---------------------------------------------------------------- adding an entry

  /** One turn of the loop of blockForKeys: append to the list, remember the place. */
  function Added(x: Index, c: Client, k: Key, nokey: bool): Index {
    var before := if k in x.waiting then x.waiting[k] else [];
    x.(waiting := x.waiting[k := before + [Entry(x.next, c)]],
       keys := x.keys[c := KeysOf(x, c)[k := x.next]],
       noKey := if nokey then x.noKey[k := if k in x.noKey then x.noKey[k] + 1 else 1] else x.noKey,
       next := x.next + 1)
  }

  lemma AddedExact(x: Index, wants: set<Client>, c: Client, k: Key, nokey: bool)
    requires Exact(x, wants) && k !in KeysOf(x, c) && (nokey <==> c in wants)
    ensures Exact(Added(x, c, k, nokey), wants)
  {
    var y := Added(x, c, k, nokey);
    var before := if k in x.waiting then x.waiting[k] else [];
    assert ListOk(x, k) && CountOk(x, wants, k);
    CountAppend(before, Entry(x.next, c), wants);
    forall k' ensures ListOk(y, k') { assert ListOk(x, k'); AddedList(x, c, k, nokey, k'); }
    forall c', k' ensures ClientOk(y, c', k') { assert ClientOk(x, c', k'); AddedClient(x, c, k, nokey, c', k'); }
    forall k' ensures CountOk(y, wants, k') { assert CountOk(x, wants, k'); }
  }

  lemma AddedList(x: Index, c: Client, k: Key, nokey: bool, k': Key)
    requires ListOk(x, k') && k !in KeysOf(x, c)
    ensures ListOk(Added(x, c, k, nokey), k')
  {
    var y := Added(x, c, k, nokey);
    if k' in y.waiting {
      var list := y.waiting[k'];
      forall i | 0 <= i < |list| ensures list[i].node < y.next && k' in KeysOf(y, list[i].client)
                                         && KeysOf(y, list[i].client)[k'] == list[i].node {
      }
    }
  }

  lemma AddedClient(x: Index, c: Client, k: Key, nokey: bool, c': Client, k': Key)
    requires ClientOk(x, c', k')
    ensures ClientOk(Added(x, c, k, nokey), c', k')
  {
    var y := Added(x, c, k, nokey);
    if k' == k && k in y.waiting {
      var before := if k in x.waiting then x.waiting[k] else [];
      assert y.waiting[k][|before|] == Entry(x.next, c);
      if k in KeysOf(x, c') { assert Entry(KeysOf(x, c')[k], c') in before; }
    }
  }

  // ---------------------------------------------------------------- removing an entry

  /** Position of a node in a list. */
  function Find(list: seq<Entry>, node: nat): (i: nat)
    ensures i <= |list|
    ensures i < |list| ==> list[i].node == node
    ensures forall j :: 0 <= j < i ==> list[j].node != node
  {
    if list == [] then 0 else if list[0].node == node then 0 else 1 + Find(list[1..], node)
  }

  /** listUnlinkNode. */
  function Unlink(list: seq<Entry>, node: nat): seq<Entry> {
    var i := Find(list, node);
    if i < |list| then list[..i] + list[i + 1..] else list
  }

  /** releaseBlockedEntry up to its last line: list and count, not yet the client's own set. */
  function Unlisted(x: Index, k: Key, node: nat, nokey: bool): Index
    requires k in x.waiting
  {
    var rest := Unlink(x.waiting[k], node);
    x.(waiting := if rest == [] then x.waiting - {k} else x.waiting[k := rest],
       noKey := if rest == [] then x.noKey - {k}
                else if !nokey then x.noKey
                else if k in x.noKey && x.noKey[k] > 1 then x.noKey[k := x.noKey[k] - 1]
                else x.noKey - {k})
  }

  /** The index once client c only remembers the keys of `rest`. */
  function Restricted(x: Index, c: Client, rest: set<Key>): Index {
    x.(keys := x.keys[c := map k | k in KeysOf(x, c) && k in rest :: KeysOf(x, c)[k]])
  }

  lemma RemovedDistinct(list: seq<Entry>, i: nat)
    requires DistinctEntries(list) && i < |list|
    ensures var rest := list[..i] + list[i + 1..];
            && DistinctEntries(rest)
            && (forall e :: e in rest <==> e in list && e.client != list[i].client)
  {
    var rest := list[..i] + list[i + 1..];
    forall e | e in list && e.client != list[i].client ensures e in rest {
      var j :| 0 <= j < |list| && list[j] == e;
      assert if j < i then rest[j] == e else rest[j - 1] == e;
    }
  }

  /** The entry that a client remembers is where unlinking finds it. */
  lemma Placed(x: Index, wants: set<Client>, c: Client, k: Key) returns (i: nat)
    requires Exact(x, wants) && k in KeysOf(x, c)
    ensures k in x.waiting && DistinctEntries(x.waiting[k])
    ensures var list := x.waiting[k];
            i < |list| && list[i].client == c && Unlink(list, KeysOf(x, c)[k]) == list[..i] + list[i + 1..]
  {
    assert ClientOk(x, c, k) && ListOk(x, k);
    hide Exact, Count, DistinctEntries;
    i := Find(x.waiting[k], KeysOf(x, c)[k]);
    assert Entry(KeysOf(x, c)[k], c) in x.waiting[k];
  }

  lemma UnlinkFacts(x: Index, wants: set<Client>, c: Client, k: Key)
    requires Exact(x, wants) && k in KeysOf(x, c)
    ensures k in x.waiting && DistinctEntries(x.waiting[k])
    ensures var list := x.waiting[k];
            var rest := Unlink(list, KeysOf(x, c)[k]);
            && DistinctEntries(rest)
            && (forall e :: e in rest <==> e in list && e.client != c)
            && Count(rest, wants) == Count(list, wants) - (if c in wants then 1 else 0)
  {
    hide *;
    var i := Placed(x, wants, c, k);
    RemovedDistinct(x.waiting[k], i);
    CountRemove(x.waiting[k], i, wants);
  }

  /** One entry released, and forgotten by its client: the index stays exact. */
  lemma ReleasedExact(x: Index, wants: set<Client>, c: Client, k: Key, rest: set<Key>)
    requires Exact(x, wants) && k in KeysOf(x, c) && KeysOf(x, c).Keys == rest
    ensures k in x.waiting
    ensures Exact(Restricted(Unlisted(x, k, KeysOf(x, c)[k], c in wants), c, rest - {k}), wants)
    ensures c in wants ==> k in x.noKey
  {
    UnlinkFacts(x, wants, c, k);
    var y := Restricted(Unlisted(x, k, KeysOf(x, c)[k], c in wants), c, rest - {k});
    assert CountOk(x, wants, k);
    forall k' ensures ListOk(y, k') { ReleasedList(x, wants, c, k, rest, k'); }
    forall c', k' ensures ClientOk(y, c', k') { ReleasedClient(x, wants, c, k, rest, c', k'); }
    forall k' ensures CountOk(y, wants, k') { assert CountOk(x, wants, k'); }
  }

  lemma ReleasedList(x: Index, wants: set<Client>, c: Client, k: Key, rest: set<Key>, k': Key)
    requires Exact(x, wants) && k in KeysOf(x, c) && KeysOf(x, c).Keys == rest && k in x.waiting
    ensures ListOk(Restricted(Unlisted(x, k, KeysOf(x, c)[k], c in wants), c, rest - {k}), k')
  {
    if k' == k { ReleasedSame(x, wants, c, k, rest); } else { ReleasedOther(x, wants, c, k, rest, k'); }
  }

  lemma ReleasedSame(x: Index, wants: set<Client>, c: Client, k: Key, rest: set<Key>)
    requires Exact(x, wants) && k in KeysOf(x, c) && KeysOf(x, c).Keys == rest && k in x.waiting
    ensures ListOk(Restricted(Unlisted(x, k, KeysOf(x, c)[k], c in wants), c, rest - {k}), k)
  {
    hide Exact, Unlink, Count, DistinctEntries, Unlisted, Restricted, KeysOf;
    UnlinkFacts(x, wants, c, k);
    assert ListOk(x, k) by { ExactAt(x, wants, k); }
    var y := Restricted(Unlisted(x, k, KeysOf(x, c)[k], c in wants), c, rest - {k});
    ReleasedWaiting(x, c, k, rest, c in wants, k);
    if k in y.waiting {
      var list := y.waiting[k];
      forall i | 0 <= i < |list| ensures
        list[i].node < y.next && k in KeysOf(y, list[i].client) && KeysOf(y, list[i].client)[k] == list[i].node
      {
        assert list[i] in x.waiting[k] && list[i].client != c;
        ReleasedKeys(x, c, k, rest, c in wants, list[i].client);
      }
    }
  }

  lemma ReleasedOther(x: Index, wants: set<Client>, c: Client, k: Key, rest: set<Key>, k': Key)
    requires Exact(x, wants) && k in KeysOf(x, c) && KeysOf(x, c).Keys == rest && k in x.waiting && k' != k
    ensures ListOk(Restricted(Unlisted(x, k, KeysOf(x, c)[k], c in wants), c, rest - {k}), k')
  {
    hide Exact, Unlink, Count, DistinctEntries, Unlisted, Restricted, KeysOf;
    assert ListOk(x, k') by { ExactAt(x, wants, k'); }
    var y := Restricted(Unlisted(x, k, KeysOf(x, c)[k], c in wants), c, rest - {k});
    ReleasedWaiting(x, c, k, rest, c in wants, k');
    if k' in y.waiting {
      var list := y.waiting[k'];
      forall i | 0 <= i < |list| ensures
        list[i].node < y.next && k' in KeysOf(y, list[i].client) && KeysOf(y, list[i].client)[k'] == list[i].node
      {
        ReleasedKeys(x, c, k, rest, c in wants, list[i].client);
      }
    }
  }

  lemma ExactAt(x: Index, wants: set<Client>, k: Key)
    requires Exact(x, wants)
    ensures ListOk(x, k)
  {
  }

  lemma ReleasedKeys(x: Index, c: Client, k: Key, rest: set<Key>, nokey: bool, c': Client)
    requires k in x.waiting && k in KeysOf(x, c) && KeysOf(x, c).Keys == rest
    ensures KeysOf(Restricted(Unlisted(x, k, KeysOf(x, c)[k], nokey), c, rest - {k}), c') ==
            if c' == c then KeysOf(x, c) - {k} else KeysOf(x, c')
  {
    hide Unlink;
  }

  lemma ReleasedWaiting(x: Index, c: Client, k: Key, rest: set<Key>, nokey: bool, k': Key)
    requires k in x.waiting && k in KeysOf(x, c)
    ensures var y := Restricted(Unlisted(x, k, KeysOf(x, c)[k], nokey), c, rest - {k});
            && y.next == x.next
            && (k' in y.waiting ==> k' in x.waiting)
            && (k' in y.waiting ==>
                  y.waiting[k'] == if k' == k then Unlink(x.waiting[k], KeysOf(x, c)[k]) else x.waiting[k'])
            && (k' in y.waiting && k' == k ==> y.waiting[k'] != [])
  {
    hide Unlink;
  }

  lemma ReleasedClient(x: Index, wants: set<Client>, c: Client, k: Key, rest: set<Key>, c': Client, k': Key)
    requires Exact(x, wants) && k in KeysOf(x, c) && KeysOf(x, c).Keys == rest && k in x.waiting
    ensures ClientOk(Restricted(Unlisted(x, k, KeysOf(x, c)[k], c in wants), c, rest - {k}), c', k')
  {
    UnlinkFacts(x, wants, c, k);
    hide Unlink, Count, DistinctEntries;
    assert ClientOk(x, c', k');
  }

  // ---------------------------------------------------------------- whole lists

  function WaitingOf(x: Index, k: Key): seq<Entry> { if k in x.waiting then x.waiting[k] else [] }

  /** The list without client c. */
  function Without(list: seq<Entry>, c: Client): seq<Entry> {
    if list == [] then []
    else Without(list[..|list| - 1], c) + (if list[|list| - 1].client == c then [] else [list[|list| - 1]])
  }

  lemma {:induction false} WithoutAbsent(list: seq<Entry>, c: Client)
    requires forall i :: 0 <= i < |list| ==> list[i].client != c
    ensures Without(list, c) == list
  {
    if list != [] { WithoutAbsent(list[..|list| - 1], c); }
  }

  lemma {:induction false} RemoveIsWithout(list: seq<Entry>, i: nat)
    requires DistinctEntries(list) && i < |list|
    ensures Without(list, list[i].client) == list[..i] + list[i + 1..]
  {
    var c, most := list[i].client, list[..|list| - 1];
    if i == |list| - 1 {
      WithoutAbsent(most, c);
    } else {
      RemoveIsWithout(most, i);
      assert list[..i] + list[i + 1..] == most[..i] + most[i + 1..] + [list[|list| - 1]];
    }
  }

  lemma UnlinkIsWithout(x: Index, wants: set<Client>, c: Client, k: Key)
    requires Exact(x, wants) && k in KeysOf(x, c)
    ensures k in x.waiting && Unlink(x.waiting[k], KeysOf(x, c)[k]) == Without(x.waiting[k], c)
  {
    hide *;
    var i := Placed(x, wants, c, k);
    RemoveIsWithout(x.waiting[k], i);
  }

  /** A client that does not wait for a key is not in its list. */
  lemma NotWaiting(x: Index, wants: set<Client>, c: Client, k: Key)
    requires Exact(x, wants) && k !in KeysOf(x, c)
    ensures Without(WaitingOf(x, k), c) == WaitingOf(x, k)
  {
    assert ListOk(x, k);
    WithoutAbsent(WaitingOf(x, k), c);
  }

  /** y is x after client c left every list; nobody else moved. */
  ghost predicate Dropped(x: Index, y: Index, c: Client) {
    && y.next == x.next
    && KeysOf(y, c) == map[]
    && (forall c' :: c' != c ==> KeysOf(y, c') == KeysOf(x, c'))
    && (forall k :: WaitingOf(y, k) == Without(WaitingOf(x, k), c))
  }

  /** `after` is `before` with only nodes behind it that did not exist before `bound`. */
  predicate Grown(before: seq<Entry>, after: seq<Entry>, bound: nat) {
    && |before| <= |after| && after[..|before|] == before
    && forall i :: |before| <= i < |after| ==> after[i].node >= bound
  }

  lemma GrownTwice(a: seq<Entry>, b: seq<Entry>, c: seq<Entry>, bound: nat, bound': nat)
    requires Grown(a, b, bound) && Grown(b, c, bound') && bound <= bound'
    ensures Grown(a, c, bound)
  {
    assert c[..|a|] == b[..|a|];
    forall i | |a| <= i < |c| ensures c[i].node >= bound {
      if i < |b| { assert c[i] == c[..|b|][i] == b[i]; }
    }
  }

  /** No new node in any list but behind the ones that were there. */
  ghost predicate AllGrown(x: Index, y: Index) {
    x.next <= y.next && forall k :: Grown(WaitingOf(x, k), WaitingOf(y, k), x.next)
  }

  lemma AllGrownTwice(x: Index, y: Index, z: Index)
    requires AllGrown(x, y) && AllGrown(y, z)
    ensures AllGrown(x, z)
  {
    forall k ensures Grown(WaitingOf(x, k), WaitingOf(z, k), x.next) {
      assert Grown(WaitingOf(x, k), WaitingOf(y, k), x.next) && Grown(WaitingOf(y, k), WaitingOf(z, k), y.next);
      GrownTwice(WaitingOf(x, k), WaitingOf(y, k), WaitingOf(z, k), x.next, y.next);
    }
  }

  /** y is x after client c joined the end of the lists of exactly these keys. */
  ghost predicate Joined(x: Index, y: Index, c: Client, keys: seq<Key>) {
    && x.next <= y.next
    && (forall c' :: c' != c ==> KeysOf(y, c') == KeysOf(x, c'))
    && (forall k :: k in KeysOf(y, c) <==> k in keys)
    && (forall k :: k in KeysOf(y, c) ==> KeysOf(y, c)[k] >= x.next)
    && (forall k :: WaitingOf(y, k) ==
                    WaitingOf(x, k) + if k in KeysOf(y, c) then [Entry(KeysOf(y, c)[k], c)] else [])
  }

  /** The loop of blockForKeys over its keys. */
  function JoinAll(x: Index, c: Client, keys: seq<Key>, nokey: bool): Index {
    if keys == [] then x
    else
      var y, k := JoinAll(x, c, keys[..|keys| - 1], nokey), keys[|keys| - 1];
      if k in KeysOf(y, c) then y else Added(y, c, k, nokey)
  }

  lemma JoinedNext(x: Index, y: Index, c: Client, keys: seq<Key>, k: Key, nokey: bool)
    requires Joined(x, y, c, keys)
    ensures Joined(x, if k in KeysOf(y, c) then y else Added(y, c, k, nokey), c, keys + [k])
  {
    var z := Added(y, c, k, nokey);
    if k !in KeysOf(y, c) {
      forall k' ensures WaitingOf(z, k') ==
        WaitingOf(x, k') + if k' in KeysOf(z, c) then [Entry(KeysOf(z, c)[k'], c)] else []
      {
        assert WaitingOf(y, k') == WaitingOf(x, k') + if k' in KeysOf(y, c) then [Entry(KeysOf(y, c)[k'], c)] else [];
      }
    }
  }

  lemma JoinedGrows(x: Index, y: Index, c: Client, keys: seq<Key>)
    requires Joined(x, y, c, keys)
    ensures AllGrown(x, y)
  {
    forall k ensures Grown(WaitingOf(x, k), WaitingOf(y, k), x.next) {
      assert WaitingOf(y, k) == WaitingOf(x, k) + if k in KeysOf(y, c) then [Entry(KeysOf(y, c)[k], c)] else [];
    }
  }

  // ---------------------------------------------------------------- leaving all lists

  /** Half way of unblockClientWaitingData: c has left the lists of all keys but `rest`. */
  ghost predicate Leaving(x: Index, y: Index, c: Client, rest: set<Key>) {
    && y.next == x.next && y.keys == x.keys && rest <= KeysOf(x, c).Keys
    && forall k :: WaitingOf(y, k) == if k in rest then WaitingOf(x, k) else Without(WaitingOf(x, k), c)
  }

  lemma LeavingStart(x: Index, wants: set<Client>, c: Client)
    requires Exact(x, wants)
    ensures Leaving(x, x, c, KeysOf(x, c).Keys)
    ensures Exact(Restricted(x, c, KeysOf(x, c).Keys), wants)
  {
    var y, rest := Restricted(x, c, KeysOf(x, c).Keys), KeysOf(x, c).Keys;
    forall k | k !in rest ensures Without(WaitingOf(x, k), c) == WaitingOf(x, k) { NotWaiting(x, wants, c, k); }
    assert KeysOf(y, c) == KeysOf(x, c);
    SameKeysExact(x, y, wants);
  }

  lemma SameKeysExact(x: Index, y: Index, wants: set<Client>)
    requires Exact(x, wants) && y.waiting == x.waiting && y.noKey == x.noKey && y.next == x.next
    requires forall c :: KeysOf(y, c) == KeysOf(x, c)
    ensures Exact(y, wants)
  {
    hide KeysOf, Count, DistinctEntries;
    forall k ensures ListOk(y, k) { assert ListOk(x, k); }
    forall c, k ensures ClientOk(y, c, k) { assert ClientOk(x, c, k); }
    forall k ensures CountOk(y, wants, k) { assert CountOk(x, wants, k); }
  }

  lemma RestrictedTwice(y: Index, c: Client, k: Key, rest: set<Key>, node: nat, nokey: bool)
    requires k in y.waiting
    ensures Restricted(Unlisted(Restricted(y, c, rest), k, node, nokey), c, rest - {k}) ==
            Restricted(Unlisted(y, k, node, nokey), c, rest - {k})
  {
    hide Unlink;
    var a := Restricted(Unlisted(Restricted(y, c, rest), k, node, nokey), c, rest - {k});
    var b := Restricted(Unlisted(y, k, node, nokey), c, rest - {k});
    assert KeysOf(a, c) == KeysOf(b, c);
    assert a.keys == b.keys;
  }

  lemma LeavingNext(x: Index, y: Index, wants: set<Client>, c: Client, rest: set<Key>, k: Key)
    requires Leaving(x, y, c, rest) && Exact(Restricted(y, c, rest), wants) && k in rest
    ensures k in KeysOf(y, c) && k in y.waiting && (c in wants ==> k in y.noKey)
    ensures var z := Unlisted(y, k, KeysOf(y, c)[k], c in wants);
            Leaving(x, z, c, rest - {k}) && Exact(Restricted(z, c, rest - {k}), wants)
  {
    var r := Restricted(y, c, rest);
    assert KeysOf(r, c).Keys == rest && KeysOf(r, c)[k] == KeysOf(y, c)[k];
    ReleasedExact(r, wants, c, k, rest);
    UnlinkIsWithout(r, wants, c, k);
    var z := Unlisted(y, k, KeysOf(y, c)[k], c in wants);
    RestrictedTwice(y, c, k, rest, KeysOf(y, c)[k], c in wants);
    hide Exact, Without;
    forall k' ensures WaitingOf(z, k') == if k' in rest - {k} then WaitingOf(x, k') else Without(WaitingOf(x, k'), c) {
      assert WaitingOf(y, k') == if k' in rest then WaitingOf(x, k') else Without(WaitingOf(x, k'), c);
    }
  }

  lemma LeavingEnd(x: Index, y: Index, wants: set<Client>, c: Client)
    requires Leaving(x, y, c, {}) && Exact(Restricted(y, c, {}), wants)
    ensures var z := y.(keys := y.keys[c := map[]]);
            Dropped(x, z, c) && Exact(z, wants)
  {
    assert Restricted(y, c, {}) == y.(keys := y.keys[c := map[]]);
  }

  lemma {:induction false} WithoutTwice(list: seq<Entry>, c: Client)
    ensures Without(Without(list, c), c) == Without(list, c)
  {
    WithoutHas(list, c);
    WithoutAbsent(Without(list, c), c);
  }

  lemma {:induction false} WithoutHas(list: seq<Entry>, c: Client)
    ensures forall i :: 0 <= i < |Without(list, c)| ==> Without(list, c)[i].client != c
  {
    if list != [] { WithoutHas(list[..|list| - 1], c); }
  }

  /** Releasing one entry first and the others then is leaving all lists. */
  lemma ReleasedThenDropped(x: Index, z: Index, wants: set<Client>, c: Client, k: Key)
    requires Exact(x, wants) && k in KeysOf(x, c) && k in x.waiting
    requires Dropped(Restricted(Unlisted(x, k, KeysOf(x, c)[k], c in wants), c, KeysOf(x, c).Keys - {k}), z, c)
    ensures Dropped(x, z, c)
  {
    var y := Restricted(Unlisted(x, k, KeysOf(x, c)[k], c in wants), c, KeysOf(x, c).Keys - {k});
    UnlinkIsWithout(x, wants, c, k);
    WithoutTwice(x.waiting[k], c);
    hide Unlink, Without;
    forall k' ensures WaitingOf(z, k') == Without(WaitingOf(x, k'), c) {
      assert WaitingOf(z, k') == Without(WaitingOf(y, k'), c);
    }
    forall c' | c' != c ensures KeysOf(z, c') == KeysOf(x, c') { assert KeysOf(y, c') == KeysOf(x, c'); }
  }

  /** A client without keys has left already. */
  lemma NothingToDrop(x: Index, wants: set<Client>, c: Client)
    requires Exact(x, wants) && KeysOf(x, c) == map[]
    ensures Dropped(x, x, c)
  {
    forall k ensures WaitingOf(x, k) == Without(WaitingOf(x, k), c) { NotWaiting(x, wants, c, k); }
  }
}
