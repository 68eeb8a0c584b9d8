/** What an accepted ACL operation does, command by command. */
module AclLaws {

  import opened AclRules
  import opened AclSelector
  import opened Options

  // ---------------------------------------------------------------- which command a text names

  /** The text is the name of the command, or of the subcommand behind its container and a bar. */
  predicate Names(s: string, r: Ref) {
    match r
    case TopRef(n) => Lower(s) == n
    case SubRef(n, sub) => Lower(s) == n + "|" + sub
  }

  /** Looking up a command finds exactly the one that the text names. */
  lemma LookupNames(table: Table, s: string, r: Ref)
    requires WellFormed(table)
    ensures Lookup(table, s) == Some(r) <==> Holds(table, r) && Names(s, r)
  {
    if Lookup(table, s).Some? { FoundIsNamed(table, s); }
    if Holds(table, r) && Names(s, r) { NamedIsFound(table, s, r); }
  }

  lemma FoundIsNamed(table: Table, s: string)
    requires WellFormed(table) && Lookup(table, s).Some?
    ensures Names(s, Lookup(table, s).value) && Holds(table, Lookup(table, s).value)
  {
    hide WellFormed, Lower;
    FullNameIs(table, s);
  }

  lemma NamedIsFound(table: Table, s: string, r: Ref)
    requires WellFormed(table) && Holds(table, r) && Names(s, r)
    ensures Lookup(table, s) == Some(r)
  {
    LowerBar(s);
    BarOf(table, r);
    match r
    case TopRef(n) => NoBar(s);
    case SubRef(n, sub) => SubFound(table, s, n, sub);
  }

  lemma SubFound(table: Table, s: string, n: string, sub: string)
    requires WellFormed(table) && Holds(table, SubRef(n, sub)) && Lower(s) == n + "|" + sub
    requires LastBar(s) == LastBar(Lower(s)) == |n|
    ensures Lookup(table, s) == Some(SubRef(n, sub))
  {
    var b := |n|;
    LowerParts(s, b);
    assert IsName(n);
    assert (n + "|" + sub)[..b] == n && (n + "|" + sub)[b + 1..] == sub;
    hide WellFormed, Lower;
  }

  // ---------------------------------------------------------------- what an operation asks for

  /** "+a": the command a, or an error if there is none. */
  lemma AllowWhole(table: Table, a: string)
    requires WellFormed(table) && '|' !in a
    ensures var p := ParseAllow(table, a);
            && (p.Rule? <==> Lower(a) in table.tops) && (p.Error? ==> p.errno == ENOENT) && (p.Rule? || p.Error?)
            && (p.Rule? ==> p == Rule(Lower(a), true, PermEffect(table, TopRef(Lower(a)))))
  {
    NoBar(a);
  }

  /** "+a|b": the subcommand b of a, or first argument b of a command without subcommands, or an error. */
  lemma AllowPart(table: Table, a: string, b: string)
    requires WellFormed(table) && '|' !in b
    ensures var p, n := ParseAllow(table, a + "|" + b), Lower(a);
            && (p == Error(ECHILD) <==> Lookup(table, a).Some? && Lookup(table, a).value.SubRef?)
            && (p == Error(EINVAL) <==> n in table.tops && b == "")
            && (p.Rule? <==> n in table.tops && b != "" &&
                             (table.tops[n].subs.None? || Lower(b) in table.tops[n].subs.value))
            && (p.Rule? && table.tops[n].subs.Some? ==>
                  Holds(table, SubRef(n, Lower(b)))
                  && p == Rule(n + "|" + Lower(b), true, PermEffect(table, SubRef(n, Lower(b)))))
            && (p.Rule? && table.tops[n].subs.None? ==>
                  p == Rule(n + "|" + Lower(b), true, FirstArg(table.tops[n].id, Lower(b))))
            && (p.Rule? || p == Error(ECHILD) || p == Error(EINVAL) || p == Error(ENOENT))
  {
    var s := a + "|" + b;
    BarBetween(a, b);
    assert s[..|a|] == a && s[|a| + 1..] == b;
    LowerJoined(a, b);
    TopNamed(table, a);
    PartNamed(table, a, b);
    hide Lookup, WellFormed, Lower, PermEffect;
  }

  lemma {:induction false} BarBetween(a: string, b: string)
    requires '|' !in b
    ensures LastBar(a + "|" + b) == |a|
  {
    var s := a + "|" + b;
    if b != "" {
      assert s[..|s| - 1] == a + "|" + b[..|b| - 1] && s[|s| - 1] == b[|b| - 1];
      assert b[|b| - 1] in b;
      BarBetween(a, b[..|b| - 1]);
    }
  }

  lemma LowerJoined(a: string, b: string)
    ensures Lower(a + "|" + b) == Lower(a) + "|" + Lower(b)
  {
  }

  /** The text in front of a bar names a command exactly if its lower case is in the table. */
  lemma TopNamed(table: Table, a: string)
    requires WellFormed(table)
    ensures Lookup(table, a).Some? && Lookup(table, a).value.TopRef? <==> Lower(a) in table.tops
    ensures Lower(a) in table.tops ==> Lookup(table, a) == Some(TopRef(Lower(a)))
  {
    if Lower(a) in table.tops { NamedIsFound(table, a, TopRef(Lower(a))); }
  }

  lemma PartNamed(table: Table, a: string, b: string)
    requires WellFormed(table) && '|' !in b
    ensures var n, s := Lower(a), a + "|" + b;
            n in table.tops && table.tops[n].subs.Some? ==>
              && (Lookup(table, s).Some? <==> Lower(b) in table.tops[n].subs.value)
              && (Lookup(table, s).Some? ==>
                    Lookup(table, s) == Some(SubRef(n, Lower(b)))
                    && FullName(SubRef(n, Lower(b))) == n + "|" + Lower(b))
  {
    var n, s := Lower(a), a + "|" + b;
    LowerJoined(a, b);
    if n in table.tops && table.tops[n].subs.Some? {
      if Lower(b) in table.tops[n].subs.value { NamedIsFound(table, s, SubRef(n, Lower(b))); }
      BarBetween(a, b);
      assert s[..|a|] == a && s[|a| + 1..] == b;
    }
  }

  // ---------------------------------------------------------------- bits and first arguments

  function CategoriesOf(table: Table, r: Ref): set<string>
    requires Holds(table, r)
  {
    match r
    case TopRef(n) => table.tops[n].categories
    case SubRef(n, s) => table.tops[n].subs.value[s].categories
  }

  /** The command is in the category, or its container is. */
  predicate Reached(table: Table, cat: string, r: Ref)
    requires Holds(table, r)
  {
    cat in CategoriesOf(table, r) || (r.SubRef? && cat in table.tops[r.name].categories)
  }

  /** The command that takes first arguments under an id is in the category itself. */
  predicate Dropped(table: Table, cat: string, id: nat) {
    exists n :: n in table.tops && table.tops[n].subs.None? && table.tops[n].id == id && cat in table.tops[n].categories
  }

  lemma PermIdsMean(table: Table, q: Ref, r: Ref)
    requires WellFormed(table) && Holds(table, q) && Holds(table, r)
    ensures IdOf(table, r) in PermIds(table, q) <==> r == q || (q.TopRef? && r.SubRef? && r.name == q.name)
  {
    if IdOf(table, r) in PermIds(table, q) && IdOf(table, r) != IdOf(table, q) {
      var s :| s in table.tops[q.name].subs.value && table.tops[q.name].subs.value[s].id == IdOf(table, r);
      assert Holds(table, SubRef(q.name, s)) && IdOf(table, SubRef(q.name, s)) == IdOf(table, r);
    }
    if q.TopRef? && r.SubRef? && r.name == q.name {
      assert r.sub in table.tops[q.name].subs.value;
    }
  }

  lemma CategoryIds(table: Table, cat: string, r: Ref)
    requires WellFormed(table) && Holds(table, r)
    ensures var refs := CategoryRefs(table, cat, table.tops.Keys);
            && (forall q :: q in refs ==> Holds(table, q))
            && (IdOf(table, r) in RefPermIds(table, refs) <==> Reached(table, cat, r))
  {
    var refs := CategoryRefs(table, cat, table.tops.Keys);
    forall q | q in refs
      ensures IdOf(table, r) in PermIds(table, q) <==> r == q || (q.TopRef? && r.SubRef? && r.name == q.name)
    {
      PermIdsMean(table, q, r);
    }
    hide WellFormed, PermIds;
    if Reached(table, cat, r) {
      var q := if cat in CategoriesOf(table, r) then r else TopRef(r.name);
      assert q in refs;
    }
  }

  lemma CategoryResets(table: Table, cat: string, id: nat)
    requires WellFormed(table)
    ensures id in ResetIds(table, RefIds(table, CategoryRefs(table, cat, table.tops.Keys))) <==> Dropped(table, cat, id)
  {
    var refs := CategoryRefs(table, cat, table.tops.Keys);
    if id in ResetIds(table, RefIds(table, refs)) {
      var r :| r in refs && IdOf(table, r) == id;
      var n :| n in table.tops && table.tops[n].subs.None? && table.tops[n].id == id;
      assert Holds(table, r) && Holds(table, TopRef(n)) && IdOf(table, TopRef(n)) == IdOf(table, r);
    }
    if Dropped(table, cat, id) {
      var n :| n in table.tops && table.tops[n].subs.None? && table.tops[n].id == id && cat in table.tops[n].categories;
      assert TopRef(n) in refs && IdOf(table, TopRef(n)) == id;
    }
  }

  /**
   After a rule on a category, a command is allowed as the sign says if it or its container is in the
   category, and as before otherwise; first arguments go exactly for commands that are in it themselves.
   */
  ghost predicate ByCategory(table: Table, p: Perms, q: Perms, cat: string, allow: bool) {
    && (forall r :: Holds(table, r) && IdOf(table, r) < BITS ==>
          (IdOf(table, r) in q.bits <==> if Reached(table, cat, r) then allow else IdOf(table, r) in p.bits))
    && (forall id: nat, arg :: (id, arg) in q.args <==> (id, arg) in p.args && !Dropped(table, cat, id))
  }

  lemma CategoryRuleMeans(table: Table, p: Perms, cat: string, allow: bool)
    requires WellFormed(table)
    ensures ByCategory(table, p, Apply(p, CategoryEffect(table, cat), allow), cat, allow)
  {
    var q := Apply(p, CategoryEffect(table, cat), allow);
    forall r | Holds(table, r) && IdOf(table, r) < BITS
      ensures IdOf(table, r) in q.bits <==> if Reached(table, cat, r) then allow else IdOf(table, r) in p.bits
    {
      CategoryIds(table, cat, r);
    }
    hide WellFormed, CategoryRefs, RefPermIds;
    forall id: nat, arg ensures (id, arg) in q.args <==> (id, arg) in p.args && !Dropped(table, cat, id) {
      CategoryResets(table, cat, id);
    }
  }

  /** After a rule on a command: the command and its subcommands change, and its own first arguments go. */
  ghost predicate ByCommand(table: Table, p: Perms, q: Perms, c: Ref, allow: bool)
    requires Holds(table, c)
  {
    && (forall r :: Holds(table, r) && IdOf(table, r) < BITS ==>
          (IdOf(table, r) in q.bits <==>
             if r == c || (c.TopRef? && r.SubRef? && r.name == c.name) then allow else IdOf(table, r) in p.bits))
    && (forall id: nat, arg :: (id, arg) in q.args <==>
          (id, arg) in p.args && !(id == IdOf(table, c) && c.TopRef? && table.tops[c.name].subs.None?))
  }

  lemma CommandRuleMeans(table: Table, p: Perms, c: Ref, allow: bool)
    requires WellFormed(table) && Holds(table, c)
    ensures ByCommand(table, p, Apply(p, PermEffect(table, c), allow), c, allow)
  {
    var q := Apply(p, PermEffect(table, c), allow);
    forall r | Holds(table, r) && IdOf(table, r) < BITS
      ensures IdOf(table, r) in q.bits <==>
              if r == c || (c.TopRef? && r.SubRef? && r.name == c.name) then allow else IdOf(table, r) in p.bits
    {
      PermIdsMean(table, c, r);
    }
    TakesOwnArgs(table, c);
  }

  lemma TakesOwnArgs(table: Table, c: Ref)
    requires WellFormed(table) && Holds(table, c)
    ensures TakesArgs(table, IdOf(table, c)) <==> c.TopRef? && table.tops[c.name].subs.None?
  {
    if TakesArgs(table, IdOf(table, c)) {
      var n :| n in table.tops && table.tops[n].subs.None? && table.tops[n].id == IdOf(table, c);
      assert Holds(table, TopRef(n)) && IdOf(table, TopRef(n)) == IdOf(table, c);
    }
  }

  // ---------------------------------------------------------------- whole operations

  function Sign(allow: bool): char { if allow then '+' else '-' }

  /** +@cat and -@cat other than @all. */
  method SetCategory(s: Selector, allow: bool, cat: string) returns (accepted: bool)
    requires s.Valid() && '\0' !in cat && Lower(cat) != "all"
    modifies s
    ensures accepted <==> Lower(cat) in s.table.categories
    ensures accepted ==> ByCategory(s.table, old(s.Permits()), s.Permits(), Lower(cat), allow)
    ensures !accepted ==> s.Permits() == old(s.Permits()) && s.rules == old(s.rules)
  {
    hide WellFormed, Replay, Retained, ByCategory, Apply, CategoryEffect, ReplayText;
    var op := [Sign(allow)] + "@" + cat;
    CategoryParses(s.table, allow, cat);
    assert CString(op) == op;
    var p := s.SetSelector(op);
    accepted := p.Rule?;
    CategoryRuleMeans(s.table, old(s.Permits()), Lower(cat), allow);
  }

  lemma CategoryParses(table: Table, allow: bool, cat: string)
    requires Lower(cat) != "all"
    ensures Parse(table, [Sign(allow)] + "@" + cat) ==
            if Lower(cat) in table.categories
            then Rule("@" + Lower(cat), allow, CategoryEffect(table, Lower(cat))) else Error(ENOENT)
  {
    var op := [Sign(allow)] + "@" + cat;
    assert op[2..] == cat;
    CategoryIsNoWord(op);
    hide Lower, CategoryEffect;
  }

  lemma CategoryIsNoWord(op: string)
    requires |op| >= 2 && (op[0] == '+' || op[0] == '-') && Lower(op[2..]) != "all"
    ensures Lower(op) != "allcommands" && Lower(op) != "nocommands" && Lower(op) != "+@all" && Lower(op) != "-@all"
  {
    LowerSuffix(op, 2);
    assert Lower(op)[2..] == Lower(op[2..]) && Lower(op)[0] == op[0];
    assert "+@all"[2..] == "all" && "-@all"[2..] == "all" && "allcommands"[0] == 'a' && "nocommands"[0] == 'n';
  }

  /** +name and -name, where the name has no bar or the sign is minus. */
  method SetCommand(s: Selector, allow: bool, name: string) returns (accepted: bool)
    requires s.Valid() && '\0' !in name && (name == "" || name[0] != '@') && (allow ==> '|' !in name)
    modifies s
    ensures accepted <==> exists c :: Holds(s.table, c) && Names(name, c)
    ensures forall c :: Holds(s.table, c) && Names(name, c) ==>
              ByCommand(s.table, old(s.Permits()), s.Permits(), c, allow)
    ensures !accepted ==> s.Permits() == old(s.Permits()) && s.rules == old(s.rules)
  {
    hide WellFormed, Replay, Retained, ByCommand, Apply, PermEffect, ReplayText, Names;
    var op := [Sign(allow)] + name;
    assert op[1..] == name;
    assert CString(op) == op;
    CommandOpParses(s.table, allow, name);
    forall c ensures Lookup(s.table, name) == Some(c) <==> Holds(s.table, c) && Names(name, c) {
      LookupNames(s.table, name, c);
    }
    var p := s.SetSelector(op);
    accepted := p.Rule?;
    if accepted { CommandRuleMeans(s.table, old(s.Permits()), Lookup(s.table, name).value, allow); }
  }

  lemma CommandOpParses(table: Table, allow: bool, name: string)
    requires WellFormed(table) && (name == "" || name[0] != '@') && (allow ==> '|' !in name)
    ensures var p, c := Parse(table, [Sign(allow)] + name), Lookup(table, name);
            if c.None? then p == Error(ENOENT)
            else p.Rule? && p.allow == allow && p.effect == PermEffect(table, c.value)
  {
    var op := [Sign(allow)] + name;
    assert op[1..] == name;
    NotAll(op, Sign(allow), name);
    if allow { NoBar(name); }
    hide WellFormed, Lookup, PermEffect, Lower, AllowsAll, DeniesAll;
  }

  lemma NotAll(op: string, sign: char, name: string)
    requires op == [sign] + name && (sign == '+' || sign == '-') && (name == "" || name[0] != '@')
    ensures !AllowsAll(op) && !DeniesAll(op)
  {
    assert Lower(op)[0] == sign;
    if name != "" { assert Lower(op)[1] == LowerChar(name[0]) != '@'; }
    assert "+@all"[1] == '@' && "-@all"[1] == '@' && "allcommands"[0] == 'a' && "nocommands"[0] == 'n';
  }

  /** +a|b, where b has no bar. */
  method AllowPartOf(s: Selector, a: string, b: string) returns (p: Parsed)
    requires s.Valid() && '\0' !in a && '\0' !in b && '|' !in b && (a == "" || a[0] != '@')
    modifies s
    ensures p == Error(ECHILD) <==> exists n, t :: Holds(s.table, SubRef(n, t)) && Names(a, SubRef(n, t))
    ensures p == Error(EINVAL) <==> Lower(a) in s.table.tops && b == ""
    ensures p.Rule? <==> Lower(a) in s.table.tops && b != "" &&
                         (var subs := s.table.tops[Lower(a)].subs; subs.None? || Lower(b) in subs.value)
    ensures p.Rule? && s.table.tops[Lower(a)].subs.Some? ==>
              ByCommand(s.table, old(s.Permits()), s.Permits(), SubRef(Lower(a), Lower(b)), true)
    ensures p.Rule? && s.table.tops[Lower(a)].subs.None? ==>
              s.Permits() == old(s.Permits()).(args := old(s.Permits()).args + {(s.table.tops[Lower(a)].id, Lower(b))})
    ensures !p.Rule? ==> p.Error? && s.Permits() == old(s.Permits()) && s.rules == old(s.rules)
  {
    hide WellFormed, Replay, Retained, ByCommand, PermEffect, ReplayText, Names, Lookup, ParseAllow, Lower;
    var name := a + "|" + b;
    var op := ['+'] + name;
    assert op[1..] == name && CString(op) == op;
    AllowPart(s.table, a, b);
    forall n, t
      ensures Lookup(s.table, a) == Some(SubRef(n, t)) <==> Holds(s.table, SubRef(n, t)) && Names(a, SubRef(n, t))
    {
      LookupNames(s.table, a, SubRef(n, t));
    }
    PartParses(s.table, name);
    p := s.SetSelector(op);
    if p.Rule? && s.table.tops[Lower(a)].subs.Some? {
      CommandRuleMeans(s.table, old(s.Permits()), SubRef(Lower(a), Lower(b)), true);
    }
  }

  lemma PartParses(table: Table, name: string)
    requires name != "" && name[0] != '@'
    ensures Parse(table, ['+'] + name) == ParseAllow(table, name)
  {
    var op := ['+'] + name;
    assert op[1..] == name;
    NotAll(op, '+', name);
    hide ParseAllow, AllowsAll, DeniesAll;
  }

  // ---------------------------------------------------------------- the rule list

  /** The new rule covers a rule on the same command, or on a part of it. */
  predicate Covers(text: string, t: AclRules.Rule) { |t| > 0 && (t[1..] == text || text + "|" <= t[1..]) }

  /** After a rule: the older ones it does not cover, in their order, and the rule with its sign. */
  lemma {:induction false} UpdatedList(ts: seq<AclRules.Rule>, text: string, allow: bool, i: nat)
    requires i <= |ts|
    ensures Updated(ts, text, allow)[|Updated(ts, text, allow)| - 1] == [Sign(allow)] + text
    ensures forall t :: t in Without(ts[..i], text) <==> t in ts[..i] && !Covers(text, t)
    ensures i < |ts| ==> Without(ts[..i + 1], text) ==
                         Without(ts[..i], text) + if Covers(text, ts[i]) then [] else [ts[i]]
  {
    if i < |ts| {
      assert ts[..i + 1][..i] == ts[..i];
      CoversMatches(text, ts[i]);
    }
    WithoutMembers(ts[..i], text);
    forall t ensures Matches(t, text) <==> Covers(text, t) { CoversMatches(text, t); }
  }

  lemma CoversMatches(text: string, t: AclRules.Rule)
    ensures Matches(t, text) <==> Covers(text, t)
  {
    if |t| > 0 && |t| - 1 > |text| {
      assert t[1..][..|text|] == t[1..|text| + 1];
      assert t[1..][|text|] == t[|text| + 1];
    }
  }
}
