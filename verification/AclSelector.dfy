/**
 ACL selectors: a bitmap of allowed commands, allowed first arguments and the retained rule
 string. Each command rule changes all three; the server panics when replaying the string
 does not rebuild the bitmap. The panic is shown unreachable.
 */
module AclSelector {

  import opened AclRules
  import opened Options

  const BITS := 1024                // USER_COMMAND_BITS_COUNT
  const RESERVED := BITS - 1        // set only by +@all

  // ---------------------------------------------------------------- the command table

  datatype Sub = Sub(id: nat, categories: set<string>)

  /** A top-level command; a container has a (possibly empty) table of subcommands. */
  datatype Top = Top(id: nat, categories: set<string>, subs: Option<map<string, Sub>>)

  datatype Table = Table(tops: map<string, Top>, categories: set<string>)

  datatype Ref = TopRef(name: string) | SubRef(name: string, sub: string)

  predicate IsName(s: string) { s != "" && Plain(s) && Lower(s) == s && '|' !in s && s[0] != '@' }

  predicate Holds(table: Table, r: Ref) {
    && r.name in table.tops
    && (r.SubRef? ==> table.tops[r.name].subs.Some? && r.sub in table.tops[r.name].subs.value)
  }

  function IdOf(table: Table, r: Ref): nat
    requires Holds(table, r)
  {
    if r.TopRef? then table.tops[r.name].id else table.tops[r.name].subs.value[r.sub].id
  }

  /** Ids that can carry first arguments: top-level commands without subcommands. */
  predicate TakesArgs(table: Table, id: nat) {
    exists n :: n in table.tops && table.tops[n].subs.None? && table.tops[n].id == id
  }

  /** Names and categories of a table are names. */
  ghost predicate Named(table: Table) {
    && (forall n :: n in table.tops ==> IsName(n))
    && (forall n, s :: n in table.tops && table.tops[n].subs.Some? && s in table.tops[n].subs.value ==> IsName(s))
    && (forall c :: c in table.categories ==> IsName(c))
  }

  /** What ACLGetCommandID and the command definitions guarantee of a table. */
  ghost predicate WellFormed(table: Table) {
    && Named(table)
    && (forall r :: Holds(table, r) ==> IdOf(table, r) != RESERVED)
    && (forall r, q :: Holds(table, r) && Holds(table, q) && IdOf(table, r) == IdOf(table, q) ==> r == q)
  }

  // ---------------------------------------------------------------- looking commands up

  /** strrchr(s, '|'), or -1. */
  function LastBar(s: string): (b: int)
    ensures -1 <= b < |s|
    ensures b >= 0 ==> s[b] == '|'
    ensures forall i :: b < i < |s| ==> s[i] != '|'
  {
    if s == "" then -1
    else if s[|s| - 1] == '|' then |s| - 1
    else LastBar(s[..|s| - 1])
  }

  /** ACLLookupCommand: "name" or "name|sub", in any case. */
  function Lookup(table: Table, s: string): (r: Option<Ref>)
    ensures r.Some? ==> Holds(table, r.value)
  {
    var b := LastBar(s);
    if b < 0 then
      if Lower(s) in table.tops then Some(TopRef(Lower(s))) else None
    else
      var n, sub := Lower(s[..b]), Lower(s[b + 1..]);
      if '|' !in s[..b] && n in table.tops && table.tops[n].subs.Some? && sub in table.tops[n].subs.value
      then Some(SubRef(n, sub)) else None
  }

  function FullName(r: Ref): string {
    if r.TopRef? then r.name else r.name + "|" + r.sub
  }

  /** The bits ACLChangeSelectorPerm touches: the command and its subcommands. */
  function PermIds(table: Table, r: Ref): set<nat>
    requires Holds(table, r)
  {
    {IdOf(table, r)}
    + (if r.TopRef? && table.tops[r.name].subs.Some?
       then set s | s in table.tops[r.name].subs.value :: table.tops[r.name].subs.value[s].id else {})
  }

  /** All commands a category rule reaches, among the top-level names given. */
  function CategoryRefs(table: Table, cat: string, names: set<string>): set<Ref>
    requires names <= table.tops.Keys
  {
    (set n | n in names && cat in table.tops[n].categories :: TopRef(n))
    + (set n, s | n in names && table.tops[n].subs.Some? && s in table.tops[n].subs.value
                  && cat in table.tops[n].subs.value[s].categories :: SubRef(n, s))
  }

  // ---------------------------------------------------------------- what a rule does

  const ALL_BITS: set<nat> := set n | 0 <= n < BITS

  /** Bits changed (ids beyond the bitmap are ignored), first arguments reset or added. */
  datatype Effect = Change(ids: set<nat>, resets: set<nat>) | FirstArg(id: nat, arg: string)

  function ResetIds(table: Table, ids: set<nat>): set<nat> {
    set i | i in ids && TakesArgs(table, i)
  }

  function PermEffect(table: Table, r: Ref): Effect
    requires Holds(table, r)
  {
    Change(PermIds(table, r) * ALL_BITS, ResetIds(table, {IdOf(table, r)}))
  }

  function RefIds(table: Table, refs: set<Ref>): set<nat>
    requires forall r :: r in refs ==> Holds(table, r)
  {
    set r | r in refs :: IdOf(table, r)
  }

  function RefPermIds(table: Table, refs: set<Ref>): set<nat>
    requires forall r :: r in refs ==> Holds(table, r)
  {
    set r, i | r in refs && i in PermIds(table, r) :: i
  }

  function CategoryEffect(table: Table, cat: string): Effect {
    var refs := CategoryRefs(table, cat, table.tops.Keys);
    Change(RefPermIds(table, refs) * ALL_BITS, ResetIds(table, RefIds(table, refs)))
  }

  datatype Errno = ENOENT | ECHILD | EINVAL

  /** An ACLSetSelector operation, as far as commands are concerned. */
  datatype Parsed =
    | Everything(allow: bool)                                // +@all, -@all and their aliases
    | Rule(text: string, allow: bool, effect: Effect)
    | Error(errno: Errno)
    | Elsewhere                                              // an operation on keys, channels or databases

  function ParseAllow(table: Table, name: string): Parsed {
    var b := LastBar(name);
    if b < 0 then
      var cmd := Lookup(table, name);
      if cmd.None? then Error(ENOENT) else Rule(FullName(cmd.value), true, PermEffect(table, cmd.value))
    else
      var cmd, sub := Lookup(table, name[..b]), name[b + 1..];
      if cmd.None? then Error(ENOENT)
      else if cmd.value.SubRef? then Error(ECHILD)
      else if sub == "" then Error(EINVAL)
      else if table.tops[cmd.value.name].subs.Some? then
        var whole := Lookup(table, name);
        if whole.None? then Error(ENOENT) else Rule(Lower(name), true, PermEffect(table, whole.value))
      else Rule(Lower(name), true, FirstArg(IdOf(table, cmd.value), Lower(sub)))
  }

  /** Operations that ACLSetSelector gives to keys, channels and databases. */
  predicate IsElsewhere(op: string) {
    || Lower(op) in {"allkeys", "resetkeys", "allchannels", "resetchannels", "alldbs", "resetdbs"}
    || (|op| >= 3 && Lower(op[..3]) == "db=")
    || (op != "" && (op[0] == '~' || op[0] == '%' || op[0] == '&'))
  }

  predicate AllowsAll(op: string) { Lower(op) == "allcommands" || Lower(op) == "+@all" }

  predicate DeniesAll(op: string) { Lower(op) == "nocommands" || Lower(op) == "-@all" }

  /** The command branches of ACLSetSelector. */
  function Parse(table: Table, op: string): Parsed {
    if AllowsAll(op) then Everything(true)
    else if DeniesAll(op) then Everything(false)
    else if op == "" || (op[0] != '+' && op[0] != '-') then (if IsElsewhere(op) then Elsewhere else Error(EINVAL))
    else if |op| >= 2 && op[1] == '@' then
      var cat := Lower(op[2..]);
      if cat !in table.categories then Error(ENOENT)
      else Rule("@" + cat, op[0] == '+', CategoryEffect(table, cat))
    else if op[0] == '+' then ParseAllow(table, op[1..])
    else
      var cmd := Lookup(table, op[1..]);
      if cmd.None? then Error(ENOENT) else Rule(FullName(cmd.value), false, PermEffect(table, cmd.value))
  }

  /** An operation is a C string, whatever stands behind its first zero byte. */
  function Understood(table: Table, op: string): Parsed { Parse(table, CString(op)) }

  /** The operation does not leave a text that breaks apart when the rules are split again. */
  predicate Kept(p: Parsed) { p.Rule? ==> Unbroken(p.text) }

  // ---------------------------------------------------------------- retained texts parse to themselves

  lemma {:induction false} LowerBar(s: string)
    ensures LastBar(Lower(s)) == LastBar(s)
  {
    if s != "" {
      var most := s[..|s| - 1];
      LowerBar(most);
      assert Lower(s)[..|s| - 1] == Lower(most);
    }
  }

  lemma LowerParts(s: string, b: nat)
    requires b < |s|
    ensures Lower(s)[..b] == Lower(s[..b]) && Lower(s)[b + 1..] == Lower(s[b + 1..])
    ensures '|' in Lower(s)[..b] <==> '|' in s[..b]
  {
    if '|' in s[..b] {
      var i :| 0 <= i < b && s[i] == '|';
      assert Lower(s)[i] == '|';
    }
    if '|' in Lower(s)[..b] {
      var i :| 0 <= i < b && Lower(s)[i] == '|';
      assert s[i] == '|';
    }
  }

  lemma LowerTwice(s: string)
    ensures Lower(Lower(s)) == Lower(s)
  {
  }

  /** Case does not matter to the look-up. */
  lemma LookupLower(table: Table, s: string)
    ensures Lookup(table, Lower(s)) == Lookup(table, s)
  {
    LowerBar(s);
    LowerTwice(s);
    var b := LastBar(s);
    if b >= 0 {
      LowerParts(s, b);
      LowerTwice(s[..b]);
      LowerTwice(s[b + 1..]);
    }
  }

  /** A command's full name is the lower case of any text that finds it. */
  lemma Halves(s: string, b: nat)
    requires b < |s| && s[b] == '|'
    ensures s == s[..b] + "|" + s[b + 1..]
  {
  }

  lemma SubName(name: string, sub: string)
    ensures FullName(SubRef(name, sub)) == name + "|" + sub
  {
  }

  lemma FullNameIs(table: Table, s: string)
    requires Lookup(table, s).Some?
    ensures FullName(Lookup(table, s).value) == Lower(s)
  {
    var b := LastBar(s);
    if b >= 0 {
      LowerParts(s, b);
      assert Lower(s)[b] == '|';
      assert Lookup(table, s).value == SubRef(Lower(s[..b]), Lower(s[b + 1..]));
      hide *;
      Halves(Lower(s), b);
      SubName(Lower(s[..b]), Lower(s[b + 1..]));
    }
  }

  lemma AllowLower(table: Table, name: string)
    requires ParseAllow(table, name).Rule?
    ensures ParseAllow(table, name).text == Lower(name) && ParseAllow(table, name).allow
    ensures ParseAllow(table, Lower(name)) == ParseAllow(table, name)
  {
    hide Lookup, PermEffect, LastBar, Lower;
    LowerBar(name);
    LookupLower(table, name);
    LowerTwice(name);
    var b := LastBar(name);
    if b < 0 {
      FullNameIs(table, name);
    } else {
      LowerParts(name, b);
      LookupLower(table, name[..b]);
      LowerTwice(name[b + 1..]);
    }
  }

  /** A text that finds a command never starts like a category and is never empty. */
  lemma NamesAreNames(table: Table, s: string)
    requires WellFormed(table) && Lookup(table, s).Some?
    ensures s != "" && Lower(s)[0] != '@' && s[0] != '@'
  {
    var b := LastBar(s);
    if b < 0 {
      assert IsName(Lower(s));
    } else {
      assert IsName(Lower(s[..b]));
      assert Lower(s[..b])[0] == Lower(s)[0];
    }
  }

  lemma AllowStart(table: Table, name: string)
    requires WellFormed(table) && ParseAllow(table, name).Rule?
    ensures name != "" && Lower(name)[0] != '@'
  {
    var b := LastBar(name);
    if b < 0 {
      NamesAreNames(table, name);
    } else {
      NamesAreNames(table, name[..b]);
      assert Lower(name[..b])[0] == Lower(name)[0];
    }
  }

  lemma SignedText(text: string, allow: bool)
    requires text != "" && Lower(text) == text
    ensures var t := Signed(text, allow);
            && t[1..] == text && t[1] == text[0] && Lower(t) == t && t[0] == (if allow then '+' else '-')
  {
  }

  /** A signed name is none of the words for all commands. */
  lemma NotEverything(t: string)
    requires |t| >= 2 && (t[0] == '+' || t[0] == '-') && t[1] != '@'
    ensures !AllowsAll(t) && !DeniesAll(t)
  {
    assert Lower(t)[0] == t[0] && Lower(t)[1] != '@';
  }

  /** The rule retained for an operation means the same as the operation, and is retained as is. */
  lemma ParseRetained(table: Table, op: string)
    requires WellFormed(table) && Parse(table, op).Rule?
    ensures var p := Parse(table, op);
            p.text != "" && Lower(p.text) == p.text && Parse(table, Signed(p.text, p.allow)) == p
  {
    hide ParseAllow, Lookup, PermEffect, CategoryEffect, WellFormed, AllowsAll, DeniesAll, FullName;
    if |op| >= 2 && op[1] == '@' {
      RetainedCategory(table, op);
    } else if op[0] == '+' {
      RetainedAllow(table, op);
    } else {
      RetainedDeny(table, op);
    }
  }

  lemma RetainedAllow(table: Table, op: string)
    requires WellFormed(table) && op != "" && op[0] == '+' && !(|op| >= 2 && op[1] == '@')
    requires Parse(table, op).Rule?
    ensures var p := Parse(table, op);
            p.text != "" && Lower(p.text) == p.text && Parse(table, Signed(p.text, p.allow)) == p
  {
    hide ParseAllow, Lookup, PermEffect, CategoryEffect, WellFormed, AllowsAll, DeniesAll, FullName, Lower;
    var name := op[1..];
    AllowStart(table, name);
    AllowLower(table, name);
    RetainedText(name, true);
  }

  lemma RetainedDeny(table: Table, op: string)
    requires WellFormed(table) && op != "" && op[0] == '-' && !(|op| >= 2 && op[1] == '@')
    requires Parse(table, op).Rule?
    ensures var p := Parse(table, op);
            p.text != "" && Lower(p.text) == p.text && Parse(table, Signed(p.text, p.allow)) == p
  {
    hide ParseAllow, Lookup, PermEffect, CategoryEffect, WellFormed, AllowsAll, DeniesAll, FullName, Lower;
    var name := op[1..];
    NamesAreNames(table, name);
    FullNameIs(table, name);
    LookupLower(table, name);
    RetainedText(name, false);
  }

  lemma RetainedText(name: string, allow: bool)
    requires name != "" && Lower(name)[0] != '@'
    ensures Lower(Lower(name)) == Lower(name)
    ensures var t := Signed(Lower(name), allow);
            && |t| >= 2 && t[1..] == Lower(name) && t[1] != '@' && t[0] == (if allow then '+' else '-')
            && !AllowsAll(t) && !DeniesAll(t)
  {
    LowerPlain(name);
    SignedText(Lower(name), allow);
    NotEverything(Signed(Lower(name), allow));
  }

  lemma RetainedCategory(table: Table, op: string)
    requires WellFormed(table) && |op| >= 2 && op[1] == '@' && Parse(table, op).Rule?
    ensures var p := Parse(table, op);
            p.text != "" && Lower(p.text) == p.text && Parse(table, Signed(p.text, p.allow)) == p
  {
    hide CategoryEffect;
    var cat := Lower(op[2..]);
    CategoryIsName(table, cat);
    CategoryText(op);
  }

  lemma CategoryIsName(table: Table, cat: string)
    requires WellFormed(table) && cat in table.categories
    ensures IsName(cat)
  {
  }

  lemma CategoryText(op: string)
    requires |op| >= 2 && op[1] == '@' && (op[0] == '+' || op[0] == '-')
    ensures var text := "@" + Lower(op[2..]);
            var t := Signed(text, op[0] == '+');
            && Lower(text) == text && |t| >= 2 && t[0] == op[0] && t[1] == '@'
            && t[2..] == Lower(op[2..]) && Lower(t[2..]) == t[2..]
            && (AllowsAll(t) <==> AllowsAll(op)) && (DeniesAll(t) <==> DeniesAll(op))
  {
    CategorySigned(op);
    LowerTwice(op[2..]);
    LowerTwice(op);
    LowerSuffix(Lower(op), 1);
    LowerSuffix(Lower(op), 2);
    hide Lower, Signed;
  }

  lemma CategorySigned(op: string)
    requires |op| >= 2 && op[1] == '@' && (op[0] == '+' || op[0] == '-')
    ensures var text := "@" + Lower(op[2..]);
            && Signed(text, op[0] == '+') == Lower(op) && Lower(op)[1..] == text
            && Lower(op)[0] == op[0] && Lower(op)[1] == '@' && Lower(op)[2..] == Lower(op[2..])
  {
    LowerSuffix(op, 2);
  }

  lemma LowerSuffix(s: string, k: nat)
    requires k <= |s|
    ensures Lower(s[k..]) == Lower(s)[k..]
  {
  }

  // ---------------------------------------------------------------- permissions as a value

  /** What a selector permits: command bits, and allowed first arguments in lower case. */
  datatype Perms = Perms(bits: set<nat>, args: set<(nat, string)>)

  function Start(allow: bool): Perms { Perms(if allow then ALL_BITS else {}, {}) }

  function NotReset(args: set<(nat, string)>, resets: set<nat>): set<(nat, string)> {
    set a | a in args && a.0 !in resets
  }

  function Apply(p: Perms, e: Effect, allow: bool): Perms {
    match e
    case Change(ids, resets) =>
      Perms(if allow then p.bits + ids else p.bits - ids, NotReset(p.args, resets))
    case FirstArg(id, arg) => p.(args := p.args + {(id, arg)})
  }

  /** A rule of the retained string: it parses to itself. */
  ghost predicate Retained(table: Table, t: AclRules.Rule) {
    && IsRule(t)
    && Parse(table, t).Rule?
    && Parse(table, t).text == t[1..] && Parse(table, t).allow == (t[0] == '+')
  }

  ghost predicate AllRetained(table: Table, ts: seq<AclRules.Rule>) {
    forall i :: 0 <= i < |ts| ==> Retained(table, ts[i])
  }

  function EffectOf(table: Table, t: AclRules.Rule): Effect {
    if Parse(table, t).Rule? then Parse(table, t).effect else Change({}, {})
  }

  /** The permissions that a list of rules gives, from all or nothing. */
  function Replay(table: Table, start: Perms, ts: seq<AclRules.Rule>): Perms {
    if ts == [] then start
    else
      var last := ts[|ts| - 1];
      Apply(Replay(table, start, ts[..|ts| - 1]), EffectOf(table, last), last != "" && last[0] == '+')
  }

  /** An effect that overwrites everything another one can do. */
  predicate Covers(w: Effect, x: Effect) {
    match w
    case Change(ids, resets) =>
      (match x
       case Change(ids', resets') => ids' <= ids && resets' <= resets
       case FirstArg(id, _) => id in resets)
    case FirstArg(_, _) => x == w
  }

  /** Equal but for what the effect w overwrites. */
  ghost predicate AgreeBut(p: Perms, q: Perms, w: Effect) {
    match w
    case Change(ids, resets) =>
      && (forall b :: b !in ids ==> (b in p.bits <==> b in q.bits))
      && (forall a: (nat, string) :: a.0 !in resets ==> (a in p.args <==> a in q.args))
    case FirstArg(id, arg) =>
      && p.bits == q.bits
      && (forall a: (nat, string) :: a != (id, arg) ==> (a in p.args <==> a in q.args))
  }

  lemma CoveredVanishes(p: Perms, w: Effect, x: Effect, allow: bool)
    requires Covers(w, x)
    ensures AgreeBut(Apply(p, x, allow), p, w)
  {
  }

  lemma ApplyAgrees(p: Perms, q: Perms, w: Effect, e: Effect, allow: bool)
    requires AgreeBut(p, q, w)
    ensures AgreeBut(Apply(p, e, allow), Apply(q, e, allow), w)
  {
  }

  lemma OverwriteEqual(p: Perms, q: Perms, w: Effect, allow: bool)
    requires AgreeBut(p, q, w)
    ensures Apply(p, w, allow) == Apply(q, w, allow)
  {
    var p', q' := Apply(p, w, allow), Apply(q, w, allow);
    assert p'.bits == q'.bits;
    assert p'.args == q'.args;
  }

  // ---------------------------------------------------------------- removed rules are covered

  /** Rules that RemoveRule drops for a new rule are overwritten by its effect. */
  lemma MatchCovers(table: Table, x: AclRules.Rule, t: AclRules.Rule)
    requires WellFormed(table) && Retained(table, x) && Retained(table, t) && Matches(x, t[1..])
    ensures Covers(EffectOf(table, t), EffectOf(table, x))
  {
    if x[1..] == t[1..] {
      SameTextCovers(table, x, t);
    } else {
      SubRuleCovers(table, x, t);
    }
  }

  /** The effect of a retained rule is determined by its text. */
  function TextEffect(table: Table, w: string): Effect {
    if w != "" && w[0] == '@' then CategoryEffect(table, w[1..])
    else
      var cmd := Lookup(table, w);
      if cmd.Some? then PermEffect(table, cmd.value)
      else
        var b := LastBar(w);
        var top := if b >= 0 then Lookup(table, w[..b]) else None;
        if top.Some? then FirstArg(IdOf(table, top.value), w[b + 1..]) else Change({}, {})
  }

  lemma RetainedEffect(table: Table, t: AclRules.Rule)
    requires Retained(table, t)
    ensures EffectOf(table, t) == TextEffect(table, t[1..])
  {
    hide Lookup, PermEffect, CategoryEffect, AllowsAll, DeniesAll, Lower;
    if t[1] == '@' {
      assert t[1..][1..] == t[2..];
    } else if t[0] == '+' {
      AllowEffect(table, t[1..]);
    }
  }

  lemma AllowEffect(table: Table, name: string)
    requires ParseAllow(table, name).Rule? && ParseAllow(table, name).text == name
    ensures name != "" && name[0] != '@' ==> ParseAllow(table, name).effect == TextEffect(table, name)
  {
    hide PermEffect, CategoryEffect;
    var b := LastBar(name);
    if b >= 0 {
      NoSubcommand(table, name);
      LowerParts(name, b);
    }
  }

  /** Below a command without subcommands the look-up finds nothing. */
  lemma NoSubcommand(table: Table, name: string)
    requires LastBar(name) >= 0
    ensures var top := Lookup(table, name[..LastBar(name)]);
            top.Some? && top.value.TopRef? && table.tops[top.value.name].subs.None? ==> Lookup(table, name).None?
  {
  }

  lemma SameTextCovers(table: Table, x: AclRules.Rule, t: AclRules.Rule)
    requires Retained(table, x) && Retained(table, t) && x[1..] == t[1..]
    ensures Covers(EffectOf(table, t), EffectOf(table, x))
  {
    hide TextEffect, EffectOf, Retained;
    RetainedEffect(table, x);
    RetainedEffect(table, t);
  }

  lemma SubRuleCovers(table: Table, x: AclRules.Rule, t: AclRules.Rule)
    requires WellFormed(table) && Retained(table, x) && Retained(table, t)
    requires Matches(x, t[1..]) && x[1..] != t[1..]
    ensures Covers(EffectOf(table, t), EffectOf(table, x))
  {
    hide TextEffect, EffectOf, WellFormed, Covers, Parse;
    var w, rest := t[1..], x[|t| + 1..];
    assert x[1..] == w + "|" + rest;
    RetainedEffect(table, x);
    RetainedEffect(table, t);
    SubRuleShape(table, x, w, rest);
    TopOf(table, t);
    TextCovers(table, w, rest);
  }

  lemma NoBar(s: string)
    ensures LastBar(s) < 0 <==> '|' !in s
  {
  }

  /** A text whose last bar is also its first splits there only. */
  lemma OnlyBar(w: string, rest: string)
    requires var text := w + "|" + rest; LastBar(text) >= 0 ==> '|' !in text[..LastBar(text)]
    ensures var text := w + "|" + rest;
            LastBar(text) == |w| && text[..|w|] == w && text[|w| + 1..] == rest && '|' !in w && '|' !in rest
  {
    var text := w + "|" + rest;
    var b := LastBar(text);
    assert text[|w|] == '|';
    assert text[..|w|] == w && text[|w| + 1..] == rest;
    assert forall i :: 0 <= i < |rest| ==> text[|w| + 1 + i] == rest[i];
  }

  /** A retained rule with a bar has exactly one, after a top-level command. */
  lemma SubRuleShape(table: Table, x: AclRules.Rule, w: string, rest: string)
    requires WellFormed(table) && Retained(table, x) && x[1..] == w + "|" + rest
    ensures w != "" && w[0] != '@' && '|' !in w && '|' !in rest
    ensures Lookup(table, w).Some? && Lookup(table, w).value == TopRef(w)
    ensures table.tops[w].subs.None? || Lookup(table, w + "|" + rest).Some?
  {
    hide WellFormed, Lookup, PermEffect, CategoryEffect, ParseAllow, AllowsAll, DeniesAll, FullName, LastBar, Lower;
    NotACategory(table, x, w, rest);
    var text := w + "|" + rest;
    if x[0] == '+' {
      AllowShape(table, w, rest);
    } else {
      DenyShape(table, w, rest);
    }
    NamesAreNames(table, w);
  }

  lemma AllowShape(table: Table, w: string, rest: string)
    requires var text := w + "|" + rest; ParseAllow(table, text).Rule? && ParseAllow(table, text).text == text
    ensures '|' !in w && '|' !in rest
    ensures Lookup(table, w).Some? && Lookup(table, w).value == TopRef(w)
    ensures table.tops[w].subs.None? || Lookup(table, w + "|" + rest).Some?
  {
    hide PermEffect, Lower;
    var text := w + "|" + rest;
    assert text[|w|] == '|';
    AllowLower(table, text);
    NoBar(text[..LastBar(text)]);
    OnlyBar(w, rest);
    LowerParts(text, |w|);
  }

  lemma DenyShape(table: Table, w: string, rest: string)
    requires var text := w + "|" + rest; Lookup(table, text).Some? && FullName(Lookup(table, text).value) == text
    ensures '|' !in w && '|' !in rest
    ensures Lookup(table, w).Some? && Lookup(table, w).value == TopRef(w)
    ensures table.tops[w].subs.None? || Lookup(table, w + "|" + rest).Some?
  {
    hide Lower;
    var text := w + "|" + rest;
    assert text[|w|] == '|';
    FullNameIs(table, text);
    OnlyBar(w, rest);
    NoBar(w);
    LowerParts(text, |w|);
  }

  lemma NotACategory(table: Table, x: AclRules.Rule, w: string, rest: string)
    requires WellFormed(table) && Retained(table, x) && x[1..] == w + "|" + rest
    ensures x[1] != '@'
  {
    assert x[|w| + 1] == '|' by { assert x[1..][|w|] == '|'; }
    assert x[1] == '@' ==> |w| >= 1 && Lower(x[2..])[|w| - 1] == '|';
    if x[1] == '@' { CategoryIsName(table, Lower(x[2..])); }
  }

  lemma TopOf(table: Table, t: AclRules.Rule)
    requires Retained(table, t) && '|' !in t[1..] && t[1] != '@'
    ensures Lookup(table, t[1..]).Some? && Lookup(table, t[1..]).value == TopRef(t[1..])
  {
  }

  lemma TextCovers(table: Table, w: string, rest: string)
    requires WellFormed(table)
    requires w != "" && w[0] != '@' && '|' !in w && '|' !in rest
    requires Lookup(table, w) == Some(TopRef(w))
    requires table.tops[w].subs.None? || Lookup(table, w + "|" + rest).Some?
    ensures Covers(TextEffect(table, w), TextEffect(table, w + "|" + rest))
  {
    var text := w + "|" + rest;
    var b := LastBar(text);
    OnlyBarGiven(w, rest);
    NoBar(w);
    var sub := Lookup(table, text);
    if sub.Some? {
      assert sub.value.SubRef? && sub.value.name == w;
      SubIdCovered(table, sub.value);
    } else {
      assert TakesArgs(table, table.tops[w].id);
    }
  }

  lemma OnlyBarGiven(w: string, rest: string)
    requires '|' !in w && '|' !in rest
    ensures var text := w + "|" + rest;
            LastBar(text) == |w| && text[..|w|] == w && text[|w| + 1..] == rest
  {
    var text := w + "|" + rest;
    assert text[|w|] == '|';
    assert forall i :: 0 <= i < |rest| ==> text[|w| + 1 + i] == rest[i];
    assert text[..|w|] == w && text[|w| + 1..] == rest;
  }

  /** Ids are distinct, so a subcommand's is never that of a command that takes first arguments. */
  lemma SubsTakeNoArgs(table: Table, r: Ref)
    requires WellFormed(table) && Holds(table, r) && r.SubRef?
    ensures !TakesArgs(table, IdOf(table, r))
  {
    forall n | n in table.tops ensures table.tops[n].id != IdOf(table, r) {
      assert Holds(table, TopRef(n)) && TopRef(n) != r;
    }
  }

  lemma SubIdCovered(table: Table, r: Ref)
    requires WellFormed(table) && Holds(table, r) && r.SubRef?
    ensures Covers(PermEffect(table, TopRef(r.name)), PermEffect(table, r))
  {
    SubsTakeNoArgs(table, r);
  }

  // ---------------------------------------------------------------- replaying the updated list

  lemma AgreeTransitive(p: Perms, q: Perms, r: Perms, w: Effect)
    requires AgreeBut(p, q, w) && AgreeBut(r, q, w)
    ensures AgreeBut(p, r, w)
  {
  }

  lemma {:induction false} WithoutAgrees(table: Table, start: Perms, ts: seq<AclRules.Rule>, t: AclRules.Rule)
    requires WellFormed(table) && AllRetained(table, ts) && Retained(table, t)
    ensures AgreeBut(Replay(table, start, Without(ts, t[1..])), Replay(table, start, ts), EffectOf(table, t))
  {
    hide WellFormed, EffectOf, AgreeBut, Apply, Matches;
    var w := EffectOf(table, t);
    if ts == [] {
      AgreeReflexive(start, w);
    } else {
      var most, x := ts[..|ts| - 1], ts[|ts| - 1];
      WithoutAgrees(table, start, most, t);
      var p, q := Replay(table, start, Without(most, t[1..])), Replay(table, start, most);
      var allow := x[0] == '+';
      if Matches(x, t[1..]) {
        MatchCovers(table, x, t);
        CoveredVanishes(q, w, EffectOf(table, x), allow);
        AgreeTransitive(p, q, Apply(q, EffectOf(table, x), allow), w);
        assert Without(ts, t[1..]) == Without(most, t[1..]);
      } else {
        ApplyAgrees(p, q, w, EffectOf(table, x), allow);
        var kept := Without(ts, t[1..]);
        assert kept[..|kept| - 1] == Without(most, t[1..]);
      }
    }
  }

  lemma AgreeReflexive(p: Perms, w: Effect)
    ensures AgreeBut(p, p, w)
  {
  }

  /**
   Dropping the rules a new one covers and appending it replays to the same permissions as
   applying the new rule to the old ones.
   */
  lemma ReplayUpdated(table: Table, start: Perms, ts: seq<AclRules.Rule>, t: AclRules.Rule)
    requires WellFormed(table) && AllRetained(table, ts) && Retained(table, t)
    ensures Replay(table, start, Updated(ts, t[1..], t[0] == '+'))
         == Apply(Replay(table, start, ts), EffectOf(table, t), t[0] == '+')
  {
    hide WellFormed, EffectOf, AgreeBut, Apply;
    WithoutAgrees(table, start, ts, t);
    OverwriteEqual(Replay(table, start, Without(ts, t[1..])), Replay(table, start, ts),
                   EffectOf(table, t), t[0] == '+');
    var us := Updated(ts, t[1..], t[0] == '+');
    assert Signed(t[1..], t[0] == '+') == t;
    assert us[..|us| - 1] == Without(ts, t[1..]) && us[|us| - 1] == t;
  }

  /** No rule touches the reserved bit. */
  lemma ReservedUntouched(table: Table, t: AclRules.Rule, p: Perms)
    requires WellFormed(table) && Retained(table, t)
    ensures RESERVED in Apply(p, EffectOf(table, t), t[0] == '+').bits <==> RESERVED in p.bits
  {
    hide TextEffect, EffectOf;
    RetainedEffect(table, t);
    TextLeavesReserved(table, t[1..]);
  }

  lemma TextLeavesReserved(table: Table, w: string)
    requires WellFormed(table)
    ensures TextEffect(table, w).Change? ==> RESERVED !in TextEffect(table, w).ids
  {
    hide Lookup, LastBar, Lower;
    forall r | Holds(table, r) ensures RESERVED !in PermIds(table, r) { PermNotReserved(table, r); }
  }

  lemma PermNotReserved(table: Table, r: Ref)
    requires WellFormed(table) && Holds(table, r)
    ensures RESERVED !in PermIds(table, r)
  {
    if r.TopRef? && table.tops[r.name].subs.Some? {
      forall s | s in table.tops[r.name].subs.value
        ensures table.tops[r.name].subs.value[s].id != RESERVED
      {
        assert Holds(table, SubRef(r.name, s));
        assert IdOf(table, SubRef(r.name, s)) != RESERVED;
      }
    }
  }

  // ---------------------------------------------------------------- the selector

  /** The first arguments of a concrete table, each in lower case. */
  function ArgsOf(firstArgs: map<nat, seq<string>>): set<(nat, string)> {
    set id, i | id in firstArgs && 0 <= i < |firstArgs[id]| :: (id, Lower(firstArgs[id][i]))
  }

  class Selector {
    const table: Table
    var bits: set<nat>                        // allowed_commands
    var allCommands: bool                     // SELECTOR_FLAG_ALLCOMMANDS
    var firstArgs: map<nat, seq<string>>      // allowed_firstargs
    var rules: string                         // command_rules
    ghost var list: seq<AclRules.Rule>        // the rules the string stands for

    ghost function Permits(): Perms
      reads this
    {
      Perms(bits, ArgsOf(firstArgs))
    }

    /** The stored string, replayed from the side the reserved bit names, gives the permissions. */
    ghost predicate Valid()
      reads this
    {
      && WellFormed(table)
      && AllRetained(table, list) && Normal(list) && rules == Join(list)
      && Permits() == Replay(table, Start(RESERVED in bits), list)
      && (forall id :: id in firstArgs ==> TakesArgs(table, id))
      && (allCommands ==> bits == ALL_BITS)
    }

    /** ACLCreateSelector. */
    constructor (table: Table)
      requires WellFormed(table)
      ensures Valid() && this.table == table && bits == {} && list == [] && firstArgs == map[]
    {
      this.table := table;
      bits, allCommands, firstArgs, rules, list := {}, false, map[], "", [];
    }

    /** ACLSetSelectorCommandBit. */
    method SetBit(id: nat, value: bool)
      modifies this`bits, this`allCommands
      ensures bits == if value then old(bits) + {id} * ALL_BITS else old(bits) - {id} * ALL_BITS
      ensures allCommands == (old(allCommands) && (value || id >= BITS))
    {
      if id >= BITS { return; }
      if value {
        bits := bits + {id};
      } else {
        bits := bits - {id};
        allCommands := false;
      }
    }

    /** ACLChangeSelectorPerm. */
    method ChangePerm(r: Ref, allow: bool)
      requires Holds(table, r)
      modifies this`bits, this`allCommands, this`firstArgs
      ensures bits == if allow then old(bits) + PermIds(table, r) * ALL_BITS
                      else old(bits) - PermIds(table, r) * ALL_BITS
      ensures allCommands ==> old(allCommands) && (allow || bits == old(bits))
      ensures firstArgs == old(firstArgs) - {IdOf(table, r)}
    {
      var id := IdOf(table, r);
      SetBit(id, allow);
      firstArgs := firstArgs - {id};
      if r.TopRef? && table.tops[r.name].subs.Some? {
        var subs := table.tops[r.name].subs.value;
        var todo := subs.Keys;
        ghost var done := {};
        while todo != {}
          invariant todo + done == subs.Keys && todo !! done
          invariant var ids := ({id} + (set s | s in done :: subs[s].id)) * ALL_BITS;
                    bits == if allow then old(bits) + ids else old(bits) - ids
          invariant allCommands ==> old(allCommands) && (allow || bits == old(bits))
          invariant firstArgs == old(firstArgs) - {id}
          decreases todo
        {
          var s :| s in todo;
          SetBit(subs[s].id, allow);
          todo, done := todo - {s}, done + {s};
        }
        assert done == subs.Keys;
      }
    }

    /** Bits and first arguments after the permission of every command in `refs` changed. */
    ghost predicate Changed(was: set<nat>, had: map<nat, seq<string>>, all: bool, refs: set<Ref>, allow: bool)
      reads this
    {
      && (forall r :: r in refs ==> Holds(table, r))
      && bits == (if allow then was + RefPermIds(table, refs) * ALL_BITS
                  else was - RefPermIds(table, refs) * ALL_BITS)
      && firstArgs == had - RefIds(table, refs)
      && (allCommands ==> all && (allow || bits == was))
    }

    /** ACLChangeSelectorPerm as one step of a category change. */
    method ChangeNext(r: Ref, allow: bool, ghost was: set<nat>, ghost had: map<nat, seq<string>>, ghost all: bool,
                      ghost refs: set<Ref>)
      requires Holds(table, r) && Changed(was, had, all, refs, allow)
      modifies this`bits, this`allCommands, this`firstArgs
      ensures Changed(was, had, all, refs + {r}, allow)
    {
      hide PermIds, IdOf;
      ChangePerm(r, allow);
      OneMore(table, refs, r);
    }

    /** One command of a category change, then its subcommands. */
    method ChangeFamily(n: string, cat: string, allow: bool, ghost was: set<nat>, ghost had: map<nat, seq<string>>,
                        ghost all: bool, ghost refs: set<Ref>)
      requires n in table.tops && Changed(was, had, all, refs, allow)
      modifies this`bits, this`allCommands, this`firstArgs
      ensures Changed(was, had, all, refs + CategoryRefs(table, cat, {n}), allow)
    {
      hide Changed;
      ghost var now := refs;
      var top := table.tops[n];
      if cat in top.categories {
        ChangeNext(TopRef(n), allow, was, had, all, now);
        now := now + {TopRef(n)};
      }
      if top.subs.Some? {
        var todo := top.subs.value.Keys;
        ghost var done: set<string> := {};
        ghost var base := now;
        while todo != {}
          invariant todo + done == top.subs.value.Keys && todo !! done
          invariant now == base + (set s | s in done && cat in top.subs.value[s].categories :: SubRef(n, s))
          invariant Changed(was, had, all, now, allow)
          decreases todo
        {
          var s :| s in todo;
          if cat in top.subs.value[s].categories {
            ChangeNext(SubRef(n, s), allow, was, had, all, now);
            now := now + {SubRef(n, s)};
          }
          todo, done := todo - {s}, done + {s};
        }
        assert done == top.subs.value.Keys;
      }
      assert now == refs + CategoryRefs(table, cat, {n});
    }

    /** ACLSetSelectorCommandBitsForCategory over the whole table. */
    method ChangeCategory(cat: string, allow: bool)
      modifies this`bits, this`allCommands, this`firstArgs
      ensures Changed(old(bits), old(firstArgs), old(allCommands), CategoryRefs(table, cat, table.tops.Keys), allow)
    {
      ghost var was, had, all := bits, firstArgs, allCommands;
      var todo := table.tops.Keys;
      ghost var done: set<string>, refs: set<Ref> := {}, {};
      assert Changed(was, had, all, refs, allow);
      hide Changed;
      while todo != {}
        invariant todo + done == table.tops.Keys && todo !! done
        invariant refs == CategoryRefs(table, cat, done)
        invariant Changed(was, had, all, refs, allow)
        decreases todo
      {
        var n :| n in todo;
        ChangeFamily(n, cat, allow, was, had, all, refs);
        refs := refs + CategoryRefs(table, cat, {n});
        FamilyAdded(table, cat, done, n);
        todo, done := todo - {n}, done + {n};
      }
      assert done == table.tops.Keys;
    }

    /** ACLAddAllowedFirstArg. */
    method AddFirstArg(id: nat, sub: string)
      modifies this`firstArgs
      ensures ArgsOf(firstArgs) == ArgsOf(old(firstArgs)) + {(id, Lower(sub))}
      ensures firstArgs.Keys == old(firstArgs).Keys + {id}
    {
      var items := if id in firstArgs then firstArgs[id] else [];
      for i := 0 to |items|
        invariant forall k :: 0 <= k < i ==> Lower(items[k]) != Lower(sub)
      {
        if Lower(items[i]) == Lower(sub) {
          assert (id, Lower(items[i])) in ArgsOf(firstArgs);
          return;
        }
      }
      firstArgs := firstArgs[id := items + [sub]];
      ArgAdded(old(firstArgs), id, sub);
    }

    /** Everything but the replay, which ties the list to the permissions. */
    ghost predicate Shaped()
      reads this
    {
      && WellFormed(table) && rules == Join(list)
      && (forall id :: id in firstArgs ==> TakesArgs(table, id))
      && (allCommands ==> bits == ALL_BITS)
    }

    /** A rule on one command: its permission, then the retained text. */
    method ApplyPerm(r: Ref, text: string, allow: bool)
      requires Valid() && Holds(table, r) && text != "" && Plain(text)
      modifies this
      ensures Shaped() && list == Updated(old(list), Lower(text), allow)
      ensures Permits() == Apply(old(Permits()), PermEffect(table, r), allow)
    {
      hide PermIds, Replay, WellFormed, TakesArgs, Retained;
      RetainedAreRules(table, list);
      ArgsReset(table, firstArgs, {IdOf(table, r)});
      ChangePerm(r, allow);
      assert allCommands ==> bits == ALL_BITS;
      rules := UpdateRules(rules, text, allow, list);
      list := Updated(list, Lower(text), allow);
    }

    /** A rule on a category: the retained text, then every command in it. */
    method ApplyCategory(cat: string, text: string, allow: bool)
      requires Valid() && text != "" && Plain(text)
      modifies this
      ensures Shaped() && list == Updated(old(list), Lower(text), allow)
      ensures Permits() == Apply(old(Permits()), CategoryEffect(table, cat), allow)
    {
      hide PermIds, Replay, WellFormed, TakesArgs, Retained, CategoryRefs, RefPermIds, RefIds;
      RetainedAreRules(table, list);
      rules := UpdateRules(rules, text, allow, list);
      list := Updated(list, Lower(text), allow);
      CategoryEffectDef(table, cat);
      ArgsReset(table, firstArgs, RefIds(table, CategoryRefs(table, cat, table.tops.Keys)));
      ChangeCategory(cat, allow);
      assert allCommands ==> bits == ALL_BITS;
    }

    /** A rule that allows a first argument. */
    method ApplyFirstArg(id: nat, sub: string, text: string)
      requires Valid() && TakesArgs(table, id) && text != ""
      modifies this
      ensures Shaped() && list == Updated(old(list), Lower(text), true)
      ensures Permits() == Apply(old(Permits()), FirstArg(id, Lower(sub)), true)
    {
      hide Replay, WellFormed, TakesArgs, Retained, ArgsOf;
      RetainedAreRules(table, list);
      AddFirstArg(id, sub);
      rules := UpdateRules(rules, text, true, list);
      list := Updated(list, Lower(text), true);
    }

    /** +@all, -@all and their aliases. */
    method Reset(allow: bool)
      requires Valid()
      modifies this
      ensures Valid() && Permits() == Start(allow) && list == [] && allCommands == allow
    {
      bits := if allow then ALL_BITS else {};
      allCommands, rules, list, firstArgs := allow, "", [], map[];
    }

    /** The "+<command>" branch; the text is copied as a C string. */
    method Allow(rest: string) returns (err: Option<Errno>)
      requires Valid()
      modifies this
      ensures var p := ParseAllow(table, CString(rest));
              && (err.Some? <==> p.Error?)
              && (err.Some? ==> err.value == p.errno && unchanged(this))
              && (err.None? ==> p.Rule? && p.allow && Shaped() && list == Updated(old(list), p.text, true)
                                && Permits() == Apply(old(Permits()), p.effect, true))
    {
      hide Replay, PermEffect, Lookup, Retained, WellFormed, Apply;
      var name := CString(rest);
      var p := ParseAllow(table, name);
      if p.Rule? { AllowText(table, name); }
      var b := LastBar(name);
      if b < 0 {
        var cmd := Lookup(table, name);
        if cmd.None? { return Some(ENOENT); }
        ApplyPerm(cmd.value, FullName(cmd.value), true);
      } else {
        var cmd, sub := Lookup(table, name[..b]), name[b + 1..];
        if cmd.None? { return Some(ENOENT); }
        if cmd.value.SubRef? { return Some(ECHILD); }
        if sub == "" { return Some(EINVAL); }
        if table.tops[cmd.value.name].subs.Some? {
          var whole := Lookup(table, name);
          if whole.None? { return Some(ENOENT); }
          DenyText(table, name);
          ApplyPerm(whole.value, name, true);
        } else {
          assert TakesArgs(table, IdOf(table, cmd.value));
          ApplyFirstArg(IdOf(table, cmd.value), sub, name);
        }
      }
      return None;
    }

    /**
     ACLSetSelector. Every accepted operation changes permissions and rules together; as long as no
     retained text has a blank or a quote, the rules still stand for the permissions.
     */
    method SetSelector(op: string) returns (p: Parsed)
      requires Valid()
      modifies this
      ensures p == Understood(table, op)
      ensures Kept(p) ==> Valid()
      ensures p.Everything? ==> Permits() == Start(p.allow) && list == [] && allCommands == p.allow
      ensures p.Rule? ==> Permits() == Apply(old(Permits()), p.effect, p.allow)
                          && list == Updated(old(list), p.text, p.allow) && rules == Join(list)
      ensures p.Error? || p.Elsewhere? ==> unchanged(this)
      ensures p.Rule? ==>
                (ReplayText(table, Start(RESERVED in old(bits)), rules) == Some(Permits()) <==> Unbroken(p.text))
    {
      hide ReplayText, Replay, PermEffect, CategoryEffect, Lookup, Retained, WellFormed, Apply, ParseAllow,
        AllowsAll, DeniesAll, Lower, FullName, IsElsewhere, CString, Plain, Unbroken;
      p := SetText(CString(op));
      if p.Rule? {
        TextHasNoZero(table, CString(op));
        PlainCString(p.text);
      }
    }

    /** ACLSetSelector on a C string. */
    method SetText(op: string) returns (p: Parsed)
      requires Valid() && '\0' !in op
      modifies this
      ensures p == Parse(table, op)
      ensures (p.Rule? ==> Plain(p.text)) ==> Valid()
      ensures p.Everything? ==> Permits() == Start(p.allow) && list == [] && allCommands == p.allow
      ensures p.Rule? ==> Permits() == Apply(old(Permits()), p.effect, p.allow)
                          && list == Updated(old(list), p.text, p.allow) && rules == Join(list)
      ensures p.Error? || p.Elsewhere? ==> unchanged(this)
      ensures p.Rule? ==> (ReplayText(table, Start(RESERVED in old(bits)), rules) == Some(Permits()) <==> Plain(p.text))
    {
      hide ReplayText, Replay, PermEffect, CategoryEffect, Lookup, Retained, WellFormed, Apply, ParseAllow,
        AllowsAll, DeniesAll, Lower, FullName, IsElsewhere;
      p := Parse(table, op);
      if AllowsAll(op) {
        Reset(true);
        return;
      } else if DeniesAll(op) {
        Reset(false);
        return;
      } else if op == "" || (op[0] != '+' && op[0] != '-') {
        return;
      }
      if p.Rule? { ParsedReplays(table, RESERVED in bits, list, op); }
      if p.Rule? && Plain(p.text) { AfterRule(table, RESERVED in bits, list, op); }
      if |op| >= 2 && op[1] == '@' {
        var cat := Lower(op[2..]);
        if cat !in table.categories { return; }
        CategoryText(op);
        CategoryRule(op);
        CategoryIsName(table, cat);
        ApplyCategory(cat, op[1..], op[0] == '+');
      } else if op[0] == '+' {
        assert CString(op[1..]) == op[1..];
        var err := Allow(op[1..]);
        if err.Some? { return; }
      } else {
        var cmd := Lookup(table, op[1..]);
        if cmd.None? { return; }
        DenyText(table, op[1..]);
        ApplyPerm(cmd.value, FullName(cmd.value), false);
      }
    }

    /**
     ACLDescribeSelectorCommandRules: replays the stored string on a fresh selector, starting
     from the side the reserved bit names, and compares bitmaps. The comparison that would
     panic never fails, no replayed rule is refused, and the replayed string is the string.
     */
    method Describe() returns (text: string, panics: bool)
      requires Valid()
      ensures !panics
      ensures text == (if RESERVED in bits then "+@all" else "-@all") + (if rules == "" then "" else " " + rules)
    {
      hide Replay, WellFormed, Retained, ArgsOf, Join, Normal;
      var fake := Rebuild();
      panics := fake.bits != bits;
      text := if RESERVED in bits then "+@all " else "-@all ";
      if |rules| > 0 { text := text + rules + " "; }
      text := text[..|text| - 1];
    }

    /** The replay of the stored string, also what ACLRecomputeCommandBitsFromCommandRulesAllUsers does. */
    method Rebuild() returns (fake: Selector)
      requires Valid()
      ensures fresh(fake) && fake.Valid() && fake.table == table
      ensures fake.Permits() == Permits() && fake.rules == rules
    {
      hide Replay, WellFormed, Retained, Apply, Parse, ArgsOf;
      var side := RESERVED in bits;
      fake := new Selector(table);
      fake.Reset(side);
      RetainedAreRules(table, list);
      SplitJoin(list);
      var argv := SplitArgs(rules).value;
      ReplayNone(table, Start(side));
      for i := 0 to |argv|
        invariant fake.Valid() && fake.table == table && fresh(fake)
        invariant fake.list == list[..i]
        invariant fake.Permits() == Replay(table, Start(side), list[..i])
      {
        RetainedFacts(table, list[i]);
        PlainCString(list[i]);
        NormalReplays(list, i);
        ReplayNext(table, Start(side), list, i);
        var p := fake.SetSelector(argv[i]);
        assert p.Rule?;
      }
      assert list[..|list|] == list;
    }
  }

  lemma OneMore(table: Table, refs: set<Ref>, r: Ref)
    requires Holds(table, r) && forall r :: r in refs ==> Holds(table, r)
    ensures RefPermIds(table, refs + {r}) == RefPermIds(table, refs) + PermIds(table, r)
    ensures RefIds(table, refs + {r}) == RefIds(table, refs) + {IdOf(table, r)}
  {
  }

  lemma FamilyAdded(table: Table, cat: string, done: set<string>, n: string)
    requires done + {n} <= table.tops.Keys
    ensures CategoryRefs(table, cat, done + {n}) == CategoryRefs(table, cat, done) + CategoryRefs(table, cat, {n})
  {
  }

  lemma ArgAdded(firstArgs: map<nat, seq<string>>, id: nat, sub: string)
    ensures var items := if id in firstArgs then firstArgs[id] else [];
            ArgsOf(firstArgs[id := items + [sub]]) == ArgsOf(firstArgs) + {(id, Lower(sub))}
  {
    var items := if id in firstArgs then firstArgs[id] else [];
    var more := firstArgs[id := items + [sub]];
    assert more[id][|items|] == sub;
    forall a | a in ArgsOf(firstArgs) ensures a in ArgsOf(more) {
      var k, i :| k in firstArgs && 0 <= i < |firstArgs[k]| && a == (k, Lower(firstArgs[k][i]));
      assert more[k][i] == firstArgs[k][i];
    }
    forall a | a in ArgsOf(more) ensures a in ArgsOf(firstArgs) + {(id, Lower(sub))} {
      var k, i :| k in more && 0 <= i < |more[k]| && a == (k, Lower(more[k][i]));
      if k != id || i < |items| { assert more[k][i] == firstArgs[k][i]; }
    }
  }

  lemma RetainedAreRules(table: Table, ts: seq<AclRules.Rule>)
    requires AllRetained(table, ts)
    ensures IsRules(ts)
  {
    hide Parse;
  }

  /** Dropping first arguments by id, in the table and in the permissions. */
  lemma ArgsReset(table: Table, firstArgs: map<nat, seq<string>>, ids: set<nat>)
    requires forall id :: id in firstArgs ==> TakesArgs(table, id)
    ensures ArgsOf(firstArgs - ids) == NotReset(ArgsOf(firstArgs), ResetIds(table, ids))
  {
    hide TakesArgs, Lower;
    var left, right := ArgsOf(firstArgs - ids), NotReset(ArgsOf(firstArgs), ResetIds(table, ids));
    forall a | a in left ensures a in right {
      var k, i :| k in firstArgs - ids && 0 <= i < |firstArgs[k]| && a == (k, Lower(firstArgs[k][i]));
    }
    forall a | a in right ensures a in left {
      var k, i :| k in firstArgs && 0 <= i < |firstArgs[k]| && a == (k, Lower(firstArgs[k][i]));
      assert k in firstArgs - ids && (firstArgs - ids)[k] == firstArgs[k];
    }
  }

  lemma CategoryEffectDef(table: Table, cat: string)
    ensures var refs := CategoryRefs(table, cat, table.tops.Keys);
            && (forall r :: r in refs ==> Holds(table, r))
            && CategoryEffect(table, cat) ==
               Change(RefPermIds(table, refs) * ALL_BITS, ResetIds(table, RefIds(table, refs)))
  {
  }

  /** Texts under which "+<command>" retains its rule. */
  lemma AllowText(table: Table, name: string)
    requires WellFormed(table) && ParseAllow(table, name).Rule?
    ensures name != "" && ParseAllow(table, name).text == Lower(name)
    ensures Lower(Lower(name)) == Lower(name) && Lower(name) != ""
    ensures LastBar(name) < 0 ==>
              Lookup(table, name).Some? && FullName(Lookup(table, name).value) == Lower(name) && Plain(Lower(name))
  {
    hide Lookup, PermEffect, WellFormed, FullName;
    AllowStart(table, name);
    AllowLower(table, name);
    LowerPlain(name);
    if LastBar(name) < 0 {
      FullNameIs(table, name);
      DenyText(table, name);
    }
  }

  /** A text that finds a command has no breaking character. */
  lemma DenyText(table: Table, name: string)
    requires WellFormed(table) && Lookup(table, name).Some?
    ensures var full := FullName(Lookup(table, name).value);
            full != "" && Plain(full) && Lower(full) == full && Plain(name)
  {
    NamesAreNames(table, name);
    FullNameIs(table, name);
    LowerPlain(name);
    FullNamePlain(table, Lookup(table, name).value);
  }

  lemma FullNamePlain(table: Table, r: Ref)
    requires WellFormed(table) && Holds(table, r)
    ensures Plain(FullName(r))
  {
    assert IsName(r.name);
    if r.SubRef? { assert IsName(r.sub); }
  }

  lemma CategoryRule(op: string)
    requires |op| >= 2 && op[1] == '@'
    ensures Lower(op[1..]) == "@" + Lower(op[2..]) && (Plain(Lower(op[2..])) ==> Plain(op[1..]))
  {
    LowerPlain(op[2..]);
    assert op[1..] == ['@'] + op[2..];
  }

  /** The list keeps its shape and its meaning when a rule is added. */
  lemma AfterRule(table: Table, side: bool, ts: seq<AclRules.Rule>, op: string)
    requires WellFormed(table) && AllRetained(table, ts) && Normal(ts)
    requires Parse(table, op).Rule? && Plain(Parse(table, op).text)
    requires side <==> RESERVED in Replay(table, Start(side), ts).bits
    ensures var p, q := Parse(table, op), Replay(table, Start(side), ts);
            var us := Updated(ts, p.text, p.allow);
            && AllRetained(table, us) && Normal(us)
            && Replay(table, Start(side), us) == Apply(q, p.effect, p.allow)
            && (side <==> RESERVED in Apply(q, p.effect, p.allow).bits)
  {
    hide Parse, Apply, WellFormed, Replay;
    var p := Parse(table, op);
    var t := Signed(p.text, p.allow);
    ParseRetained(table, op);
    SignedText(p.text, p.allow);
    SignedRule(p.text, p.allow);
    assert Retained(table, t);
    assert EffectOf(table, t) == p.effect;
    ReplayUpdated(table, Start(side), ts, t);
    ReservedUntouched(table, t, Replay(table, Start(side), ts));
    UpdatedNormal(ts, p.text, p.allow);
    WithoutMembers(ts, p.text);
    UpdatedRetained(table, ts, p.text, p.allow);
  }

  lemma SignedRule(text: string, allow: bool)
    requires text != "" && Plain(text)
    ensures IsRule(Signed(text, allow))
  {
  }

  lemma UpdatedRetained(table: Table, ts: seq<AclRules.Rule>, text: string, allow: bool)
    requires AllRetained(table, ts) && Retained(table, Signed(text, allow))
    ensures AllRetained(table, Updated(ts, text, allow))
  {
    hide Retained;
    WithoutMembers(ts, text);
    var kept := Without(ts, text);
    forall i | 0 <= i < |kept| ensures Retained(table, kept[i]) {
      assert kept[i] in kept;
    }
  }

  lemma RetainedFacts(table: Table, t: AclRules.Rule)
    requires Retained(table, t)
    ensures Plain(t) && Parse(table, t) == Rule(t[1..], t[0] == '+', EffectOf(table, t))
  {
  }

  lemma ReplayNone(table: Table, start: Perms)
    ensures Replay(table, start, []) == start
  {
  }

  lemma ReplayNext(table: Table, start: Perms, ts: seq<AclRules.Rule>, i: nat)
    requires i < |ts| && ts[i] != ""
    ensures Replay(table, start, ts[..i + 1])
         == Apply(Replay(table, start, ts[..i]), EffectOf(table, ts[i]), ts[i][0] == '+')
  {
    assert ts[..i + 1][..i] == ts[..i];
  }

  // ---------------------------------------------------------------- replaying a text

  /** The permissions after one operation, or nothing if it is refused. */
  function Performed(table: Table, p: Perms, op: string): Option<Perms> {
    match Understood(table, op)
    case Everything(allow) => Some(Start(allow))
    case Rule(_, allow, effect) => Some(Apply(p, effect, allow))
    case Error(_) => None
    case Elsewhere => Some(p)
  }

  function PerformAll(table: Table, p: Perms, ops: seq<string>): Option<Perms> {
    if ops == [] then Some(p)
    else
      var q := PerformAll(table, p, ops[..|ops| - 1]);
      if q.None? then None else Performed(table, q.value, ops[|ops| - 1])
  }

  /** The replay of a rule string: nothing if it does not split, or if one of its operations is refused. */
  function ReplayText(table: Table, p: Perms, s: string): Option<Perms> {
    var ops := SplitArgs(s);
    if ops.None? then None else PerformAll(table, p, ops.value)
  }

  lemma {:induction false} PerformConcat(table: Table, p: Perms, a: seq<string>, b: seq<string>)
    ensures PerformAll(table, p, a + b) ==
            var q := PerformAll(table, p, a);
            if q.None? then None else PerformAll(table, q.value, b)
  {
    hide Performed;
    if b == [] {
      assert a + b == a;
    } else {
      PerformConcat(table, p, a, b[..|b| - 1]);
      assert (a + b)[..|a + b| - 1] == a + b[..|b| - 1];
    }
  }

  lemma {:induction false} PerformRetained(table: Table, p: Perms, ts: seq<AclRules.Rule>)
    requires AllRetained(table, ts)
    ensures PerformAll(table, p, ts) == Some(Replay(table, p, ts))
  {
    hide Parse, Apply;
    if ts != [] {
      PerformRetained(table, p, ts[..|ts| - 1]);
      RetainedFacts(table, ts[|ts| - 1]);
      PlainCString(ts[|ts| - 1]);
    }
  }

  /** The stored string of a valid selector replays to its permissions. */
  lemma RetainedReplays(table: Table, p: Perms, ts: seq<AclRules.Rule>)
    requires AllRetained(table, ts)
    ensures ReplayText(table, p, Join(ts)) == Some(Replay(table, p, ts))
  {
    hide SplitArgs, PerformAll, Replay, Retained;
    RetainedAreRules(table, ts);
    SplitJoin(ts);
    PerformRetained(table, p, ts);
  }

  /** The text is a command without subcommands, a bar, and the first argument of the effect. */
  predicate FromArg(table: Table, text: string, e: Effect) {
    && e.FirstArg? && !Plain(e.arg)
    && exists n :: n in table.tops && table.tops[n].id == e.id && text == n + "|" + e.arg
  }

  /** A retained text with a breaking character is a first argument. */
  lemma BrokenIsFirstArg(table: Table, op: string)
    requires WellFormed(table) && Parse(table, op).Rule?
    ensures var p := Parse(table, op);
            !Plain(p.text) ==> p.allow && FromArg(table, p.text, p.effect)
  {
    hide ParseAllow, Lookup, PermEffect, CategoryEffect, WellFormed, AllowsAll, DeniesAll, FullName, FromArg;
    if |op| >= 2 && op[1] == '@' {
      CategoryIsName(table, Lower(op[2..]));
    } else if op[0] == '-' {
      DenyText(table, op[1..]);
    } else {
      BrokenAllow(table, op[1..]);
      AllowLower(table, op[1..]);
    }
  }

  lemma BrokenAllow(table: Table, name: string)
    requires WellFormed(table) && ParseAllow(table, name).Rule?
    ensures var p := ParseAllow(table, name);
            !Plain(p.text) ==> FromArg(table, p.text, p.effect)
  {
    hide Lookup, PermEffect, WellFormed, FromArg, Plain;
    AllowLower(table, name);
    LowerPlain(name);
    if Lookup(table, name).Some? { DenyText(table, name); }
    var b := LastBar(name);
    if b >= 0 { ArgText(table, name, b); }
  }

  lemma ArgText(table: Table, name: string, b: nat)
    requires WellFormed(table) && b < |name| && name[b] == '|' && Lookup(table, name[..b]).Some?
    requires Lookup(table, name[..b]).value.TopRef?
    ensures !Plain(Lower(name)) ==>
              FromArg(table, Lower(name), FirstArg(IdOf(table, Lookup(table, name[..b]).value), Lower(name[b + 1..])))
  {
    var n, arg := Lower(name[..b]), Lower(name[b + 1..]);
    LowerParts(name, b);
    FullNameIs(table, name[..b]);
    DenyText(table, name[..b]);
    hide WellFormed, Lookup;
    assert Lower(name)[b] == '|';
    assert Lower(name) == n + "|" + arg;
    assert Lookup(table, name[..b]).value == TopRef(n);
    if Plain(arg) { PlainParts(n, arg); }
  }

  lemma PlainParts(n: string, arg: string)
    requires Plain(n) && Plain(arg)
    ensures Plain(n + "|" + arg)
  {
  }

  /** An operation that gives a first argument is at least as long as command, bar and argument. */
  lemma ArgLength(table: Table, op: string, id: nat, arg: string, n: string)
    requires WellFormed(table) && Parse(table, op).Rule? && Parse(table, op).effect == FirstArg(id, arg)
    requires n in table.tops && table.tops[n].id == id
    ensures |op| == 1 + |n| + 1 + |arg|
  {
    var name := op[1..];
    var b := LastBar(name);
    assert b >= 0;
    var cmd := Lookup(table, name[..b]).value;
    FullNameIs(table, name[..b]);
    assert Holds(table, cmd) && Holds(table, TopRef(n)) && IdOf(table, cmd) == IdOf(table, TopRef(n));
    assert cmd == TopRef(n);
  }

  /** Arguments of retained rules have no breaking character, nor do short operations give a long one. */
  lemma {:induction false} ArgNotGiven(table: Table, p: Perms, ops: seq<string>, id: nat, arg: string, n: string)
    requires WellFormed(table) && n in table.tops && table.tops[n].id == id && (id, arg) !in p.args
    requires forall i :: 0 <= i < |ops| ==> |ops[i]| < 1 + |n| + 1 + |arg|
    ensures var q := PerformAll(table, p, ops); q.Some? ==> (id, arg) !in q.value.args
  {
    hide Parse, WellFormed;
    if ops != [] {
      ArgNotGiven(table, p, ops[..|ops| - 1], id, arg, n);
      var op := CString(ops[|ops| - 1]);
      var parsed := Parse(table, op);
      if parsed.Rule? && parsed.effect == FirstArg(id, arg) { ArgLength(table, op, id, arg, n); }
    }
  }

  lemma {:induction false} RetainedArgsPlain(table: Table, side: bool, ts: seq<AclRules.Rule>, id: nat, arg: string)
    requires WellFormed(table) && AllRetained(table, ts) && !Plain(arg)
    ensures (id, arg) !in Replay(table, Start(side), ts).args
  {
    hide Parse, WellFormed;
    if ts != [] {
      RetainedArgsPlain(table, side, ts[..|ts| - 1], id, arg);
      var t := ts[|ts| - 1];
      RetainedFacts(table, t);
      if Parse(table, t).effect == FirstArg(id, arg) { PlainArg(table, t, id, arg); }
    }
  }

  lemma PlainArg(table: Table, op: string, id: nat, arg: string)
    requires Plain(op) && Parse(table, op).Rule? && Parse(table, op).effect == FirstArg(id, arg)
    ensures Plain(arg)
  {
    hide *;
    ArgOf(table, op, id, arg);
    var k := LastBar(op[1..]) + 2;
    PlainFrom(op, k);
    LowerPlain(op[k..]);
  }

  lemma ArgOf(table: Table, op: string, id: nat, arg: string)
    requires Parse(table, op).Rule? && Parse(table, op).effect == FirstArg(id, arg)
    ensures op != "" && arg == Lower(op[LastBar(op[1..]) + 2..])
  {
    ParsedArg(table, op);
    AllowedArg(table, op[1..]);
    hide *;
    assert op[1..][LastBar(op[1..]) + 1..] == op[LastBar(op[1..]) + 2..];
  }

  /** Only an operation that allows gives a first argument. */
  lemma ParsedArg(table: Table, op: string)
    requires Parse(table, op).Rule? && Parse(table, op).effect.FirstArg?
    ensures op != "" && Parse(table, op) == ParseAllow(table, op[1..])
  {
    hide ParseAllow, Lookup, CategoryRefs, RefPermIds, RefIds, PermIds, ResetIds, AllowsAll, DeniesAll, IsElsewhere,
      FullName, Lower;
  }

  lemma AllowedArg(table: Table, name: string)
    requires ParseAllow(table, name).Rule? && ParseAllow(table, name).effect.FirstArg?
    ensures ParseAllow(table, name).effect.arg == Lower(name[LastBar(name) + 1..])
  {
    hide Lookup, PermIds, ResetIds, FullName, Lower, LastBar;
  }

  lemma PlainFrom(s: string, k: nat)
    requires Plain(s) && k <= |s|
    ensures Plain(s[k..])
  {
  }

  /**
   The exact condition: after any retained rules and one more accepted operation, the stored string
   replays to the permissions of the selector if and only if the text it retains has no blank and no
   quote.
   */
  lemma TextReplays(table: Table, side: bool, ts: seq<AclRules.Rule>, op: string)
    requires WellFormed(table) && AllRetained(table, ts) && Normal(ts) && Understood(table, op).Rule?
    requires side <==> RESERVED in Replay(table, Start(side), ts).bits
    ensures var p := Understood(table, op);
            var replayed := ReplayText(table, Start(side), Join(Updated(ts, p.text, p.allow)));
            replayed == Some(Apply(Replay(table, Start(side), ts), p.effect, p.allow)) <==> Unbroken(p.text)
  {
    hide *;
    UnderstoodIs(table, op);
    ParsedReplays(table, side, ts, CString(op));
    TextHasNoZero(table, CString(op));
    PlainCString(Understood(table, op).text);
  }

  lemma UnderstoodIs(table: Table, op: string)
    ensures Understood(table, op) == Parse(table, CString(op))
  {
  }

  lemma TextHasNoZero(table: Table, op: string)
    requires WellFormed(table) && Parse(table, op).Rule? && '\0' !in op
    ensures '\0' !in Parse(table, op).text
  {
    hide ParseAllow, Lookup, PermEffect, CategoryEffect, WellFormed, AllowsAll, DeniesAll, FullName, IsElsewhere;
    if |op| >= 2 && op[1] == '@' {
      LowerHasNoZero(op[2..]);
    } else if op[0] == '-' {
      FullNameIs(table, op[1..]);
      LowerHasNoZero(op[1..]);
    } else {
      AllowText(table, op[1..]);
      LowerHasNoZero(op[1..]);
    }
  }

  lemma LowerHasNoZero(s: string)
    requires '\0' !in s
    ensures '\0' !in Lower(s)
  {
    forall i | 0 <= i < |s| ensures Lower(s)[i] != '\0' { assert s[i] in s; }
  }

  /** "+name|a" and whatever follows behind a zero byte is "+name|a", which replays. */
  lemma ZeroByteEnds(table: Table, side: bool, n: string, rest: string)
    requires WellFormed(table) && n in table.tops && table.tops[n].subs.None?
    ensures var text := n + "|" + "a";
            var p := Understood(table, "+" + text + ['\0'] + rest);
            && p == Rule(text, true, FirstArg(table.tops[n].id, "a"))
            && ReplayText(table, Start(side), Join(Updated([], p.text, true)))
               == Some(Apply(Start(side), p.effect, true))
  {
    var text := n + "|" + "a";
    var op := "+" + text;
    assert IsName(n);
    LowerWords();
    NameHasNoZero(n);
    assert '\0' !in op;
    NothingReplays(table, side);
    hide *;
    CStringEnds(op, rest);
    UnderstoodIs(table, op + ['\0'] + rest);
    FirstArgParses(table, n, "a");
    ArgRuleText(op, text);
    ParsedReplays(table, side, [], op);
  }

  lemma NameHasNoZero(n: string)
    requires Plain(n)
    ensures '\0' !in n
  {
    forall i | 0 <= i < |n| ensures n[i] != '\0' { assert !Breaking(n[i]); }
  }

  lemma NothingReplays(table: Table, side: bool)
    ensures AllRetained(table, []) && Normal([]) && Replay(table, Start(side), []) == Start(side)
    ensures side <==> RESERVED in Start(side).bits
  {
  }

  lemma ArgRuleText(op: string, text: string)
    requires op == "+" + text
    ensures op[1..] == text && (IsRule(op) ==> Plain(text))
  {
    if IsRule(op) { PlainFrom(op, 1); }
  }

  lemma ParsedReplays(table: Table, side: bool, ts: seq<AclRules.Rule>, op: string)
    requires WellFormed(table) && AllRetained(table, ts) && Normal(ts) && Parse(table, op).Rule?
    requires side <==> RESERVED in Replay(table, Start(side), ts).bits
    ensures var p := Parse(table, op);
            var replayed := ReplayText(table, Start(side), Join(Updated(ts, p.text, p.allow)));
            replayed == Some(Apply(Replay(table, Start(side), ts), p.effect, p.allow)) <==> Plain(p.text)
  {
    var p := Parse(table, op);
    hide Parse, Replay, Apply, WellFormed, ReplayText, Retained, Join, Updated;
    if Plain(p.text) {
      AfterRule(table, side, ts, op);
      RetainedReplays(table, Start(side), Updated(ts, p.text, p.allow));
    } else {
      BrokenReplay(table, side, ts, op);
    }
  }

  lemma BrokenReplay(table: Table, side: bool, ts: seq<AclRules.Rule>, op: string)
    requires WellFormed(table) && AllRetained(table, ts) && Parse(table, op).Rule? && !Plain(Parse(table, op).text)
    ensures var p := Parse(table, op);
            ReplayText(table, Start(side), Join(Updated(ts, p.text, p.allow)))
              != Some(Apply(Replay(table, Start(side), ts), p.effect, p.allow))
  {
    var p := Parse(table, op);
    BrokenIsFirstArg(table, op);
    hide Parse, WellFormed;
    var id, arg := p.effect.id, p.effect.arg;
    var n :| n in table.tops && table.tops[n].id == id && p.text == n + "|" + arg;
    var last := Signed(p.text, p.allow);
    assert |last| == 1 + |n| + 1 + |arg| && !Plain(last) by { assert last[1..] == p.text; }
    var kept := Without(ts, p.text);
    KeptRetained(table, ts, p.text);
    RetainedAreRules(table, kept);
    hide Parse, Replay, WellFormed, Retained, Join, SplitArgs, PerformAll, Plain;
    SplitBehind(kept, last);
    var ops := SplitArgs(last);
    if ops.Some? {
      PerformConcat(table, Start(side), kept, ops.value);
      PerformRetained(table, Start(side), kept);
      RetainedArgsPlain(table, side, kept, id, arg);
      forall i | 0 <= i < |ops.value| ensures |ops.value[i]| < |last| { SplitLengths(last, i); }
      ArgNotGiven(table, Replay(table, Start(side), kept), ops.value, id, arg, n);
    }
  }

  lemma KeptRetained(table: Table, ts: seq<AclRules.Rule>, text: string)
    requires AllRetained(table, ts)
    ensures AllRetained(table, Without(ts, text))
  {
    hide Retained;
    WithoutMembers(ts, text);
    var kept := Without(ts, text);
    forall i | 0 <= i < |kept| ensures Retained(table, kept[i]) {
      assert kept[i] in kept;
    }
  }

  lemma OneWord(c: char)
    requires !Breaking(c) && !IsSpace(c)
    ensures SplitArgs([c]) == Some([[c]])
  {
    assert [c][1..] == "" && [c] + "" == [c];
    assert ParseArg("", Outside) == Some(("", ""));
    assert ParseArg([c], Outside) == Some(([c], ""));
    hide ParseArg;
    assert SplitArgs("") == Some([]);
    assert [[c]] + [] == [[c]];
  }

  /** A first argument in lower case and without a bar is retained as it is given. */
  lemma FirstArgParses(table: Table, n: string, arg: string)
    requires WellFormed(table) && n in table.tops && table.tops[n].subs.None?
    requires arg != "" && '|' !in arg && Lower(arg) == arg
    ensures var op := "+" + (n + "|" + arg);
            Parse(table, op) == Rule(op[1..], true, FirstArg(table.tops[n].id, arg)) && (Plain(arg) ==> IsRule(op))
  {
    var name := n + "|" + arg;
    var op := "+" + name;
    assert IsName(n);
    ArgRule(n, arg);
    ArgAllowed(table, n, arg, name);
    hide *;
    assert name[0] == n[0];
    PlusParses(table, op, name);
  }

  lemma PlusParses(table: Table, op: string, name: string)
    requires op == "+" + name && name != "" && name[0] != '@'
    ensures Parse(table, op) == ParseAllow(table, name) && op[1..] == name
  {
    hide AllowsAll, DeniesAll, ParseAllow, IsElsewhere;
    assert op[1..] == name && op[1] == name[0];
    NotEverything(op);
  }

  lemma ArgRule(n: string, arg: string)
    requires Plain(n)
    ensures Plain(arg) ==> IsRule("+" + (n + "|" + arg))
  {
    if Plain(arg) { PlainParts(n, arg); }
  }

  lemma ArgAllowed(table: Table, n: string, arg: string, name: string)
    requires WellFormed(table) && n in table.tops && table.tops[n].subs.None? && name == n + "|" + arg
    requires arg != "" && '|' !in arg && Lower(arg) == arg
    ensures ParseAllow(table, name) == Rule(name, true, FirstArg(table.tops[n].id, arg))
  {
    assert IsName(n);
    hide WellFormed;
    OnlyBarGiven(n, arg);
    NoBar(n);
    LowerName(n, arg);
  }

  lemma LowerName(n: string, arg: string)
    requires Lower(n) == n && Lower(arg) == arg
    ensures Lower(n + "|" + arg) == n + "|" + arg
  {
    var name := n + "|" + arg;
    forall i | 0 <= i < |name| ensures Lower(name)[i] == name[i] {
      if i < |n| { assert Lower(n)[i] == n[i]; }
      else if i > |n| { assert Lower(arg)[i - |n| - 1] == arg[i - |n| - 1]; }
    }
  }

  lemma PerformTwo(table: Table, p: Perms, a: string, b: string)
    ensures PerformAll(table, p, [a, b]) ==
            var q := Performed(table, p, a); if q.None? then None else Performed(table, q.value, b)
  {
    hide Performed;
    assert [a, b][..1] == [a] && [a][..0] == [];
    assert PerformAll(table, p, [a]) == Performed(table, p, a);
  }

  /** A blank makes the replay fail: "+name|a b" leaves the operation "b", which is refused. */
  lemma BlankRefused(table: Table, n: string)
    requires WellFormed(table) && n in table.tops && table.tops[n].subs.None?
    ensures var op := "+" + (n + "|" + "a b");
            && Understood(table, op) == Rule(op[1..], true, FirstArg(table.tops[n].id, "a b"))
            && ReplayText(table, Start(false), op) == None
  {
    var op, first := "+" + (n + "|" + "a b"), "+" + (n + "|" + "a");
    BIsRefused(table);
    LowerWords();
    assert IsName(n);
    NameHasNoZero(n);
    assert CString(op) == op;
    hide Parse, WellFormed, SplitArgs, PerformAll, Lower, IsRule;
    FirstArgParses(table, n, "a b");
    FirstArgParses(table, n, "a");
    BlankAfter("+" + (n + "|"), "a", "b");
    TextOfArg(n, "a b");
    TextOfArg(n, "a");
    SplitFirst(first, "b");
    OneWord('b');
    assert [first] + ["b"] == [first, "b"];
    PerformTwo(table, Start(false), first, "b");
  }

  lemma BIsRefused(table: Table)
    ensures Parse(table, "b") == Error(EINVAL)
  {
    assert |Lower("b")| == 1;
  }

  /**
   A blank can even leave a string that is accepted and says something else: "+name|a +other" allows
   a first argument, but its replay allows a whole command, so the bitmaps differ.
   */
  lemma BlankAllowsCommand(table: Table, n: string, m: string)
    requires WellFormed(table) && n in table.tops && table.tops[n].subs.None?
    requires m in table.tops && table.tops[m].id < BITS
    ensures var op := "+" + (n + "|" + ("a +" + m));
            && Understood(table, op) == Rule(op[1..], true, FirstArg(table.tops[n].id, "a +" + m))
            && var q := ReplayText(table, Start(false), op);
               q.Some? && table.tops[m].id in q.value.bits
               && table.tops[m].id !in Apply(Start(false), Understood(table, op).effect, true).bits
  {
    var op, arg, first, second := "+" + (n + "|" + ("a +" + m)), "a +" + m, "+" + (n + "|" + "a"), "+" + m;
    assert IsName(m) && IsName(n);
    LowerWords();
    LowerAfter(m);
    BlankArg(m);
    NameHasNoZero(n);
    NameHasNoZero(m);
    assert CString(op) == op;
    UnderstoodIs(table, op);
    hide *;
    FirstArgParses(table, n, arg);
    FirstArgParses(table, n, "a");
    CommandParses(table, m);
    TextOfArg(n, arg);
    TextOfArg(n, "a");
    BlankAfter("+" + (n + "|"), "a", second);
    ReplayTwo(table, Start(false), first, second);
    PerformedBoth(table, first, second, table.tops[m].id);
    ArgAllowsNone(table.tops[n].id, arg);
  }

  lemma LowerWords()
    ensures Lower("a b") == "a b" && Lower("a") == "a" && Plain("a") && "a b" == "a" + " " + "b"
  {
  }

  lemma BlankArg(m: string)
    requires '|' !in m
    ensures "a +" + m == "a" + " " + ("+" + m) && "a +" + m != "" && '|' !in "a +" + m
  {
  }

  lemma TextOfArg(n: string, arg: string)
    ensures "+" + (n + "|" + arg) == ("+" + (n + "|")) + arg
  {
  }

  lemma BlankAfter(start: string, a: string, b: string)
    ensures start + (a + " " + b) == start + a + " " + b
  {
  }

  lemma PerformedBoth(table: Table, first: string, second: string, id: nat)
    requires IsRule(first) && IsRule(second)
    requires Parse(table, first).Rule? && Parse(table, second).Rule? && Parse(table, second).allow
    requires Parse(table, second).effect.Change? && id in Parse(table, second).effect.ids
    ensures var q := Performed(table, Start(false), first);
            q.Some? && var r := Performed(table, q.value, second); r.Some? && id in r.value.bits
  {
    hide Parse, Start, CString;
    PlainCString(first);
    PlainCString(second);
  }

  lemma ArgAllowsNone(id: nat, arg: string)
    ensures Apply(Start(false), FirstArg(id, arg), true).bits == {}
  {
  }

  lemma ReplayTwo(table: Table, p: Perms, first: string, second: string)
    requires IsRule(first) && IsRule(second)
    ensures ReplayText(table, p, first + " " + second) ==
            var q := Performed(table, p, first); if q.None? then None else Performed(table, q.value, second)
  {
    hide SplitArgs, PerformAll, IsRule, Performed;
    SplitFirst(first, second);
    SplitFirst(second, "");
    assert [first] + [second] == [first, second];
    PerformTwo(table, p, first, second);
  }

  lemma LowerAfter(m: string)
    requires Lower(m) == m
    ensures Lower("a +" + m) == "a +" + m
  {
    var arg := "a +" + m;
    forall i | 0 <= i < |arg| ensures Lower(arg)[i] == arg[i] {
      if i >= 3 { assert Lower(m)[i - 3] == m[i - 3]; }
    }
  }

  lemma CommandParses(table: Table, m: string)
    requires WellFormed(table) && m in table.tops
    ensures var op := "+" + m;
            && IsRule(op) && Parse(table, op).Rule? && Parse(table, op).allow && Parse(table, op).effect.Change?
            && (table.tops[m].id < BITS ==> table.tops[m].id in Parse(table, op).effect.ids)
  {
    assert IsName(m);
    NoBar(m);
    assert Lookup(table, m) == Some(TopRef(m));
    hide WellFormed, Lookup, Parse;
    PlusParses(table, "+" + m, m);
  }

  // ---------------------------------------------------------------- any run of rules

  /** After any sequence of operations the stored rules describe the selector. */
  method AnyRun(table: Table, ops: seq<string>) returns (text: string, panics: bool)
    requires WellFormed(table) && forall i :: 0 <= i < |ops| ==> Kept(Understood(table, ops[i]))
    ensures !panics
  {
    hide WellFormed, Unbroken, Understood;
    var s := new Selector(table);
    for i := 0 to |ops|
      invariant s.Valid() && fresh(s) && s.table == table
    {
      var p := s.SetSelector(ops[i]);
    }
    text, panics := s.Describe();
  }

  // ---------------------------------------------------------------- command ids

  /** ACLGetCommandID: sequential ids by lower-case name, never the reserved one. */
  class CommandIds {
    var ids: map<string, nat>     // commandId
    var nextid: nat

    ghost predicate Valid()
      reads this
    {
      && nextid != RESERVED
      && (forall n :: n in ids ==> ids[n] < nextid && ids[n] != RESERVED)
      && (forall m, n :: m in ids && n in ids && ids[m] == ids[n] ==> m == n)
      && |ids| == (if nextid < RESERVED then nextid else nextid - 1)
      && (nextid > BITS ==> exists n :: n in ids && ids[n] == nextid - 1)
    }

    /** Every id has its place in the bitmap and in the table of first arguments exactly up to 1023 names. */
    lemma FitTable()
      requires Valid()
      ensures (forall n :: n in ids ==> ids[n] < BITS) <==> |ids| <= BITS - 1
    {
    }

    constructor ()
      ensures Valid() && ids == map[]
    {
      ids, nextid := map[], 0;
    }

    method GetId(name: string) returns (id: nat)
      requires Valid()
      modifies this
      ensures Valid() && id != RESERVED
      ensures ids == old(ids)[Lower(name) := id]
      ensures Lower(name) in old(ids) ==> ids == old(ids)
      ensures Lower(name) !in old(ids) ==> forall n :: n in old(ids) ==> old(ids)[n] != id
    {
      var lower := Lower(name);
      if lower in ids {
        id := ids[lower];
        assert ids == ids[lower := id];
        return;
      }
      ids := ids[lower := nextid];
      id := nextid;
      assert ids[lower] == id;
      nextid := nextid + 1;
      if nextid == BITS - 1 { nextid := nextid + 1; }
    }

    /** Ids that were handed out by full name make a table of names well formed. */
    lemma TableIds(table: Table)
      requires Valid() && Named(table)
      requires forall r :: Holds(table, r) ==> FullName(r) in ids && IdOf(table, r) == ids[FullName(r)]
      ensures WellFormed(table)
    {
      forall r, q | Holds(table, r) && Holds(table, q) && IdOf(table, r) == IdOf(table, q) ensures r == q {
        FullNameOf(table, r, q);
      }
    }
  }

  /** A full name belongs to one command. */
  lemma FullNameOf(table: Table, r: Ref, q: Ref)
    requires Named(table) && Holds(table, r) && Holds(table, q) && FullName(r) == FullName(q)
    ensures r == q
  {
    assert IsName(r.name) && IsName(q.name);
    hide IsName;
    BarOf(table, r);
    BarOf(table, q);
  }

  lemma BarOf(table: Table, r: Ref)
    requires Named(table) && Holds(table, r)
    ensures r.TopRef? ==> LastBar(FullName(r)) == -1
    ensures r.SubRef? ==> LastBar(FullName(r)) == |r.name| && FullName(r)[..|r.name|] == r.name
                          && FullName(r)[|r.name| + 1..] == r.sub
  {
    assert IsName(r.name);
    if r.SubRef? {
      assert IsName(r.sub);
      OnlyBarGiven(r.name, r.sub);
    }
  }
}
