/**
 The retained command rules of an ACL selector: one string, rules separated by single
 spaces, edited in place. The model keeps the string; the list of rules it stands for is
 the specification.
 */
module AclRules {

  import opened Options

  type Rule = string

  // ---------------------------------------------------------------- characters

  function LowerChar(c: char): char {
    if 'A' <= c <= 'Z' then (c as int + 32) as char else c
  }

  /** sdstolower. */
  function Lower(s: string): (r: string)
    ensures |r| == |s|
    ensures forall i :: 0 <= i < |s| ==> r[i] == LowerChar(s[i])
  {
    seq(|s|, i requires 0 <= i < |s| => LowerChar(s[i]))
  }

  /** Blanks and quotes. */
  predicate Separating(c: char) {
    c == ' ' || c == '\n' || c == '\r' || c == '\t' || c == '\"' || c == '\''
  }

  /** Characters that mean something to sdssplitargs: blanks, quotes and the end of the string. */
  predicate Breaking(c: char) { Separating(c) || c == '\0' }

  /** No character would break the text apart when the string is split again. */
  predicate Plain(s: string) { forall i :: 0 <= i < |s| ==> !Breaking(s[i]) }

  predicate Unbroken(s: string) { forall i :: 0 <= i < |s| ==> !Separating(s[i]) }

  /** The text as a C string: up to the first zero byte. */
  function CString(s: string): (r: string)
    ensures r <= s && '\0' !in r
    ensures r == s <==> '\0' !in s
  {
    if s == "" || s[0] == '\0' then "" else [s[0]] + CString(s[1..])
  }

  lemma PlainCString(s: string)
    ensures '\0' !in s ==> (Plain(s) <==> Unbroken(s))
    ensures Plain(s) ==> CString(s) == s && Unbroken(s)
  {
  }

  lemma CStringTail(s: string)
    requires s != "" && s[0] != '\0'
    ensures CString(s) == [s[0]] + CString(s[1..]) && CString(s)[1..] == CString(s[1..])
  {
  }

  lemma {:induction false} CStringEnds(s: string, rest: string)
    requires '\0' !in s
    ensures CString(s + ['\0'] + rest) == s
  {
    var t := s + ['\0'] + rest;
    if s == "" {
      assert t[0] == '\0';
    } else {
      assert t[0] == s[0] && t[1..] == s[1..] + ['\0'] + rest;
      hide CString;
      CStringEnds(s[1..], rest);
      CStringTail(t);
      assert s == [s[0]] + s[1..];
    }
  }

  lemma LowerPlain(s: string)
    ensures Plain(Lower(s)) <==> Plain(s)
    ensures Lower(Lower(s)) == Lower(s)
  {
    if Plain(Lower(s)) {
      forall i | 0 <= i < |s| ensures !Breaking(s[i]) { assert !Breaking(Lower(s)[i]); }
    }
  }

  // ---------------------------------------------------------------- lists of rules

  /** A rule is a sign and a non-empty text without separators. */
  predicate IsRule(t: Rule) {
    |t| >= 2 && (t[0] == '+' || t[0] == '-') && Plain(t)
  }

  predicate IsRules(ts: seq<Rule>) {
    forall i :: 0 <= i < |ts| ==> IsRule(ts[i])
  }

  function Join(ts: seq<Rule>): string {
    if ts == [] then "" else if |ts| == 1 then ts[0] else ts[0] + " " + Join(ts[1..])
  }

  /** Every rule followed by a space. */
  function Led(ts: seq<Rule>): string {
    if ts == [] then "" else Led(ts[..|ts| - 1]) + ts[|ts| - 1] + " "
  }

  /** The rule is the new one verbatim (either sign), or a sub-rule of it. */
  predicate Matches(t: Rule, text: string) {
    && |t| >= 1
    && (t[1..] == text || (|t| - 1 > |text| && t[1..|text| + 1] == text && t[|text| + 1] == '|'))
  }

  /** The rules that survive the removal of `text`. */
  function Without(ts: seq<Rule>, text: string): seq<Rule> {
    if ts == [] then []
    else Without(ts[..|ts| - 1], text) + (if Matches(ts[|ts| - 1], text) then [] else [ts[|ts| - 1]])
  }

  lemma {:induction false} LedJoin(a: seq<Rule>, b: seq<Rule>)
    requires b != []
    ensures Join(a + b) == Led(a) + Join(b)
  {
    if a == [] {
      assert a + b == b;
    } else {
      var most, last := a[..|a| - 1], a[|a| - 1];
      assert a + b == most + ([last] + b);
      LedJoin(most, [last] + b);
      assert ([last] + b)[1..] == b;
    }
  }

  lemma LedIsJoin(a: seq<Rule>)
    requires a != []
    ensures Led(a) == Join(a) + " "
  {
    var most, last := a[..|a| - 1], a[|a| - 1];
    assert most + [last] == a;
    LedJoin(most, [last]);
  }

  lemma {:induction false} RulesLength(ts: seq<Rule>)
    requires IsRules(ts) && ts != []
    ensures |Join(ts)| >= 2
  {
  }

  // ---------------------------------------------------------------- the walk over the string

  /** strchr(s + from, ' '), or the end of the string. */
  method FindBlank(s: string, from: nat) returns (e: nat)
    requires from <= |s|
    ensures from <= e <= |s|
    ensures forall i :: from <= i < e ==> s[i] != ' '
    ensures e < |s| ==> s[e] == ' '
  {
    e := from;
    while e < |s| && s[e] != ' '
      invariant from <= e <= |s|
      invariant forall i :: from <= i < e ==> s[i] != ' '
    {
      e := e + 1;
    }
  }

  /** Where the first rule of a joined list ends. */
  lemma FirstRuleEnd(pre: string, ts: seq<Rule>, e: nat)
    requires IsRules(ts) && ts != []
    requires |pre| + 1 <= e <= |pre + Join(ts)|
    requires forall i :: |pre| + 1 <= i < e ==> (pre + Join(ts))[i] != ' '
    requires e < |pre + Join(ts)| ==> (pre + Join(ts))[e] == ' '
    ensures e == |pre| + |ts[0]|
    ensures (pre + Join(ts))[|pre|..e] == ts[0]
    ensures e < |pre + Join(ts)| <==> |ts| > 1
  {
    var s, t := pre + Join(ts), ts[0];
    assert forall i :: 0 <= i < |t| ==> s[|pre| + i] == t[i];
    if |ts| > 1 { assert s[|pre| + |t|] == ' '; }
    assert s[|pre|..|pre| + |t|] == t;
  }

  /** The test of the loop, on the string. */
  lemma MatchInString(t: Rule, text: string)
    requires IsRule(t)
    ensures var body := t[1..];
            var n := if |body| < |text| then |body| else |text|;
            Matches(t, text) <==> body[..n] == text[..n]
                                  && (|body| == |text| || (|body| > |text| && body[|text|] == '|'))
  {
    var body := t[1..];
    if |body| == |text| {
      assert body[..|text|] == body && text[..|text|] == text;
    } else if |body| > |text| {
      assert body[..|text|] == t[1..|text| + 1] && text[..|text|] == text;
    }
  }

  /**
   ACLSelectorRemoveCommandRule: walks the string rule by rule and closes the gap over each
   rule that matches, taking the separator that belongs to it along.
   */
  method RemoveRule(start: string, newRule: string, ghost ts: seq<Rule>) returns (rules: string)
    requires IsRules(ts) && start == Join(ts)
    ensures rules == Join(Without(ts, newRule))
  {
    rules := start;
    var existing := 0;
    ghost var done, kept := 0, [];
    assert ts[0..] == ts && Led([]) == "" && Join([]) == "";
    hide Join, Led, Without, Matches;
    while existing < |rules|
      invariant 0 <= done <= |ts| && IsRules(kept)
      invariant kept == Without(ts[..done], newRule)
      invariant done < |ts| ==> existing == |Led(kept)| && rules == Led(kept) + Join(ts[done..])
      invariant done == |ts| ==> existing == |rules| && rules == Join(kept)
      decreases |ts| - done
    {
      ghost var rest, t := ts[done..], ts[done];
      var copyPosition, copyEnd, goes := NextRule(rules, existing, newRule, kept, rest);
      WithoutNext(ts, done, newRule);
      if goes {
        RemovedStep(kept, rest, copyPosition, copyEnd);
        rules := rules[..copyPosition] + rules[copyEnd..];
        existing := copyPosition;
      } else {
        KeptStep(kept, rest);
        existing := copyEnd;
        kept := kept + [t];
      }
      done := done + 1;
      assert ts[done..] == rest[1..];
    }
    assert ts[..|ts|] == ts;
  }

  /** One turn of the loop, up to the removal: where the rule is, and whether it goes. */
  method NextRule(rules: string, existing: nat, newRule: string, ghost kept: seq<Rule>, ghost rest: seq<Rule>)
    returns (copyPosition: nat, copyEnd: nat, goes: bool)
    requires IsRules(rest) && rest != [] && existing == |Led(kept)| && rules == Led(kept) + Join(rest)
    ensures goes <==> Matches(rest[0], newRule)
    ensures |rest| > 1 ==> copyPosition == |Led(kept)| && copyEnd == |Led(kept)| + |rest[0]| + 1
    ensures |rest| == 1 ==> copyEnd == |rules| && copyPosition == if Led(kept) == "" then 0 else |Led(kept)| - 1
  {
    hide Join, Led, Matches;
    copyPosition := existing;
    RulesLength(rest);
    var ruleEnd := FindBlank(rules, existing + 1);
    FirstRuleEnd(Led(kept), rest, ruleEnd);
    if ruleEnd == |rules| && copyPosition != 0 {
      copyPosition := copyPosition - 1;
    }
    copyEnd := if ruleEnd < |rules| then ruleEnd + 1 else ruleEnd;
    var body := rules[existing + 1..ruleEnd];
    assert body == rest[0][1..] by { assert rules[existing..ruleEnd] == rest[0]; }
    MatchInString(rest[0], newRule);
    var n := if |body| < |newRule| then |body| else |newRule|;
    goes := body[..n] == newRule[..n] && (|body| == |newRule| || (|body| > |newRule| && body[|newRule|] == '|'));
  }

  lemma WithoutNext(ts: seq<Rule>, n: nat, text: string)
    requires n < |ts|
    ensures Without(ts[..n + 1], text) == Without(ts[..n], text) + if Matches(ts[n], text) then [] else [ts[n]]
  {
    assert ts[..n + 1][..n] == ts[..n];
  }

  /** Closing the gap over the first of `rest`. */
  lemma RemovedStep(kept: seq<Rule>, rest: seq<Rule>, copyPosition: nat, copyEnd: nat)
    requires IsRules(rest) && IsRules(kept) && rest != []
    requires var s := Led(kept) + Join(rest);
             && (|rest| > 1 ==> copyPosition == |Led(kept)| && copyEnd == |Led(kept)| + |rest[0]| + 1)
             && (|rest| == 1 ==> copyEnd == |s|
                                 && copyPosition == if Led(kept) == "" then 0 else |Led(kept)| - 1)
    ensures var s := Led(kept) + Join(rest);
            && copyPosition <= copyEnd <= |s|
            && (|rest| > 1 ==> s[..copyPosition] + s[copyEnd..] == Led(kept) + Join(rest[1..]))
            && (|rest| == 1 ==> s[..copyPosition] + s[copyEnd..] == Join(kept) && copyPosition == |Join(kept)|)
  {
    hide *;
    if |rest| > 1 {
      RemovedInside(kept, rest);
    } else {
      RemovedLast(kept, rest);
    }
  }

  lemma RemovedInside(kept: seq<Rule>, rest: seq<Rule>)
    requires |rest| > 1
    ensures var s, p := Led(kept) + Join(rest), |Led(kept)|;
            p + |rest[0]| + 1 <= |s| && s[..p] + s[p + |rest[0]| + 1..] == Led(kept) + Join(rest[1..])
  {
    assert Join(rest) == rest[0] + " " + Join(rest[1..]);
    hide *;
    Gap(Led(kept), rest[0], Join(rest[1..]), Led(kept) + Join(rest));
  }

  lemma Gap(a: string, r: string, b: string, s: string)
    requires s == a + (r + " " + b)
    ensures |a| + |r| + 1 <= |s| && s[..|a|] + s[|a| + |r| + 1..] == a + b
  {
  }

  lemma RemovedLast(kept: seq<Rule>, rest: seq<Rule>)
    requires IsRules(kept) && |rest| == 1
    ensures var s := Led(kept) + Join(rest);
            var p := if Led(kept) == "" then 0 else |Led(kept)| - 1;
            p == |Join(kept)| && p <= |s| && s[..p] + s[|s|..] == Join(kept)
  {
    if kept != [] { LedIsJoin(kept); }
  }

  /** Stepping over the first of `rest`. */
  lemma KeptStep(kept: seq<Rule>, rest: seq<Rule>)
    requires rest != []
    ensures Led(kept + [rest[0]]) == Led(kept) + rest[0] + " "
    ensures |rest| > 1 ==> Led(kept) + Join(rest) == Led(kept + [rest[0]]) + Join(rest[1..])
    ensures |rest| == 1 ==> Led(kept) + Join(rest) == Join(kept + [rest[0]])
  {
    assert (kept + [rest[0]])[..|kept|] == kept;
    if |rest| == 1 {
      assert rest == [rest[0]];
      LedJoin(kept, rest);
    }
  }

  // ---------------------------------------------------------------- adding a rule

  function Signed(text: string, allow: bool): Rule { (if allow then "+" else "-") + text }

  /** The list after a rule is added: older rules it covers go, it comes last. */
  function Updated(ts: seq<Rule>, text: string, allow: bool): seq<Rule> {
    Without(ts, text) + [Signed(text, allow)]
  }

  lemma {:induction false} WithoutMembers(ts: seq<Rule>, text: string)
    ensures forall t :: t in Without(ts, text) <==> t in ts && !Matches(t, text)
    ensures IsRules(ts) ==> IsRules(Without(ts, text))
  {
    if ts != [] {
      var most := ts[..|ts| - 1];
      WithoutMembers(most, text);
      assert ts == most + [ts[|ts| - 1]];
    }
  }

  /** ACLUpdateCommandRules. */
  method UpdateRules(start: string, rule: string, allow: bool, ghost ts: seq<Rule>) returns (rules: string)
    requires IsRules(ts) && start == Join(ts) && rule != ""
    ensures Plain(rule) ==> IsRules(Updated(ts, Lower(rule), allow))
    ensures rules == Join(Updated(ts, Lower(rule), allow))
  {
    var newRule := Lower(rule);
    LowerPlain(rule);
    WithoutMembers(ts, newRule);
    ghost var kept := Without(ts, newRule);
    rules := RemoveRule(start, newRule, ts);
    if kept != [] { RulesLength(kept); LedIsJoin(kept); }
    LedJoin(kept, [Signed(newRule, allow)]);
    if |rules| != 0 { rules := rules + " "; }
    rules := rules + Signed(newRule, allow);
  }

  // ---------------------------------------------------------------- splitting the string again

  datatype Quote = Outside | Double | Single

  predicate HexDigit(c: char) { '0' <= c <= '9' || 'a' <= c <= 'f' || 'A' <= c <= 'F' }

  function HexValue(c: char): nat
    requires HexDigit(c)
  {
    if '0' <= c <= '9' then c as int - '0' as int
    else if 'a' <= c <= 'f' then c as int - 'a' as int + 10
    else c as int - 'A' as int + 10
  }

  /** An escaped character between double quotes. */
  function Escaped(c: char): char {
    match c
    case 'n' => '\n'
    case 'r' => '\r'
    case 't' => '\t'
    case 'b' => '\U{8}'
    case 'a' => '\U{7}'
    case _ => c
  }

  /** A character in front of what is parsed behind it. */
  function Before(c: char, r: Option<(string, string)>): Option<(string, string)> {
    if r.None? then None else Some(([c] + r.value.0, r.value.1))
  }

  /** sdsparsearg: one argument and what is left behind it; nothing if its quotes are not closed. */
  function ParseArg(s: string, q: Quote): Option<(string, string)>
    decreases |s|
  {
    if s == "" || s[0] == '\0' then (if q == Outside then Some(("", "")) else None)
    else match q
      case Outside =>
        if s[0] == ' ' || s[0] == '\n' || s[0] == '\r' || s[0] == '\t' then Some(("", s[1..]))
        else if s[0] == '\"' then ParseArg(s[1..], Double)
        else if s[0] == '\'' then ParseArg(s[1..], Single)
        else Before(s[0], ParseArg(s[1..], Outside))
      case Double =>
        if |s| >= 4 && s[0] == '\\' && s[1] == 'x' && HexDigit(s[2]) && HexDigit(s[3]) then
          Before((HexValue(s[2]) * 16 + HexValue(s[3])) as char, ParseArg(s[4..], Double))
        else if |s| >= 2 && s[0] == '\\' && s[1] != '\0' then Before(Escaped(s[1]), ParseArg(s[2..], Double))
        else if s[0] == '\"' then ParseArg(s[1..], Outside)
        else Before(s[0], ParseArg(s[1..], Double))
      case Single =>
        if |s| >= 2 && s[0] == '\\' && s[1] == '\'' then Before('\'', ParseArg(s[2..], Single))
        else if s[0] == '\'' then ParseArg(s[1..], Outside)
        else Before(s[0], ParseArg(s[1..], Single))
  }

  /** isspace. */
  predicate IsSpace(c: char) { c == ' ' || '\t' <= c <= '\r' }

  /** What is parsed is not longer than what it was parsed from, and shorter if that had a breaking character. */
  lemma {:induction false} ParsedLength(s: string, q: Quote)
    requires ParseArg(s, q).Some?
    ensures var (w, rest) := ParseArg(s, q).value;
            && |w| + |rest| <= |s|
            && (s != "" && s[0] != '\0' ==> |rest| < |s|)
            && (q == Outside && |w| == |s| ==> Plain(s))
    decreases |s|
  {
    if s != "" && s[0] != '\0' {
      match q
      case Outside =>
        if s[0] == '\"' { ParsedLength(s[1..], Double); }
        else if s[0] == '\'' { ParsedLength(s[1..], Single); }
        else if !Breaking(s[0]) {
          ParsedLength(s[1..], Outside);
          assert s == [s[0]] + s[1..];
        }
      case Double =>
        if |s| >= 4 && s[0] == '\\' && s[1] == 'x' && HexDigit(s[2]) && HexDigit(s[3]) { ParsedLength(s[4..], Double); }
        else if |s| >= 2 && s[0] == '\\' && s[1] != '\0' { ParsedLength(s[2..], Double); }
        else if s[0] == '\"' { ParsedLength(s[1..], Outside); }
        else { ParsedLength(s[1..], Double); }
      case Single =>
        if |s| >= 2 && s[0] == '\\' && s[1] == '\'' { ParsedLength(s[2..], Single); }
        else if s[0] == '\'' { ParsedLength(s[1..], Outside); }
        else { ParsedLength(s[1..], Single); }
    }
  }

  /** sdssplitargs: all arguments, or nothing if quotes are not closed. */
  function SplitArgs(s: string): Option<seq<string>>
    decreases |s|
  {
    if s == "" || s[0] == '\0' then Some([])
    else if IsSpace(s[0]) then SplitArgs(s[1..])
    else
      var first := ParseArg(s, Outside);
      if first.None? then None
      else
        ParsedLength(s, Outside);
        var others := SplitArgs(first.value.1);
        if others.None? then None else Some([first.value.0] + others.value)
  }

  /** Every argument of a text with a breaking character is shorter than the text. */
  lemma {:induction false} SplitLengths(s: string, i: nat)
    requires SplitArgs(s).Some? && i < |SplitArgs(s).value|
    ensures |SplitArgs(s).value[i]| <= |s|
    ensures !Plain(s) ==> |SplitArgs(s).value[i]| < |s|
    decreases |s|
  {
    if IsSpace(s[0]) {
      SplitLengths(s[1..], i);
    } else {
      ParsedLength(s, Outside);
      hide ParseArg;
      if i > 0 { SplitLengths(ParseArg(s, Outside).value.1, i - 1); }
    }
  }

  lemma {:induction false} ParseWord(t: string, s: string)
    requires Plain(t) && (s == "" || s[0] == ' ')
    ensures ParseArg(t + s, Outside) == Some((t, if s == "" then "" else s[1..]))
    decreases |t|
  {
    if t == "" {
      assert t + s == s;
    } else {
      assert (t + s)[1..] == t[1..] + s;
      ParseWord(t[1..], s);
      assert [t[0]] + t[1..] == t;
    }
  }

  /** A rule at the head of a string is its first argument. */
  lemma SplitFirst(t: Rule, s: string)
    requires IsRule(t)
    ensures SplitArgs(t + " " + s) == if SplitArgs(s).None? then None else Some([t] + SplitArgs(s).value)
    ensures SplitArgs(t) == Some([t])
  {
    assert !IsSpace(t[0]) && !Breaking(t[0]);
    assert t + " " + s == t + (" " + s) && (" " + s)[1..] == s;
    ParseWord(t, " " + s);
    ParseWord(t, "");
    assert t + "" == t && [t] + [] == [t];
    hide ParseArg;
    assert SplitArgs("") == Some([]);
  }

  /** Splitting what was joined gives the rules back. */
  lemma {:induction false} SplitJoin(ts: seq<Rule>)
    requires IsRules(ts)
    ensures SplitArgs(Join(ts)) == Some(ts)
  {
    hide SplitArgs, IsRule;
    if ts == [] {
      SplitNothing();
    } else {
      SplitFirst(ts[0], Join(ts[1..]));
      if |ts| > 1 { SplitJoin(ts[1..]); } else { assert ts == [ts[0]]; }
      assert ts == [ts[0]] + ts[1..];
    }
  }

  lemma SplitNothing()
    ensures SplitArgs("") == Some([])
  {
  }

  /** The rules in front of a text are split off one by one. */
  lemma {:induction false} SplitBehind(ts: seq<Rule>, s: string)
    requires IsRules(ts)
    ensures SplitArgs(Join(ts + [s])) == if SplitArgs(s).None? then None else Some(ts + SplitArgs(s).value)
  {
    hide SplitArgs, IsRule;
    if ts == [] {
      assert [] + [s] == [s];
      if SplitArgs(s).Some? { assert [] + SplitArgs(s).value == SplitArgs(s).value; }
    } else {
      SplitBehind(ts[1..], s);
      var us := ts + [s];
      assert us[1..] == ts[1..] + [s] && us[0] == ts[0];
      SplitFirst(ts[0], Join(us[1..]));
      if SplitArgs(s).Some? { assert [ts[0]] + (ts[1..] + SplitArgs(s).value) == ts + SplitArgs(s).value; }
    }
  }

  // ---------------------------------------------------------------- rule lists in normal form

  /** No rule is covered by a later one. */
  predicate Normal(ts: seq<Rule>) {
    forall i, j :: 0 <= i < j < |ts| && |ts[j]| >= 1 ==> !Matches(ts[i], ts[j][1..])
  }

  lemma {:induction false} WithoutNothing(ts: seq<Rule>, text: string)
    requires forall i :: 0 <= i < |ts| ==> !Matches(ts[i], text)
    ensures Without(ts, text) == ts
  {
    if ts != [] {
      WithoutNothing(ts[..|ts| - 1], text);
      assert ts == ts[..|ts| - 1] + [ts[|ts| - 1]];
    }
  }

  lemma {:induction false} WithoutNormal(ts: seq<Rule>, text: string)
    requires Normal(ts)
    ensures Normal(Without(ts, text))
  {
    if ts != [] {
      var most, last := ts[..|ts| - 1], ts[|ts| - 1];
      WithoutNormal(most, text);
      WithoutMembers(most, text);
      var kept := Without(most, text);
      forall i | 0 <= i < |kept| && |last| >= 1 ensures !Matches(kept[i], last[1..]) {
        assert kept[i] in kept;
        var k :| 0 <= k < |most| && most[k] == kept[i];
        assert ts[k] == kept[i];
      }
    }
  }

  lemma UpdatedNormal(ts: seq<Rule>, text: string, allow: bool)
    requires Normal(ts)
    ensures Normal(Updated(ts, text, allow))
  {
    WithoutNormal(ts, text);
    WithoutMembers(ts, text);
    assert Signed(text, allow)[1..] == text;
    var kept := Without(ts, text);
    forall i | 0 <= i < |kept| ensures !Matches(kept[i], text) { assert kept[i] in kept; }
  }

  /** Adding the rules of a normal list one by one, in order, builds the list itself. */
  lemma NormalReplays(ts: seq<Rule>, k: nat)
    requires Normal(ts) && IsRules(ts) && k < |ts|
    ensures Updated(ts[..k], ts[k][1..], ts[k][0] == '+') == ts[..k + 1]
  {
    var t := ts[k];
    WithoutNothing(ts[..k], t[1..]);
    SignedBack(t);
    hide Without, Signed, Normal, IsRules, Matches;
    assert ts[..k] + [t] == ts[..k + 1];
  }

  lemma SignedBack(t: Rule)
    requires IsRule(t)
    ensures Signed(t[1..], t[0] == '+') == t
  {
  }
}
