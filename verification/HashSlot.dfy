/**
 Key slots of the cluster: keyHashSlot hashes a key or its {tag}; patternHashSlot infers
 the only slot a glob pattern can match. The hash itself is a parameter.
 */
module HashSlot {

  const SLOTS := 16384

  type Hash = string -> nat

  // ---------------------------------------------------------------- the hashed part of a key

  /** Index of the first c in s at or after `from`, or |s|. */
  function IndexFrom(s: string, c: char, from: nat): (i: nat)
    requires from <= |s|
    ensures from <= i <= |s|
    ensures i < |s| ==> s[i] == c
    ensures forall k :: from <= k < i ==> s[k] != c
    decreases |s| - from
  {
    if from == |s| || s[from] == c then from else IndexFrom(s, c, from + 1)
  }

  function OpenAt(s: string): nat { IndexFrom(s, '{', 0) }

  /** The first closing brace after the first opening one. */
  function CloseAt(s: string): (e: nat)
    ensures e <= |s|
  {
    if OpenAt(s) == |s| then |s| else IndexFrom(s, '}', OpenAt(s) + 1)
  }

  predicate HasTag(s: string) { CloseAt(s) < |s| && CloseAt(s) > OpenAt(s) + 1 }

  function HashedPart(s: string): string {
    if HasTag(s) then s[OpenAt(s) + 1..CloseAt(s)] else s
  }

  function Slot(hash: Hash, key: string): nat { hash(HashedPart(key)) % SLOTS }

  /** keyHashSlot. */
  method KeyHashSlot(hash: Hash, key: string) returns (slot: nat)
    ensures slot == Slot(hash, key) && slot < SLOTS
  {
    var s := 0;
    while s < |key| && key[s] != '{'
      invariant 0 <= s <= |key|
      invariant forall k :: 0 <= k < s ==> key[k] != '{'
    {
      s := s + 1;
    }
    assert s == OpenAt(key);
    if s == |key| { return hash(key) % SLOTS; }
    var e := s + 1;
    while e < |key| && key[e] != '}'
      invariant s + 1 <= e <= |key|
      invariant forall k :: s + 1 <= k < e ==> key[k] != '}'
    {
      e := e + 1;
    }
    assert e == CloseAt(key);
    if e == |key| || e == s + 1 { return hash(key) % SLOTS; }
    slot := hash(key[s + 1..e]) % SLOTS;
  }

  lemma IndexIs(s: string, c: char, from: nat, i: nat)
    requires from <= i < |s| && s[i] == c && forall k :: from <= k < i ==> s[k] != c
    ensures IndexFrom(s, c, from) == i
  {
  }

  /** The text between the first opening brace and the first closing one behind it decides, if there is any. */
  lemma TagDecides(hash: Hash, pre: string, tag: string, post: string)
    requires '{' !in pre && '}' !in tag && tag != ""
    ensures Slot(hash, pre + "{" + tag + "}" + post) == hash(tag) % 16384
  {
    var s := pre + "{" + tag + "}" + post;
    IndexIs(s, '{', 0, |pre|);
    IndexIs(s, '}', |pre| + 1, |pre| + 1 + |tag|);
    assert s[|pre| + 1..|pre| + 1 + |tag|] == tag;
  }

  /** So keys with the same tag, and the tag itself, have the same slot. */
  lemma SameTagSameSlot(hash: Hash, pre: string, tag: string, post: string)
    requires '{' !in pre && '{' !in tag && '}' !in tag && tag != ""
    ensures Slot(hash, pre + "{" + tag + "}" + post) == Slot(hash, tag)
  {
    TagDecides(hash, pre, tag, post);
  }

  /** Otherwise all of the key decides: no opening brace, none that is closed, or nothing between the two. */
  lemma WholeKeyDecides(hash: Hash, pre: string, rest: string)
    requires '{' !in pre
    ensures Slot(hash, pre) == hash(pre) % 16384
    ensures '}' !in rest ==> Slot(hash, pre + "{" + rest) == hash(pre + "{" + rest) % 16384
    ensures Slot(hash, pre + "{}" + rest) == hash(pre + "{}" + rest) % 16384
  {
    var open, empty := pre + "{" + rest, pre + "{}" + rest;
    IndexIs(open, '{', 0, |pre|);
    IndexIs(empty, '{', 0, |pre|);
    IndexIs(empty, '}', |pre| + 1, |pre| + 1);
    assert open[|pre| + 1..] == rest;
  }

  // ---------------------------------------------------------------- glob patterns

  predicate Special(c: char) { c == '*' || c == '?' || c == '[' || c == '\\' }

  function SkipStars(p: string): (q: string)
    ensures |q| <= |p|
  {
    if p != "" && p[0] == '*' then SkipStars(p[1..]) else p
  }

  /**
   The members of a character class, from after `[` or `[^`: whether c is one of them and
   what is left of the pattern. An unclosed class swallows the rest of the pattern.
   */
  function ClassMatch(p: string, c: char, found: bool): (r: (bool, string))
    ensures |r.1| <= |p|
  {
    if |p| >= 2 && p[0] == '\\' then ClassMatch(p[2..], c, found || p[1] == c)
    else if p == "" then (found, "")
    else if p[0] == ']' then (found, p[1..])
    else if |p| >= 3 && p[1] == '-' then
      var lo, hi := if p[0] <= p[2] then p[0] else p[2], if p[0] <= p[2] then p[2] else p[0];
      ClassMatch(p[3..], c, found || lo <= c <= hi)
    else ClassMatch(p[1..], c, found || p[0] == c)
  }

  /** stringmatchlen, case sensitive, without its limit on nested stars. */
  predicate Glob(p: string, s: string)
    decreases |p|, |s|, 1
  {
    if p == "" || s == "" then p == "" && s == ""
    else if p[0] == '*' then
      SkipStars(p) == "" || exists k :: 0 <= k < |s| && Glob(SkipStars(p[1..]), s[k..])
    else if p[0] == '?' then GlobRest(p[1..], s[1..])
    else if p[0] == '[' then
      var negated := |p| >= 2 && p[1] == '^';
      var r := ClassMatch(if negated then p[2..] else p[1..], s[0], false);
      r.0 != negated && GlobRest(r.1, s[1..])
    else if p[0] == '\\' && |p| >= 2 then p[1] == s[0] && GlobRest(p[2..], s[1..])
    else p[0] == s[0] && GlobRest(p[1..], s[1..])
  }

  /** The pattern after one more character of the string was consumed. */
  predicate GlobRest(p: string, s: string)
    decreases |p|, |s|, 2
  {
    if s == "" then SkipStars(p) == "" else Glob(p, s)
  }

  /** A string that a pattern matches starts with the pattern's leading ordinary characters. */
  lemma {:induction false} LiteralPrefix(p: string, s: string, n: nat)
    requires Glob(p, s) && n <= |p| && forall i :: 0 <= i < n ==> !Special(p[i])
    ensures n <= |s| && s[..n] == p[..n]
    ensures n == |p| ==> s == p
    decreases n
  {
    if n > 0 {
      assert p[0] == s[0] && GlobRest(p[1..], s[1..]);
      if s[1..] != "" {
        LiteralPrefix(p[1..], s[1..], n - 1);
        assert s[..n] == [s[0]] + s[1..][..n - 1] && p[..n] == [p[0]] + p[1..][..n - 1];
        assert p == [p[0]] + p[1..] && s == [s[0]] + s[1..];
      } else {
        assert s == [s[0]] && p == [p[0]] + p[1..];
      }
    }
  }

  // ---------------------------------------------------------------- the slot of a pattern

  /** Where the part that decides the slot ends: at the closing brace of a tag, or nowhere. */
  function DecidedAt(p: string): (e: nat)
    ensures e <= |p|
  {
    if HasTag(p) then CloseAt(p) else |p|
  }

  /** Strings that agree up to the closing brace of a tag have the same tag. */
  lemma SameTag(p: string, k: string)
    requires HasTag(p) && CloseAt(p) < |k| && k[..CloseAt(p) + 1] == p[..CloseAt(p) + 1]
    ensures HashedPart(k) == HashedPart(p)
  {
    var s, e := OpenAt(p), CloseAt(p);
    assert forall i :: 0 <= i <= e ==> k[i] == p[i] by {
      assert forall i :: 0 <= i <= e ==> k[..e + 1][i] == k[i] && p[..e + 1][i] == p[i];
    }
    assert OpenAt(k) == s;
    assert CloseAt(k) == e;
    assert k[s + 1..e] == k[..e + 1][s + 1..e] && p[s + 1..e] == p[..e + 1][s + 1..e];
  }

  /** Every key a pattern matches has the pattern's own slot, if nothing special decides it. */
  lemma PatternDecides(hash: Hash, p: string, k: string)
    requires Glob(p, k) && forall i :: 0 <= i < DecidedAt(p) ==> !Special(p[i])
    ensures Slot(hash, k) == Slot(hash, p)
  {
    if HasTag(p) {
      var e := CloseAt(p);
      assert p[e] == '}';
      LiteralPrefix(p, k, e + 1);
      SameTag(p, k);
    } else {
      LiteralPrefix(p, k, |p|);
    }
  }

  /** The deciding point is the end of the tag that TagDecides speaks of, or the end of the pattern. */
  lemma DecidedMeans(pre: string, tag: string, post: string)
    requires '{' !in pre && '}' !in tag
    ensures tag != "" ==> DecidedAt(pre + "{" + tag + "}" + post) == |pre| + 1 + |tag|
    ensures DecidedAt(pre + "{}" + post) == |pre| + 2 + |post|
    ensures DecidedAt(pre) == |pre| && DecidedAt(pre + "{" + tag) == |pre| + 1 + |tag|
  {
    var whole, empty, open := pre + "{" + tag + "}" + post, pre + "{}" + post, pre + "{" + tag;
    IndexIs(whole, '{', 0, |pre|);
    IndexIs(whole, '}', |pre| + 1, |pre| + 1 + |tag|);
    IndexIs(empty, '{', 0, |pre|);
    IndexIs(empty, '}', |pre| + 1, |pre| + 1);
    IndexIs(open, '{', 0, |pre|);
    assert open[|pre| + 1..] == tag;
  }

  /**
   patternHashSlot: one scan for special characters and braces. A slot is returned exactly
   when no special character comes before the deciding point, and then every key that the
   pattern matches lives in that slot.
   */
  method PatternHashSlot(hash: Hash, p: string) returns (slot: int)
    ensures slot == -1 <==> exists i :: 0 <= i < DecidedAt(p) && Special(p[i])
    ensures slot != -1 ==> slot == Slot(hash, p) && forall k :: Glob(p, k) ==> Slot(hash, k) == slot
  {
    hide Glob, Slot, DecidedAt, HasTag;
    var s := -1;
    for i := 0 to |p|
      invariant forall k :: 0 <= k < i ==> !Special(p[k])
      invariant s == -1 ==> forall k :: 0 <= k < i ==> p[k] != '{'
      invariant s >= 0 ==> s == OpenAt(p) < i && forall k :: s < k < i ==> p[k] != '}'
      invariant s == -2 ==> OpenAt(p) + 1 < i && CloseAt(p) == OpenAt(p) + 1
      invariant s >= -2
    {
      if p[i] == '*' || p[i] == '?' || p[i] == '[' {
        SpecialDecides(p, i, s);
        return -1;
      } else if p[i] == '\\' {
        SpecialDecides(p, i, s);
        return -1;
      } else if s == -1 && p[i] == '{' {
        s := i;
        assert s == OpenAt(p);
      } else if s >= 0 && p[i] == '}' && i == s + 1 {
        assert CloseAt(p) == i;
        s := -2;
      } else if s >= 0 && p[i] == '}' {
        slot := hash(p[s + 1..i]) % SLOTS;
        TagFound(hash, p, i, s);
        return;
      }
    }
    slot := hash(p) % SLOTS;
    NoTagFound(hash, p, s);
  }

  /** The scan closes a tag at i. */
  lemma TagFound(hash: Hash, p: string, i: nat, s: nat)
    requires s == OpenAt(p) && s + 1 < i < |p| && p[i] == '}' && forall k :: s < k < i ==> p[k] != '}'
    requires forall k :: 0 <= k < i ==> !Special(p[k])
    ensures Slot(hash, p) == hash(p[s + 1..i]) % SLOTS
    ensures forall k :: 0 <= k < DecidedAt(p) ==> !Special(p[k])
    ensures forall k :: Glob(p, k) ==> Slot(hash, k) == Slot(hash, p)
  {
    assert CloseAt(p) == i && HasTag(p);
    hide Glob;
    AllDecided(hash, p);
  }

  /** The scan ends without a tag. */
  lemma NoTagFound(hash: Hash, p: string, s: int)
    requires s == -1 ==> '{' !in p
    requires s >= 0 ==> s == OpenAt(p) && forall k :: s < k < |p| ==> p[k] != '}'
    requires s == -2 ==> CloseAt(p) == OpenAt(p) + 1
    requires s >= -2 && forall k :: 0 <= k < |p| ==> !Special(p[k])
    ensures Slot(hash, p) == hash(p) % SLOTS
    ensures forall k :: 0 <= k < DecidedAt(p) ==> !Special(p[k])
    ensures forall k :: Glob(p, k) ==> Slot(hash, k) == Slot(hash, p)
  {
    assert !HasTag(p);
    hide Glob;
    AllDecided(hash, p);
  }

  lemma AllDecided(hash: Hash, p: string)
    requires forall i :: 0 <= i < DecidedAt(p) ==> !Special(p[i])
    ensures forall k :: Glob(p, k) ==> Slot(hash, k) == Slot(hash, p)
  {
    forall k | Glob(p, k) ensures Slot(hash, k) == Slot(hash, p) { PatternDecides(hash, p, k); }
  }

  /** No tag closed before i, so a special character there is before the deciding point. */
  lemma SpecialDecides(p: string, i: nat, s: int)
    requires i < |p| && Special(p[i])
    requires s == -1 ==> forall k :: 0 <= k < i ==> p[k] != '{'
    requires s >= 0 ==> s == OpenAt(p) < i && forall k :: s < k < i ==> p[k] != '}'
    requires s == -2 ==> CloseAt(p) == OpenAt(p) + 1
    requires s >= -2
    ensures i < DecidedAt(p)
  {
  }
}
