/** BITOP (bitops.c): bitwise operations over any number of strings of different lengths. */
module Bitop {

  import opened Bitmap
  import opened Popcount

  datatype BitOperation = And | Or | Xor | Not

  type Source = Stored

  function Bytes(s: Source): seq<Byte> { if s.Missing? then [] else s.bytes }

  /** A byte of a string that is followed by zeros. */
  function At(s: Source, j: nat): Byte { if j < |Bytes(s)| then Bytes(s)[j] else 0 }

  /** One operation on bytes; NOT leaves the byte, it acts on the first operand only. */
  function Apply(op: BitOperation, a: Byte, b: Byte): Byte {
    match op
    case And => a & b
    case Or => a | b
    case Xor => a ^ b
    case Not => a
  }

  function Flip(b: Byte): Byte { !b }

  function Start(op: BitOperation, b: Byte): Byte { if op == Not then Flip(b) else b }

  /** The operation folded over byte j of the first n zero-padded strings. */
  function Fold(op: BitOperation, srcs: seq<Source>, j: nat, n: nat): Byte
    requires 0 < n <= |srcs|
  {
    if n == 1 then Start(op, At(srcs[0], j)) else Apply(op, Fold(op, srcs, j, n - 1), At(srcs[n - 1], j))
  }

  /** Once nothing can change the result any more, the rest of the fold does not. */
  predicate Settled(op: BitOperation, b: Byte) { (op == And && b == 0) || (op == Or && b == 0xFF) }

  lemma SettledStays(op: BitOperation, a: Byte, b: Byte)
    requires Settled(op, a)
    ensures Apply(op, a, b) == a
  {
  }

  lemma {:induction false} FoldSettled(op: BitOperation, srcs: seq<Source>, j: nat, n: nat, m: nat)
    requires 0 < n <= m <= |srcs| && Settled(op, Fold(op, srcs, j, n))
    ensures Fold(op, srcs, j, m) == Fold(op, srcs, j, n)
  {
    hide Apply, Settled;
    if n < m {
      FoldSettled(op, srcs, j, n, m - 1);
      SettledStays(op, Fold(op, srcs, j, n), At(srcs[m - 1], j));
    }
  }

  // ---------------------------------------------------------------- bit by bit

  /** The string is long enough to have bit b of byte k, and has it set. */
  predicate Has(s: Source, k: nat, b: nat)
    requires b < 8
  {
    s.Text? && k < |s.bytes| && BitOf(s.bytes[k], b)
  }

  function Parity(srcs: seq<Source>, k: nat, b: nat, n: nat): bool
    requires n <= |srcs| && b < 8
  {
    n > 0 && (Parity(srcs, k, b, n - 1) != Has(srcs[n - 1], k, b))
  }

  lemma AtHas(s: Source, k: nat, b: nat)
    requires b < 8
    ensures BitOf(At(s, k), b) <==> Has(s, k, b)
  {
  }

  /** What bit b of byte k of the result is to be, by the same bits of the strings. */
  ghost predicate Meant(op: BitOperation, srcs: seq<Source>, k: nat, b: nat, n: nat)
    requires 0 < n <= |srcs| && b < 8
  {
    match op
    case And => forall i :: 0 <= i < n ==> Has(srcs[i], k, b)
    case Or => exists i :: 0 <= i < n && Has(srcs[i], k, b)
    case Xor => Parity(srcs, k, b, n)
    case Not => !Has(srcs[0], k, b)
  }

  function Joint(op: BitOperation, x: bool, y: bool): bool {
    match op
    case And => x && y
    case Or => x || y
    case Xor => x != y
    case Not => x
  }

  lemma MeantStep(op: BitOperation, srcs: seq<Source>, k: nat, b: nat, n: nat)
    requires 0 < n < |srcs| && b < 8
    ensures Meant(op, srcs, k, b, n + 1) <==> Joint(op, Meant(op, srcs, k, b, n), Has(srcs[n], k, b))
  {
    hide Has;
  }

  lemma ApplyBits(op: BitOperation, x: Byte, y: Byte, b: nat)
    requires b < 8
    ensures BitOf(Apply(op, x, y), b) == Joint(op, BitOf(x, b), BitOf(y, b))
  {
    hide BitOf;
    match op
    case And => BitAnd(x, y, b);
    case Or => BitOr(x, y, b);
    case Xor => BitXor(x, y, b);
    case Not =>
  }

  lemma StartBits(op: BitOperation, x: Byte, b: nat)
    requires b < 8
    ensures BitOf(Start(op, x), b) == if op == Not then !BitOf(x, b) else BitOf(x, b)
  {
    hide BitOf;
    if op == Not { BitNot(x, b); }
  }

  /** The result bit by bit: all strings, some string, an odd number of them, or not the one string. */
  lemma {:induction false} FoldBits(op: BitOperation, srcs: seq<Source>, k: nat, b: nat, n: nat)
    requires 0 < n <= |srcs| && b < 8
    ensures BitOf(Fold(op, srcs, k, n), b) <==> Meant(op, srcs, k, b, n)
  {
    hide BitOf, Has, At, Meant, Apply, Start, Joint;
    AtHas(srcs[n - 1], k, b);
    if n == 1 {
      StartBits(op, At(srcs[0], k), b);
      MeantOne(op, srcs, k, b);
    } else {
      FoldBits(op, srcs, k, b, n - 1);
      ApplyBits(op, Fold(op, srcs, k, n - 1), At(srcs[n - 1], k), b);
      MeantStep(op, srcs, k, b, n - 1);
    }
  }

  lemma MeantOne(op: BitOperation, srcs: seq<Source>, k: nat, b: nat)
    requires srcs != [] && b < 8
    ensures Meant(op, srcs, k, b, 1) <==> if op == Not then !Has(srcs[0], k, b) else Has(srcs[0], k, b)
  {
    hide Has;
    assert !Parity(srcs, k, b, 0);
  }

  lemma BitXor(x: Byte, y: Byte, b: nat)
    requires b < 8
    ensures BitOf(x ^ y, b) <==> BitOf(x, b) != BitOf(y, b)
  {
    UnitSingle(b);
    hide Unit;
    XorSingle(x, y, Unit(b));
  }

  lemma XorSingle(x: Byte, y: Byte, u: Byte)
    requires Single(u)
    ensures (x ^ y) & u != 0 <==> (x & u != 0) != (y & u != 0)
  {
  }

  // ---------------------------------------------------------------- words

  /** The bytes of a 32-bit word, as they are stored. */
  function Byte0(x: bv32): Byte { (x & 0xFF) as Byte }

  function Byte1(x: bv32): Byte { ((x >> 8) & 0xFF) as Byte }

  function Byte2(x: bv32): Byte { ((x >> 16) & 0xFF) as Byte }

  function Byte3(x: bv32): Byte { ((x >> 24) & 0xFF) as Byte }

  lemma BytesOfWord(a: Byte, b: Byte, c: Byte, d: Byte)
    ensures var x := Word(a, b, c, d); Byte0(x) == a && Byte1(x) == b && Byte2(x) == c && Byte3(x) == d
  {
  }

  /** A 64-bit word by its halves. */
  function Wide(lo: bv32, hi: bv32): bv64 { lo as bv64 | (hi as bv64 << 32) }

  function LowHalf(x: bv64): bv32 { (x & 0xFFFF_FFFF) as bv32 }

  function HighHalf(x: bv64): bv32 { (x >> 32) as bv32 }

  lemma HalvesOfWide(lo: bv32, hi: bv32)
    ensures LowHalf(Wide(lo, hi)) == lo && HighHalf(Wide(lo, hi)) == hi
  {
  }

  /** The operators on machine words. */
  function Apply32(op: BitOperation, x: bv32, y: bv32): bv32 {
    match op
    case And => x & y
    case Or => x | y
    case Xor => x ^ y
    case Not => x
  }

  function Apply64(op: BitOperation, x: bv64, y: bv64): bv64 {
    match op
    case And => x & y
    case Or => x | y
    case Xor => x ^ y
    case Not => x
  }

  function Flip32(x: bv32): bv32 { !x }

  function Flip64(x: bv64): bv64 { !x }

  /** The operators of a 32-bit word act on each of its bytes. */
  lemma WordAnd(a: Byte, b: Byte, c: Byte, d: Byte, a': Byte, b': Byte, c': Byte, d': Byte)
    ensures Word(a, b, c, d) & Word(a', b', c', d') == Word(a & a', b & b', c & c', d & d')
  {
  }

  lemma WordOr(a: Byte, b: Byte, c: Byte, d: Byte, a': Byte, b': Byte, c': Byte, d': Byte)
    ensures Word(a, b, c, d) | Word(a', b', c', d') == Word(a | a', b | b', c | c', d | d')
  {
  }

  lemma WordXor(a: Byte, b: Byte, c: Byte, d: Byte, a': Byte, b': Byte, c': Byte, d': Byte)
    ensures Word(a, b, c, d) ^ Word(a', b', c', d') == Word(a ^ a', b ^ b', c ^ c', d ^ d')
  {
  }

  lemma WordNot(a: Byte, b: Byte, c: Byte, d: Byte)
    ensures !Word(a, b, c, d) == Word(!a, !b, !c, !d)
  {
  }

  lemma FlipBytes(a: Byte, b: Byte, c: Byte, d: Byte)
    ensures Flip32(Word(a, b, c, d)) == Word(Flip(a), Flip(b), Flip(c), Flip(d))
  {
    hide Word;
    WordNot(a, b, c, d);
  }

  lemma AndBytes(a: Byte, b: Byte, c: Byte, d: Byte, a': Byte, b': Byte, c': Byte, d': Byte)
    ensures Apply32(And, Word(a, b, c, d), Word(a', b', c', d')) ==
            Word(Apply(And, a, a'), Apply(And, b, b'), Apply(And, c, c'), Apply(And, d, d'))
  {
    hide Word;
    WordAnd(a, b, c, d, a', b', c', d');
  }

  lemma OrBytes(a: Byte, b: Byte, c: Byte, d: Byte, a': Byte, b': Byte, c': Byte, d': Byte)
    ensures Apply32(Or, Word(a, b, c, d), Word(a', b', c', d')) ==
            Word(Apply(Or, a, a'), Apply(Or, b, b'), Apply(Or, c, c'), Apply(Or, d, d'))
  {
    hide Word;
    WordOr(a, b, c, d, a', b', c', d');
  }

  lemma XorBytes(a: Byte, b: Byte, c: Byte, d: Byte, a': Byte, b': Byte, c': Byte, d': Byte)
    ensures Apply32(Xor, Word(a, b, c, d), Word(a', b', c', d')) ==
            Word(Apply(Xor, a, a'), Apply(Xor, b, b'), Apply(Xor, c, c'), Apply(Xor, d, d'))
  {
    hide Word;
    WordXor(a, b, c, d, a', b', c', d');
  }

  lemma KeptBytes(x: bv32, y: bv32, a: Byte, a': Byte)
    ensures Apply32(Not, x, y) == x && Apply(Not, a, a') == a
  {
  }

  lemma ApplyToBytes(op: BitOperation, a: Byte, b: Byte, c: Byte, d: Byte, a': Byte, b': Byte, c': Byte, d': Byte)
    ensures Apply32(op, Word(a, b, c, d), Word(a', b', c', d')) ==
            Word(Apply(op, a, a'), Apply(op, b, b'), Apply(op, c, c'), Apply(op, d, d'))
  {
    hide *;
    match op
    case And => AndBytes(a, b, c, d, a', b', c', d');
    case Or => OrBytes(a, b, c, d, a', b', c', d');
    case Xor => XorBytes(a, b, c, d, a', b', c', d');
    case Not =>
      KeptBytes(Word(a, b, c, d), Word(a', b', c', d'), a, a');
      KeptBytes(Word(a, b, c, d), Word(a', b', c', d'), b, b');
      KeptBytes(Word(a, b, c, d), Word(a', b', c', d'), c, c');
      KeptBytes(Word(a, b, c, d), Word(a', b', c', d'), d, d');
  }

  /** The operators of a 64-bit word act on its halves. */
  lemma AndHalves(lo: bv32, hi: bv32, lo': bv32, hi': bv32)
    ensures Apply64(And, Wide(lo, hi), Wide(lo', hi')) == Wide(Apply32(And, lo, lo'), Apply32(And, hi, hi'))
  {
  }

  lemma OrHalves(lo: bv32, hi: bv32, lo': bv32, hi': bv32)
    ensures Apply64(Or, Wide(lo, hi), Wide(lo', hi')) == Wide(Apply32(Or, lo, lo'), Apply32(Or, hi, hi'))
  {
  }

  lemma XorHalves(lo: bv32, hi: bv32, lo': bv32, hi': bv32)
    ensures Apply64(Xor, Wide(lo, hi), Wide(lo', hi')) == Wide(Apply32(Xor, lo, lo'), Apply32(Xor, hi, hi'))
  {
  }

  lemma KeptHalves(lo: bv32, hi: bv32, lo': bv32, hi': bv32)
    ensures Apply64(Not, Wide(lo, hi), Wide(lo', hi')) == Wide(Apply32(Not, lo, lo'), Apply32(Not, hi, hi'))
  {
  }

  lemma ApplyToHalves(op: BitOperation, lo: bv32, hi: bv32, lo': bv32, hi': bv32)
    ensures Apply64(op, Wide(lo, hi), Wide(lo', hi')) == Wide(Apply32(op, lo, lo'), Apply32(op, hi, hi'))
  {
    hide *;
    match op
    case And => AndHalves(lo, hi, lo', hi');
    case Or => OrHalves(lo, hi, lo', hi');
    case Xor => XorHalves(lo, hi, lo', hi');
    case Not => KeptHalves(lo, hi, lo', hi');
  }

  /** The bytes of four combined bytes, seen through their words. */
  lemma CombinedBytes(op: BitOperation, s: seq<Byte>, t: seq<Byte>, at: nat)
    requires at + 4 <= |s| && at + 4 <= |t|
    ensures var x := Apply32(op, Load(s, at), Load(t, at));
            && Byte0(x) == Apply(op, s[at], t[at]) && Byte1(x) == Apply(op, s[at + 1], t[at + 1])
            && Byte2(x) == Apply(op, s[at + 2], t[at + 2]) && Byte3(x) == Apply(op, s[at + 3], t[at + 3])
  {
    hide Word, Apply, Apply32, Byte0, Byte1, Byte2, Byte3;
    ApplyToBytes(op, s[at], s[at + 1], s[at + 2], s[at + 3], t[at], t[at + 1], t[at + 2], t[at + 3]);
    BytesOfWord(Apply(op, s[at], t[at]), Apply(op, s[at + 1], t[at + 1]),
                Apply(op, s[at + 2], t[at + 2]), Apply(op, s[at + 3], t[at + 3]));
  }

  lemma WideNot(lo: bv32, hi: bv32)
    ensures !Wide(lo, hi) == Wide(!lo, !hi)
  {
  }

  lemma FlipHalves(lo: bv32, hi: bv32)
    ensures Flip64(Wide(lo, hi)) == Wide(Flip32(lo), Flip32(hi))
  {
    hide Wide;
    WideNot(lo, hi);
  }

  lemma InvertedBytes(s: seq<Byte>, at: nat)
    requires at + 4 <= |s|
    ensures var x := Flip32(Load(s, at));
            && Byte0(x) == Flip(s[at]) && Byte1(x) == Flip(s[at + 1])
            && Byte2(x) == Flip(s[at + 2]) && Byte3(x) == Flip(s[at + 3])
  {
    hide Word, Flip, Flip32, Byte0, Byte1, Byte2, Byte3;
    FlipBytes(s[at], s[at + 1], s[at + 2], s[at + 3]);
    BytesOfWord(Flip(s[at]), Flip(s[at + 1]), Flip(s[at + 2]), Flip(s[at + 3]));
  }

  /** Eight bytes as a word. */
  function LoadWide(s: seq<Byte>, at: nat): bv64
    requires at + 8 <= |s|
  {
    Wide(Load(s, at), Load(s, at + 4))
  }

  lemma CombinedHalves(op: BitOperation, s: seq<Byte>, t: seq<Byte>, at: nat)
    requires at + 8 <= |s| && at + 8 <= |t|
    ensures var x := Apply64(op, LoadWide(s, at), LoadWide(t, at));
            && LowHalf(x) == Apply32(op, Load(s, at), Load(t, at))
            && HighHalf(x) == Apply32(op, Load(s, at + 4), Load(t, at + 4))
  {
    hide Apply32, Apply64, Load, Wide, LowHalf, HighHalf;
    ApplyToHalves(op, Load(s, at), Load(s, at + 4), Load(t, at), Load(t, at + 4));
    HalvesOfWide(Apply32(op, Load(s, at), Load(t, at)), Apply32(op, Load(s, at + 4), Load(t, at + 4)));
  }

  lemma InvertedHalves(s: seq<Byte>, at: nat)
    requires at + 8 <= |s|
    ensures var x := Flip64(LoadWide(s, at));
            LowHalf(x) == Flip32(Load(s, at)) && HighHalf(x) == Flip32(Load(s, at + 4))
  {
    hide Flip32, Flip64, Load, Wide, LowHalf, HighHalf;
    FlipHalves(Load(s, at), Load(s, at + 4));
    HalvesOfWide(Flip32(Load(s, at)), Flip32(Load(s, at + 4)));
  }

  /** Stores a 32-bit word. */
  method Store(res: array<Byte>, at: nat, x: bv32)
    requires at + 4 <= res.Length
    modifies res
    ensures res[at] == Byte0(x) && res[at + 1] == Byte1(x) && res[at + 2] == Byte2(x) && res[at + 3] == Byte3(x)
    ensures forall k :: 0 <= k < res.Length && !(at <= k < at + 4) ==> res[k] == old(res[k])
  {
    hide Byte0, Byte1, Byte2, Byte3;
    res[at], res[at + 1], res[at + 2], res[at + 3] := Byte0(x), Byte1(x), Byte2(x), Byte3(x);
  }

  /** lres[w] op= lp[i][w] on one machine word of 4 bytes, or of 8. */
  method CombineWord32(res: array<Byte>, at: nat, op: BitOperation, src: seq<Byte>)
    requires at + 4 <= res.Length && at + 4 <= |src|
    modifies res
    ensures forall k :: 0 <= k < res.Length ==>
              res[k] == if at <= k < at + 4 then Apply(op, old(res[k]), src[k]) else old(res[k])
  {
    CombinedBytes(op, res[..], src, at);
    hide Apply, Apply32, Load, Byte0, Byte1, Byte2, Byte3;
    Store(res, at, Apply32(op, Load(res[..], at), Load(src, at)));
  }

  method CombineWord64(res: array<Byte>, at: nat, op: BitOperation, src: seq<Byte>)
    requires at + 8 <= res.Length && at + 8 <= |src|
    modifies res
    ensures forall k :: 0 <= k < res.Length ==>
              res[k] == if at <= k < at + 8 then Apply(op, old(res[k]), src[k]) else old(res[k])
  {
    hide *;
    ghost var s := res[..];
    CombinedBytes(op, s, src, at);
    CombinedBytes(op, s, src, at + 4);
    CombinedHalves(op, s, src, at);
    var x := Apply64(op, LoadWide(res[..], at), LoadWide(src, at));
    Store(res, at, LowHalf(x));
    Store(res, at + 4, HighHalf(x));
  }

  method CombineWord(res: array<Byte>, at: nat, width: nat, op: BitOperation, src: seq<Byte>)
    requires (width == 4 || width == 8) && at + width <= res.Length && at + width <= |src|
    modifies res
    ensures forall k :: 0 <= k < res.Length ==>
              res[k] == if at <= k < at + width then Apply(op, old(res[k]), src[k]) else old(res[k])
  {
    hide *;
    if width == 4 { CombineWord32(res, at, op, src); } else { CombineWord64(res, at, op, src); }
  }

  /** lres[w] = ~lres[w]. */
  method InvertWord32(res: array<Byte>, at: nat)
    requires at + 4 <= res.Length
    modifies res
    ensures forall k :: 0 <= k < res.Length ==>
              res[k] == if at <= k < at + 4 then Flip(old(res[k])) else old(res[k])
  {
    InvertedBytes(res[..], at);
    hide *;
    Store(res, at, Flip32(Load(res[..], at)));
  }

  method InvertWord64(res: array<Byte>, at: nat)
    requires at + 8 <= res.Length
    modifies res
    ensures forall k :: 0 <= k < res.Length ==>
              res[k] == if at <= k < at + 8 then Flip(old(res[k])) else old(res[k])
  {
    hide *;
    ghost var s := res[..];
    InvertedBytes(s, at);
    InvertedBytes(s, at + 4);
    InvertedHalves(s, at);
    var x := Flip64(LoadWide(res[..], at));
    Store(res, at, LowHalf(x));
    Store(res, at + 4, HighHalf(x));
  }

  method InvertWord(res: array<Byte>, at: nat, width: nat)
    requires (width == 4 || width == 8) && at + width <= res.Length
    modifies res
    ensures forall k :: 0 <= k < res.Length ==>
              res[k] == if at <= k < at + width then Flip(old(res[k])) else old(res[k])
  {
    hide *;
    if width == 4 { InvertWord32(res, at); } else { InvertWord64(res, at); }
  }

  /** The four word operations of one turn for one string. */
  method CombineBlock(res: array<Byte>, at: nat, width: nat, op: BitOperation, src: seq<Byte>)
    requires (width == 4 || width == 8) && at + 4 * width <= res.Length && at + 4 * width <= |src|
    modifies res
    ensures forall k :: 0 <= k < res.Length ==>
              res[k] == if at <= k < at + 4 * width then Apply(op, old(res[k]), src[k]) else old(res[k])
  {
    hide Apply;
    CombineWord(res, at, width, op, src);
    CombineWord(res, at + width, width, op, src);
    CombineWord(res, at + 2 * width, width, op, src);
    CombineWord(res, at + 3 * width, width, op, src);
  }

  method InvertBlock(res: array<Byte>, at: nat, width: nat)
    requires (width == 4 || width == 8) && at + 4 * width <= res.Length
    modifies res
    ensures forall k :: 0 <= k < res.Length ==>
              res[k] == if at <= k < at + 4 * width then Flip(old(res[k])) else old(res[k])
  {
    InvertWord(res, at, width);
    InvertWord(res, at + width, width);
    InvertWord(res, at + 2 * width, width);
    InvertWord(res, at + 3 * width, width);
  }

  // ---------------------------------------------------------------- the loops

  /** Lengths of the strings: the longest, and the shortest. */
  predicate AllAtLeast(srcs: seq<Source>, n: nat) { forall i :: 0 <= i < |srcs| ==> n <= |Bytes(srcs[i])| }

  predicate AllAtMost(srcs: seq<Source>, n: nat) { forall i :: 0 <= i < |srcs| ==> |Bytes(srcs[i])| <= n }

  method Lengths(srcs: seq<Source>) returns (minLen: nat, maxLen: nat)
    requires srcs != []
    ensures AllAtLeast(srcs, minLen) && AllAtMost(srcs, maxLen)
    ensures exists i :: 0 <= i < |srcs| && |Bytes(srcs[i])| == minLen
    ensures exists i :: 0 <= i < |srcs| && |Bytes(srcs[i])| == maxLen
  {
    minLen, maxLen := 0, 0;
    ghost var lo, hi := 0, 0;
    for j := 0 to |srcs|
      invariant AllAtLeast(srcs[..j], minLen) && AllAtMost(srcs[..j], maxLen)
      invariant j == 0 ==> maxLen == 0
      invariant j > 0 ==> 0 <= lo < j && |Bytes(srcs[lo])| == minLen && 0 <= hi < j && |Bytes(srcs[hi])| == maxLen
    {
      if srcs[j].Missing? {
        minLen, lo := 0, j;
        if j == 0 { hi := 0; }
        continue;
      }
      var len := |srcs[j].bytes|;
      if j == 0 || len > maxLen { hi := j; }
      if len > maxLen { maxLen := len; }
      if j == 0 || len < minLen { minLen, lo := len, j; }
    }
    assert srcs[..|srcs|] == srcs;
  }

  /** The loop over all bytes that are left, with its early exit. */
  method FoldByte(op: BitOperation, srcs: seq<Source>, j: nat) returns (output: Byte)
    requires srcs != [] && (op == Not ==> |srcs| == 1)
    ensures output == Fold(op, srcs, j, |srcs|)
  {
    hide Apply, Settled;
    output := At(srcs[0], j);
    if op == Not { output := !output; }
    for i := 1 to |srcs|
      invariant output == Fold(op, srcs, j, i)
    {
      output := Apply(op, output, At(srcs[i], j));
      if Settled(op, output) {
        FoldSettled(op, srcs, j, i + 1, |srcs|);
        break;
      }
    }
  }

  /** The fast path: four words at a time while every string has them. Returns the first byte left. */
  method FastPath(op: BitOperation, srcs: seq<Source>, res: array<Byte>, minLen: nat, width: nat) returns (j: nat)
    requires srcs != [] && (op == Not ==> |srcs| == 1) && AllAtLeast(srcs, minLen) && minLen <= res.Length
    requires width == 4 || width == 8
    modifies res
    ensures j <= res.Length
    ensures forall k :: 0 <= k < j ==> res[k] == Fold(op, srcs, k, |srcs|)
  {
    hide Apply, Fold;
    var first := Bytes(srcs[0]);
    forall k | 0 <= k < minLen { res[k] := first[k]; }
    j := 0;
    var left := minLen;
    while left >= 4 * width
      invariant 0 <= left && j + left == minLen
      invariant forall k :: 0 <= k < j ==> res[k] == Fold(op, srcs, k, |srcs|)
      invariant forall k :: j <= k < minLen ==> res[k] == At(srcs[0], k)
    {
      if op == Not {
        forall k | j <= k < j + 4 * width ensures Fold(op, srcs, k, 1) == !At(srcs[0], k) { FoldFirst(op, srcs, k); }
        InvertBlock(res, j, width);
      } else {
        forall k | j <= k < j + 4 * width ensures Fold(op, srcs, k, 1) == At(srcs[0], k) { FoldFirst(op, srcs, k); }
        for i := 1 to |srcs|
          invariant forall k :: 0 <= k < j ==> res[k] == Fold(op, srcs, k, |srcs|)
          invariant forall k :: j <= k < j + 4 * width ==> res[k] == Fold(op, srcs, k, i)
          invariant forall k :: j + 4 * width <= k < minLen ==> res[k] == At(srcs[0], k)
        {
          forall k | j <= k < j + 4 * width
            ensures Fold(op, srcs, k, i + 1) == Apply(op, Fold(op, srcs, k, i), Bytes(srcs[i])[k])
          {
            FoldNext(op, srcs, k, i);
          }
          CombineBlock(res, j, width, op, Bytes(srcs[i]));
        }
      }
      j, left := j + 4 * width, left - 4 * width;
    }
  }

  lemma FoldFirst(op: BitOperation, srcs: seq<Source>, k: nat)
    requires srcs != []
    ensures Fold(op, srcs, k, 1) == if op == Not then !At(srcs[0], k) else At(srcs[0], k)
  {
  }

  lemma FoldNext(op: BitOperation, srcs: seq<Source>, k: nat, i: nat)
    requires 0 < i < |srcs|
    ensures Fold(op, srcs, k, i + 1) == Apply(op, Fold(op, srcs, k, i), At(srcs[i], k))
  {
  }

  /** The computation of bitopCommand; an empty result stands for the deleted target key. */
  method BitOp(op: BitOperation, srcs: seq<Source>, width: nat) returns (res: array<Byte>)
    requires srcs != [] && (op == Not ==> |srcs| == 1) && (width == 4 || width == 8)
    ensures AllAtMost(srcs, res.Length) && exists i :: 0 <= i < |srcs| && |Bytes(srcs[i])| == res.Length
    ensures forall k :: 0 <= k < res.Length ==> res[k] == Fold(op, srcs, k, |srcs|)
  {
    var minLen, maxLen := Lengths(srcs);
    res := new Byte[maxLen](_ => 0);
    if maxLen > 0 {
      var j := 0;
      if minLen >= 4 * width && |srcs| <= 16 { j := FastPath(op, srcs, res, minLen, width); }
      while j < maxLen
        invariant 0 <= j <= maxLen
        invariant forall k :: 0 <= k < j ==> res[k] == Fold(op, srcs, k, |srcs|)
      {
        var output := FoldByte(op, srcs, j);
        res[j] := output;
        j := j + 1;
      }
    }
  }
}
