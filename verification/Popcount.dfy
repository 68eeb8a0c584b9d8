/** Counting set bits: popcountScalar and the arithmetic of BITCOUNT (bitops.c). */
module Popcount {

  import opened Bitmap

  /** Four bytes as a 32-bit word, and four lanes of one. */
  function Word(a: Byte, b: Byte, c: Byte, d: Byte): bv32 {
    a as bv32 | (b as bv32 << 8) | (c as bv32 << 16) | (d as bv32 << 24)
  }

  function Load(s: seq<Byte>, i: nat): bv32
    requires i + 4 <= |s|
  {
    Word(s[i], s[i + 1], s[i + 2], s[i + 3])
  }

  /** The parallel steps that leave in each byte lane of a word the number of its set bits. */
  function Pairs(x: bv32): bv32 { x - ((x >> 1) & 0x55555555) }

  function Nibbles(x: bv32): bv32 { (x & 0x33333333) + ((x >> 2) & 0x33333333) }

  function Lanes(x: bv32): bv32 { (x + (x >> 4)) & 0x0F0F0F0F }

  /** The same steps on one byte. */
  function Pairs8(b: Byte): Byte { b - ((b >> 1) & 0x55) }

  function Nibbles8(b: Byte): Byte { (b & 0x33) + ((b >> 2) & 0x33) }

  function Lanes8(b: Byte): Byte { (b + (b >> 4)) & 0x0F }

  function Lane(b: Byte): Byte { Lanes8(Nibbles8(Pairs8(b))) }

  lemma WordDef(a: Byte, b: Byte, c: Byte, d: Byte)
    ensures Word(a, b, c, d) == a as bv32 | (b as bv32 << 8) | (c as bv32 << 16) | (d as bv32 << 24)
  {
  }

  lemma PairsApart(a: Byte, b: Byte, c: Byte, d: Byte)
    ensures Pairs(Word(a, b, c, d)) == Word(Pairs8(a), Pairs8(b), Pairs8(c), Pairs8(d))
  {
    PairsRaw(a, b, c, d, Word(a, b, c, d), Pairs8(a), Pairs8(b), Pairs8(c), Pairs8(d));
  }

  lemma PairsRaw(a: Byte, b: Byte, c: Byte, d: Byte, x: bv32, a': Byte, b': Byte, c': Byte, d': Byte)
    requires x == a as bv32 | (b as bv32 << 8) | (c as bv32 << 16) | (d as bv32 << 24)
    requires a' == a - ((a >> 1) & 0x55) && b' == b - ((b >> 1) & 0x55)
    requires c' == c - ((c >> 1) & 0x55) && d' == d - ((d >> 1) & 0x55)
    ensures x - ((x >> 1) & 0x55555555) == a' as bv32 | (b' as bv32 << 8) | (c' as bv32 << 16) | (d' as bv32 << 24)
  {
  }

  lemma NibblesApart(a: Byte, b: Byte, c: Byte, d: Byte)
    ensures Nibbles(Word(a, b, c, d)) == Word(Nibbles8(a), Nibbles8(b), Nibbles8(c), Nibbles8(d))
  {
  }

  /** Nibbles of at most 6. */
  predicate Sixes(b: Byte) { b & 0x0F <= 6 && b >> 4 <= 6 }

  lemma NibblesSmall(b: Byte)
    ensures Sixes(Nibbles8(b))
  {
  }

  lemma LanesApart(a: Byte, b: Byte, c: Byte, d: Byte)
    requires Sixes(a) && Sixes(b) && Sixes(c) && Sixes(d)
    ensures Lanes(Word(a, b, c, d)) == Word(Lanes8(a), Lanes8(b), Lanes8(c), Lanes8(d))
  {
  }

  lemma LaneCounts(b: Byte)
    ensures Lane(b) as int == Ones(b)
  {
    OnesUnfold(b);
    hide Ones, BitOf;
  }

  lemma BitsOfByte(b: Byte)
    ensures BitOf(b, 0) == (b & 0x80 != 0) && BitOf(b, 1) == (b & 0x40 != 0)
    ensures BitOf(b, 2) == (b & 0x20 != 0) && BitOf(b, 3) == (b & 0x10 != 0)
    ensures BitOf(b, 4) == (b & 0x08 != 0) && BitOf(b, 5) == (b & 0x04 != 0)
    ensures BitOf(b, 6) == (b & 0x02 != 0) && BitOf(b, 7) == (b & 0x01 != 0)
  {
  }

  lemma OnesUnfold(b: Byte)
    ensures Ones(b) == One(b & 0x80 != 0) + One(b & 0x40 != 0) + One(b & 0x20 != 0) + One(b & 0x10 != 0) +
                       One(b & 0x08 != 0) + One(b & 0x04 != 0) + One(b & 0x02 != 0) + One(b & 0x01 != 0)
  {
    BitsOfByte(b);
    hide BitOf;
    assert OnesBefore(b, 1) == One(BitOf(b, 0));
    assert OnesBefore(b, 2) == OnesBefore(b, 1) + One(BitOf(b, 1));
    assert OnesBefore(b, 3) == OnesBefore(b, 2) + One(BitOf(b, 2));
    assert OnesBefore(b, 4) == OnesBefore(b, 3) + One(BitOf(b, 3));
    assert OnesBefore(b, 5) == OnesBefore(b, 4) + One(BitOf(b, 4));
    assert OnesBefore(b, 6) == OnesBefore(b, 5) + One(BitOf(b, 5));
    assert OnesBefore(b, 7) == OnesBefore(b, 6) + One(BitOf(b, 6));
  }

  /** A word as a number. */
  lemma WordValue(a: Byte, b: Byte, c: Byte, d: Byte)
    ensures Word(a, b, c, d) as int == a as int + 0x100 * (b as int) + 0x10000 * (c as int) + 0x1000000 * (d as int)
  {
    hide *;
    WordDef(a, b, c, d);
    WordRaw(a, b, c, d);
  }

  lemma WordRaw(a: Byte, b: Byte, c: Byte, d: Byte)
    ensures (a as bv32 | (b as bv32 << 8) | (c as bv32 << 16) | (d as bv32 << 24)) as int ==
            a as int + 0x100 * (b as int) + 0x10000 * (c as int) + 0x1000000 * (d as int)
  {
  }

  /** The lanes of the word at byte i, as a number. */
  function Count(s: seq<Byte>, i: nat): int
    requires i + 4 <= |s|
  {
    Lanes(Nibbles(Pairs(Load(s, i)))) as int
  }

  lemma CountIs(s: seq<Byte>, i: nat)
    requires i + 4 <= |s|
    ensures Count(s, i) == Ones(s[i]) + 0x100 * Ones(s[i + 1]) + 0x10000 * Ones(s[i + 2]) + 0x1000000 * Ones(s[i + 3])
  {
    var a, b, c, d := s[i], s[i + 1], s[i + 2], s[i + 3];
    hide *;
    assert Count(s, i) == Lanes(Nibbles(Pairs(Word(a, b, c, d)))) as int by { CountDef(s, i); }
    PairsApart(a, b, c, d);
    NibblesApart(Pairs8(a), Pairs8(b), Pairs8(c), Pairs8(d));
    NibblesSmall(Pairs8(a)); NibblesSmall(Pairs8(b)); NibblesSmall(Pairs8(c)); NibblesSmall(Pairs8(d));
    LanesApart(Nibbles8(Pairs8(a)), Nibbles8(Pairs8(b)), Nibbles8(Pairs8(c)), Nibbles8(Pairs8(d)));
    LaneDef(a); LaneDef(b); LaneDef(c); LaneDef(d);
    WordValue(Lane(a), Lane(b), Lane(c), Lane(d));
    LaneCounts(a); LaneCounts(b); LaneCounts(c); LaneCounts(d);
  }

  lemma CountDef(s: seq<Byte>, i: nat)
    requires i + 4 <= |s|
    ensures Count(s, i) == Lanes(Nibbles(Pairs(Word(s[i], s[i + 1], s[i + 2], s[i + 3])))) as int
  {
  }

  lemma LaneDef(b: Byte)
    ensures Lane(b) == Lanes8(Nibbles8(Pairs8(b)))
  {
  }

  // ---------------------------------------------------------------- the sum of seven words

  /** Unsigned 32-bit wrap-around. */
  function Wrap(x: nat): nat { x % 0x1_0000_0000 }

  /** Lanes of at most 56 do not overflow, and the multiplication adds them in the top byte. */
  lemma TopLane(a: nat, b: nat, c: nat, d: nat)
    requires a <= 56 && b <= 56 && c <= 56 && d <= 56
    ensures var x := a + 0x100 * b + 0x10000 * c + 0x1000000 * d;
            Wrap(x) == x && Wrap(x * 0x01010101) / 0x1000000 == a + b + c + d
  {
    var x := a + 0x100 * b + 0x10000 * c + 0x1000000 * d;
    var q := b + c + d + 0x100 * (c + d) + 0x10000 * d;
    var low := a + 0x100 * (a + b) + 0x10000 * (a + b + c);
    assert x * 0x01010101 == 0x1_0000_0000 * q + (0x1000000 * (a + b + c + d) + low);
    Remainder(x * 0x01010101, q, 0x1000000 * (a + b + c + d) + low);
    Remainder(x, 0, x);
  }

  lemma Remainder(x: nat, q: nat, r: nat)
    requires x == 0x1_0000_0000 * q + r && r < 0x1_0000_0000
    ensures Wrap(x) == r
  {
  }

  lemma OnesSmall(b: Byte)
    ensures Ones(b) <= 8
  {
    OnesUnfold(b);
  }

  /** Ones of every fourth byte, seven times. */
  function Column(s: seq<Byte>, i: nat, n: nat): nat
    requires i + 4 * n <= |s| + 3
  {
    if n == 0 then 0 else Column(s, i, n - 1) + Ones(s[i + 4 * (n - 1)])
  }

  lemma {:induction false} ColumnSmall(s: seq<Byte>, i: nat, n: nat)
    requires i + 4 * n <= |s| + 3
    ensures Column(s, i, n) <= 8 * n
  {
    if n > 0 {
      ColumnSmall(s, i, n - 1);
      OnesSmall(s[i + 4 * (n - 1)]);
    }
  }

  /** Sum of the lanes of n words from byte i on. */
  function LaneSum(s: seq<Byte>, i: nat, n: nat): int
    requires i + 4 * n <= |s|
  {
    if n == 0 then 0 else LaneSum(s, i, n - 1) + Count(s, i + 4 * (n - 1))
  }

  lemma {:induction false} LaneSumIs(s: seq<Byte>, i: nat, n: nat)
    requires i + 4 * n <= |s|
    ensures LaneSum(s, i, n) == Column(s, i, n) + 0x100 * Column(s, i + 1, n) + 0x10000 * Column(s, i + 2, n)
                                + 0x1000000 * Column(s, i + 3, n)
    ensures Column(s, i, n) + Column(s, i + 1, n) + Column(s, i + 2, n) + Column(s, i + 3, n) ==
            CountBits(s, 8 * i, 8 * (i + 4 * n))
  {
    hide Count, Ones;
    if n > 0 {
      LaneSumIs(s, i, n - 1);
      CountIs(s, i + 4 * (n - 1));
      FourBytes(s, 8 * i, i + 4 * (n - 1));
    }
  }

  lemma FourBytes(s: seq<Byte>, lo: nat, j: nat)
    requires lo <= 8 * j && j + 4 <= |s|
    ensures CountBits(s, lo, 8 * (j + 4)) ==
            CountBits(s, lo, 8 * j) + Ones(s[j]) + Ones(s[j + 1]) + Ones(s[j + 2]) + Ones(s[j + 3])
  {
    hide CountBits, Ones;
    CountByte(s, lo, j);
    CountByte(s, lo, j + 1);
    CountByte(s, lo, j + 2);
    CountByte(s, lo, j + 3);
  }

  /** Seven words at a time: no lane overflows, and the result is the number of set bits of 28 bytes. */
  lemma SwarCounts(s: seq<Byte>, i: nat)
    requires i + 28 <= |s|
    ensures var sum := Count(s, i) + Count(s, i + 4) + Count(s, i + 8) + Count(s, i + 12) +
                       Count(s, i + 16) + Count(s, i + 20) + Count(s, i + 24);
            sum >= 0 && Wrap(Wrap(sum) * 0x01010101) / 0x1000000 == CountBits(s, 8 * i, 8 * (i + 28))
  {
    hide *;
    SevenTerms(s, i);
    LaneSumIs(s, i, 7);
    ColumnSmall(s, i, 7);
    ColumnSmall(s, i + 1, 7);
    ColumnSmall(s, i + 2, 7);
    ColumnSmall(s, i + 3, 7);
    TopLane(Column(s, i, 7), Column(s, i + 1, 7), Column(s, i + 2, 7), Column(s, i + 3, 7));
  }

  lemma SevenTerms(s: seq<Byte>, i: nat)
    requires i + 28 <= |s|
    ensures Count(s, i) + Count(s, i + 4) + Count(s, i + 8) + Count(s, i + 12) +
            Count(s, i + 16) + Count(s, i + 20) + Count(s, i + 24) == LaneSum(s, i, 7)
  {
    hide Count;
    assert LaneSum(s, i, 1) == Count(s, i);
    assert LaneSum(s, i, 2) == Count(s, i) + Count(s, i + 4);
    assert LaneSum(s, i, 4) == LaneSum(s, i, 2) + Count(s, i + 8) + Count(s, i + 12);
    assert LaneSum(s, i, 6) == LaneSum(s, i, 4) + Count(s, i + 16) + Count(s, i + 20);
  }

  /** popcountScalar, for a buffer at any address. */
  method PopcountScalar(s: seq<Byte>, address: nat) returns (bits: int)
    ensures bits == CountBits(s, 0, 8 * |s|)
  {
    hide CountBits, Count, Ones;
    bits := 0;
    var i, count := 0, |s|;
    assert CountBits(s, 0, 0) == 0 by { EmptyCount(s, 0); }
    while (address + i) % 4 != 0 && count > 0
      invariant 0 <= i && 0 <= count && i + count == |s| && bits == CountBits(s, 0, 8 * i)
      decreases count
    {
      CountByte(s, 0, i);
      bits := bits + Ones(s[i]);
      i, count := i + 1, count - 1;
    }
    while count >= 28
      invariant 0 <= i && 0 <= count && i + count == |s| && bits == CountBits(s, 0, 8 * i)
    {
      var sum := Count(s, i) + Count(s, i + 4) + Count(s, i + 8) + Count(s, i + 12) +
                 Count(s, i + 16) + Count(s, i + 20) + Count(s, i + 24);
      SwarCounts(s, i);
      CountSplit(s, 0, 8 * i, 8 * (i + 28));
      bits := bits + Wrap(Wrap(sum) * 0x01010101) / 0x1000000;
      i, count := i + 28, count - 28;
    }
    while count > 0
      invariant 0 <= i && 0 <= count && i + count == |s| && bits == CountBits(s, 0, 8 * i)
    {
      CountByte(s, 0, i);
      bits := bits + Ones(s[i]);
      i, count := i + 1, count - 1;
    }
  }

  lemma EmptyCount(s: seq<Byte>, i: nat)
    requires i <= 8 * |s|
    ensures CountBits(s, i, i) == 0
  {
  }

  // ---------------------------------------------------------------- BITCOUNT

  /** The value under a key. */
  datatype Stored = Missing | Text(bytes: seq<Byte>)

  /** The optional range of BITCOUNT. */
  datatype Range = Whole | From(start: int) | FromTo(start: int, end: int, isBit: bool)

  /**
   First and last unit of a range over `total` units; negative ends count from the end, and ends
   outside are clamped.
   */
  function FirstUnit(total: nat, start: int): int {
    var s := if start < 0 then total + start else start;
    if s < 0 then 0 else s
  }

  function LastUnit(total: nat, end: int): int {
    var e := if end < 0 then total + end else end;
    if e < 0 then (if total == 0 then -1 else 0) else if e >= total then total - 1 else e
  }

  /** The bits of a byte range inside a mask. */
  lemma {:induction false} MaskedBefore(b: Byte, k: nat, n: nat)
    requires k < 8 && n <= 8
    ensures OnesBefore(b & FirstMask(k), n) == OnesBefore(b, if n <= k then n else k)
  {
    hide FirstMask, BitOf;
    if n > 0 {
      MaskedBefore(b, k, n - 1);
      BitAnd(b, FirstMask(k), n - 1);
      FirstMaskBits(k, n - 1);
    }
  }

  lemma {:induction false} MaskedAfter(b: Byte, k: nat, n: nat)
    requires k < 8 && n <= 8
    ensures OnesBefore(b & LastMask(k), n) == if n <= k + 1 then 0 else OnesBefore(b, n) - OnesBefore(b, k + 1)
  {
    hide LastMask, BitOf;
    if n > 0 {
      MaskedAfter(b, k, n - 1);
      BitAnd(b, LastMask(k), n - 1);
      LastMaskBits(k, n - 1);
    }
  }

  lemma FirstEdge(s: seq<Byte>, j: nat, k: nat)
    requires j < |s| && k < 8
    ensures Ones(s[j] & FirstMask(k)) == CountBits(s, 8 * j, 8 * j + k)
  {
    MaskedBefore(s[j], k, 8);
    CountInByte(s, j, k);
  }

  lemma LastEdge(s: seq<Byte>, j: nat, k: nat)
    requires j < |s| && k < 8
    ensures Ones(s[j] & LastMask(k)) == CountBits(s, 8 * j + k + 1, 8 * j + 8)
  {
    hide LastMask, BitOf, CountBits;
    MaskedAfter(s[j], k, 8);
    CountInByte(s, j, k + 1);
    CountInByte(s, j, 8);
    CountSplit(s, 8 * j, 8 * j + k + 1, 8 * j + 8);
  }

  /** The bits outside a bit range in its first and last byte are what the masks select. */
  lemma EdgesCount(s: seq<Byte>, first: nat, last: nat)
    requires first <= last < 8 * |s|
    ensures CountBits(s, first, last + 1) ==
            CountBits(s, 8 * (first / 8), 8 * (last / 8 + 1))
            - Ones(s[first / 8] & FirstMask(first % 8)) - Ones(s[last / 8] & LastMask(last % 8))
  {
    hide CountBits, FirstMask, LastMask, Ones;
    var a, b := first / 8, last / 8;
    assert first == 8 * a + first % 8 && last == 8 * b + last % 8;
    FirstEdge(s, a, first % 8);
    LastEdge(s, b, last % 8);
    CountSplit(s, 8 * a, first, 8 * (b + 1));
    CountSplit(s, first, last + 1, 8 * (b + 1));
  }

  /**
   The bits an argument list selects from `size` bytes: from the first position up to, but without,
   the second; nothing is selected when they are equal.
   */
  function Selected(size: nat, range: Range): (r: (int, int))
    ensures 0 <= r.0 <= r.1 <= 8 * size
  {
    match range
    case Whole => (0, 8 * size)
    case From(start) => Units(8, size, FirstUnit(size, start), size - 1)
    case FromTo(start, end, isBit) =>
      if start < 0 && end < 0 && start > end then (0, 0)
      else if isBit then Units(1, 8 * size, FirstUnit(8 * size, start), LastUnit(8 * size, end))
      else Units(8, size, FirstUnit(size, start), LastUnit(size, end))
  }

  function Units(width: nat, total: nat, first: int, last: int): (r: (int, int))
    requires 0 <= first && last < total && (width == 1 || width == 8)
    ensures 0 <= r.0 <= r.1 <= width * total
  {
    if first > last then (0, 0) else (width * first, width * (last + 1))
  }

  /** The conversion of negative ends and the clamping shared by BITCOUNT and BITPOS. */
  method Clamp(total: nat, from: int, to: int) returns (start: int, end: int)
    ensures start == FirstUnit(total, from) && end == LastUnit(total, to)
  {
    start, end := from, to;
    if start < 0 { start := total + start; }
    if end < 0 { end := total + end; }
    if start < 0 { start := 0; }
    if end < 0 { end := 0; }
    if end >= total { end := total - 1; }
  }

  /** The part of bitcountCommand that finds its range. */
  method Resolve(size: nat, range: Range) returns (reversed: bool, start: int, end: int, isBit: bool)
    ensures reversed ==> Selected(size, range) == (0, 0)
    ensures !reversed ==> 0 <= start && end < (if isBit then 8 * size else size)
    ensures !reversed ==>
              Selected(size, range) ==
              Units(if isBit then 1 else 8, if isBit then 8 * size else size, start, end)
  {
    hide FirstUnit, LastUnit;
    reversed, start, end, isBit := false, 0, size - 1, false;
    if !range.Whole? {
      var total: int := size;
      if range.FromTo? { end, isBit := range.end, range.isBit; } else { end := total - 1; }
      if range.start < 0 && end < 0 && range.start > end { return true, 0, 0, false; }
      if isBit { total := 8 * total; }
      start, end := Clamp(total, range.start, end);
      UnitBounds(total, range.start, if range.FromTo? then range.end else total - 1);
    }
  }

  /** The computation of bitcountCommand: the set bits of the clamped range. */
  method BitCount(value: Stored, range: Range, address: nat, scratch: nat) returns (count: int)
    ensures value == Missing ==> count == 0
    ensures value.Text? ==> var r := Selected(|value.bytes|, range); count == CountBits(value.bytes, r.0, r.1)
  {
    hide CountBits, FirstMask, LastMask, Ones, Selected;
    var p: seq<Byte> := if value.Missing? then [] else value.bytes;
    EmptyCount(p, 0);
    var reversed, start, end, isBit := Resolve(|p|, range);
    if reversed { return 0; }
    var firstMask: Byte, lastMask: Byte := 0, 0;
    ghost var first, last := start, end;
    if isBit && start <= end {
      firstMask, lastMask := FirstMask(start % 8), LastMask(end % 8);
      start, end := start / 8, end / 8;
    }
    if value.Missing? { return 0; }
    if start > end { return 0; }
    count := CountMasked(p, start, end, firstMask, lastMask, address, scratch);
    if isBit { EdgesCount(p, first, last); } else { NoMask(p[start]); NoMask(p[end]); }
  }

  lemma UnitBounds(total: nat, from: int, to: int)
    ensures 0 <= FirstUnit(total, from) && LastUnit(total, to) < total
    ensures to == total - 1 ==> LastUnit(total, to) == to
  {
  }

  /** The set bits of whole bytes, without those that two masks select from the first and the last byte. */
  method CountMasked(p: seq<Byte>, start: nat, end: nat, firstMask: Byte, lastMask: Byte, address: nat, scratch: nat)
    returns (count: int)
    requires start <= end < |p|
    ensures count == CountBits(p, 8 * start, 8 * (end + 1)) - Ones(p[start] & firstMask) - Ones(p[end] & lastMask)
  {
    hide CountBits, Ones;
    count := PopcountScalar(p[start..end + 1], address + start);
    CountShifted(p, p[start..end + 1], start, 0, 8 * (end - start + 1));
    NoMask(p[start]);
    NoMask(p[end]);
    if firstMask != 0 || lastMask != 0 {
      var edges: seq<Byte> := [0, 0];
      if firstMask != 0 { edges := edges[0 := p[start] & firstMask]; }
      if lastMask != 0 { edges := edges[1 := p[end] & lastMask]; }
      var outside := PopcountScalar(edges, scratch);
      TwoBytes(edges);
      count := count - outside;
    }
  }

  lemma NoMask(b: Byte)
    ensures b & 0 == 0 && Ones(0) == 0
  {
    OnesUnfold(0);
  }

  lemma TwoBytes(s: seq<Byte>)
    requires |s| == 2
    ensures CountBits(s, 0, 16) == Ones(s[0]) + Ones(s[1])
  {
    hide Ones;
    CountByte(s, 0, 0);
    CountByte(s, 0, 1);
  }
}
