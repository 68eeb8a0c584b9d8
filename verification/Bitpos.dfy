/** Searching a bit: serverBitpos and the arithmetic of BITPOS (bitops.c), for any word size and alignment. */
module Bitpos {

  import opened Bitmap
  import Popcount
  import opened Powers

  // ---------------------------------------------------------------- specification

  /** No position of the range holds the sought bit. */
  predicate None(s: seq<Byte>, bit: bool, lo: nat, hi: nat)
    requires hi <= 8 * |s|
  {
    forall i :: lo <= i < hi ==> BitAt(s, i) != bit
  }

  /** Position p is the first of the range that holds the sought bit. */
  predicate First(s: seq<Byte>, bit: bool, lo: nat, hi: nat, p: int)
    requires hi <= 8 * |s|
  {
    lo <= p < hi && BitAt(s, p) == bit && None(s, bit, lo, p)
  }

  /** What a search of the whole string answers: past its end for a clear bit, as if zeros followed. */
  predicate Position(s: seq<Byte>, bit: bool, pos: int) {
    || First(s, bit, 0, 8 * |s|, pos)
    || (None(s, bit, 0, 8 * |s|) && pos == if bit then -1 else 8 * |s|)
  }

  // ---------------------------------------------------------------- words as numbers

  /** Bytes as a number, the first byte most significant. */
  function Big(t: seq<Byte>): nat {
    if t == [] then 0 else 256 * Big(t[..|t| - 1]) + t[|t| - 1] as int
  }

  /** Bytes as a number in the order of a little-endian machine. */
  function Native(t: seq<Byte>): nat {
    if t == [] then 0 else t[0] as int + 256 * Native(t[1..])
  }

  function Skip(bit: bool): Byte { if bit then 0 else 0xFF }

  predicate AllSkip(t: seq<Byte>, bit: bool) { forall i :: 0 <= i < |t| ==> t[i] == Skip(bit) }

  /** The word that holds only skipped bytes: 0 or ULONG_MAX. */
  function SkipWord(bit: bool, width: nat): nat { if bit then 0 else Pow2(8 * width) - 1 }

  /** A word equals the skipped word exactly if all its bytes are skipped ones. */
  lemma {:induction false} NativeSkips(t: seq<Byte>, bit: bool)
    ensures Native(t) < Pow2(8 * |t|)
    ensures Native(t) == SkipWord(bit, |t|) <==> AllSkip(t, bit)
  {
    if t == [] {
      assert Pow2(0) == 1;
    } else {
      NativeSkips(t[1..], bit);
      NativeFirst(t);
      SkipFirst(t, bit);
      SkipByte(t[0], bit);
      SkipWords(bit, |t|);
      hide *;
      SkipNumber(t[0] as int, Native(t[1..]), Pow2(8 * (|t| - 1)), bit);
    }
  }

  lemma NativeFirst(t: seq<Byte>)
    requires t != []
    ensures Native(t) == t[0] as int + 256 * Native(t[1..])
  {
  }

  lemma SkipWords(bit: bool, n: nat)
    requires n > 0
    ensures Pow2(8 * n) == 256 * Pow2(8 * (n - 1))
    ensures SkipWord(bit, n) == if bit then 0 else 256 * Pow2(8 * (n - 1)) - 1
    ensures SkipWord(bit, n - 1) == if bit then 0 else Pow2(8 * (n - 1)) - 1
  {
    hide Pow2;
    Pow2Byte(8 * (n - 1));
  }

  lemma SkipByte(b: Byte, bit: bool)
    ensures 0 <= b as int < 256
    ensures b == Skip(bit) <==> b as int == if bit then 0 else 255
  {
    ByteRange(b);
  }

  /** A number below 256 * p is the skipped one exactly if both its parts are. */
  lemma SkipNumber(b: int, rest: int, p: int, bit: bool)
    requires 0 <= b < 256 && 0 <= rest < p
    ensures b + 256 * rest < 256 * p
    ensures b + 256 * rest == (if bit then 0 else 256 * p - 1) <==>
            b == (if bit then 0 else 255) && rest == if bit then 0 else p - 1
  {
  }

  lemma SkipFirst(t: seq<Byte>, bit: bool)
    requires t != []
    ensures AllSkip(t, bit) <==> t[0] == Skip(bit) && AllSkip(t[1..], bit)
  {
    if AllSkip(t[1..], bit) { assert forall i :: 0 < i < |t| ==> t[i] == t[1..][i - 1]; }
  }

  lemma ByteRange(b: Byte)
    ensures 0 <= b as int < 256 && (b as int == 0 <==> b == 0) && (b as int == 255 <==> b == 0xFF)
  {
  }

  lemma SkippedByte(b: Byte, bit: bool)
    ensures b == Skip(bit) <==> forall k :: 0 <= k < 8 ==> BitOf(b, k) != bit
  {
    Popcount.BitsOfByte(b);
    assert BitOf(b, 0) || BitOf(b, 1) || BitOf(b, 2) || BitOf(b, 3) || BitOf(b, 4) || BitOf(b, 5) || BitOf(b, 6)
        || BitOf(b, 7)
        || b == 0;
    assert !BitOf(b, 0) || !BitOf(b, 1) || !BitOf(b, 2) || !BitOf(b, 3) || !BitOf(b, 4) || !BitOf(b, 5) || !BitOf(b, 6)
        || !BitOf(b, 7) || b == 0xFF;
  }

  lemma ByteValue(b: Byte)
    ensures b as int == 128 * (if b & 0x80 != 0 then 1 else 0) + 64 * (if b & 0x40 != 0 then 1 else 0)
                        + 32 * (if b & 0x20 != 0 then 1 else 0) + 16 * (if b & 0x10 != 0 then 1 else 0)
                        + 8 * (if b & 0x08 != 0 then 1 else 0) + 4 * (if b & 0x04 != 0 then 1 else 0)
                        + 2 * (if b & 0x02 != 0 then 1 else 0) + if b & 0x01 != 0 then 1 else 0
  {
  }

  /** The first k bits of a byte as a number. */
  function Leading(b: Byte, k: nat): nat
    requires k <= 8
  {
    if k == 0 then 0 else 2 * Leading(b, k - 1) + One(BitOf(b, k - 1))
  }

  lemma LeadingAll(b: Byte)
    ensures Leading(b, 8) == b as int
  {
    ByteOfBits(b);
    hide BitOf;
    assert Leading(b, 1) == One(BitOf(b, 0));
    assert Leading(b, 2) == 2 * Leading(b, 1) + One(BitOf(b, 1));
    assert Leading(b, 3) == 2 * Leading(b, 2) + One(BitOf(b, 2));
    assert Leading(b, 4) == 2 * Leading(b, 3) + One(BitOf(b, 3));
    assert Leading(b, 5) == 2 * Leading(b, 4) + One(BitOf(b, 4));
    assert Leading(b, 6) == 2 * Leading(b, 5) + One(BitOf(b, 5));
    assert Leading(b, 7) == 2 * Leading(b, 6) + One(BitOf(b, 6));
  }

  lemma {:induction false} ValueInByte(t: seq<Byte>, j: nat, k: nat)
    requires j < |t| && k <= 8
    ensures Value(t, 8 * j, k) == Leading(t[j], k)
  {
    hide BitOf, Pow2;
    if k > 0 {
      ValueInByte(t, j, k - 1);
      assert (8 * j + k - 1) / 8 == j && (8 * j + k - 1) % 8 == k - 1;
    }
  }

  /** One byte as the value of its eight bits. */
  lemma ValueOfByte(t: seq<Byte>, j: nat)
    requires j < |t|
    ensures Value(t, 8 * j, 8) == t[j] as int
  {
    hide *;
    ValueInByte(t, j, 8);
    LeadingAll(t[j]);
  }

  lemma ByteOfBits(b: Byte)
    ensures b as int == 128 * (if BitOf(b, 0) then 1 else 0) + 64 * (if BitOf(b, 1) then 1 else 0)
                        + 32 * (if BitOf(b, 2) then 1 else 0) + 16 * (if BitOf(b, 3) then 1 else 0)
                        + 8 * (if BitOf(b, 4) then 1 else 0) + 4 * (if BitOf(b, 5) then 1 else 0)
                        + 2 * (if BitOf(b, 6) then 1 else 0) + if BitOf(b, 7) then 1 else 0
  {
    Popcount.BitsOfByte(b);
    hide BitOf;
    ByteValue(b);
  }

  /** The word of the first n bytes, built byte by byte, is the value of their bits. */
  lemma {:induction false} BigIsValue(t: seq<Byte>, n: nat)
    requires n <= |t|
    ensures Big(t[..n]) == Value(t, 0, 8 * n)
  {
    hide Value, Pow2;
    if n == 0 {
      NoValue(t);
    } else {
      BigIsValue(t, n - 1);
      BigNext(t, n - 1);
      ValueNextByte(t, n - 1);
    }
  }

  lemma NoValue(t: seq<Byte>)
    ensures Value(t, 0, 0) == 0
  {
  }

  lemma ValueNextByte(t: seq<Byte>, n: nat)
    requires n < |t|
    ensures Value(t, 0, 8 * (n + 1)) == 256 * Value(t, 0, 8 * n) + t[n] as int
  {
    hide *;
    ValueSplit(t, 0, 8 * n, 8);
    ValueOfByte(t, n);
    Pow2Eight();
    Shifted(Value(t, 0, 8 * (n + 1)), Value(t, 0, 8 * n), Pow2(8), t[n] as int);
  }

  lemma Shifted(v: int, a: int, p: int, w: int)
    requires p == 256 && v == a * p + w
    ensures v == 256 * a + w
  {
  }

  lemma BigNext(t: seq<Byte>, n: nat)
    requires n < |t|
    ensures Big(t[..n + 1]) == 256 * Big(t[..n]) + t[n] as int
  {
    assert t[..n + 1][..n] == t[..n];
  }

  /** A word is 0 exactly if none of its bits is set. */
  lemma {:induction false} ValueZero(t: seq<Byte>, n: nat)
    requires n <= 8 * |t|
    ensures Value(t, 0, n) == 0 <==> forall i :: 0 <= i < n ==> !BitAt(t, i)
  {
    hide BitAt;
    if n > 0 { ValueZero(t, n - 1); }
  }

  // ---------------------------------------------------------------- serverBitpos

  /** The word-sized window at byte `at`, padded with zeros behind the string. */
  function Padded(s: seq<Byte>, at: nat, width: nat): (t: seq<Byte>)
    requires at <= |s|
    ensures |t| == width
  {
    seq(width, i requires 0 <= i < width => if at + i < |s| then s[at + i] else 0)
  }

  /** The search stops skipping here: the string ends inside the window, or the window holds another byte. */
  predicate Stops(s: seq<Byte>, at: nat, bit: bool, width: nat)
    requires at <= |s|
  {
    |s| - at < width || !AllSkip(s[at..at + width], bit)
  }

  /** Skipped bytes hold nothing that is sought. */
  lemma SkipNone(s: seq<Byte>, bit: bool, at: nat, n: nat)
    requires at + n <= |s| && None(s, bit, 0, 8 * at) && AllSkip(s[at..at + n], bit)
    ensures None(s, bit, 0, 8 * (at + n))
  {
    hide BitOf, Skip;
    forall i | 0 <= i < 8 * (at + n) ensures BitAt(s, i) != bit {
      if i >= 8 * at {
        var j := i / 8;
        assert s[j] == s[at..at + n][j - at];
        SkippedByte(s[j], bit);
      }
    }
  }

  lemma PaddedBit(s: seq<Byte>, at: nat, width: nat, j: nat)
    requires at <= |s| && j < 8 * width
    ensures BitAt(Padded(s, at, width), j) == if 8 * at + j < 8 * |s| then BitAt(s, 8 * at + j) else false
  {
    assert (8 * at + j) / 8 == at + j / 8 && (8 * at + j) % 8 == j % 8;
    NoBits(j % 8);
    hide BitOf;
  }

  lemma NoBits(k: nat)
    requires k < 8
    ensures !BitOf(0, k)
  {
  }

  /** The window holds the sought bit, so the scan ends inside it. */
  lemma Present(s: seq<Byte>, at: nat, bit: bool, width: nat) returns (i: nat)
    requires at <= |s| && width > 0 && Stops(s, at, bit, width)
    requires bit ==> Big(Padded(s, at, width)) != 0
    ensures i < 8 * width && BitAt(Padded(s, at, width), i) == bit
  {
    var t := Padded(s, at, width);
    hide BitAt, BitOf, Value, Padded, Big;
    if bit {
      assert t[..width] == t;
      BigIsValue(t, width);
      ValueZero(t, 8 * width);
      i :| 0 <= i < 8 * width && BitAt(t, i);
    } else if |s| - at < width {
      i := 8 * (|s| - at);
      PaddedBit(s, at, width, i);
    } else {
      var j :| 0 <= j < width && s[at..at + width][j] != Skip(bit);
      var p := ClearBit(s, at + j);
      i := p - 8 * at;
      PaddedBit(s, at, width, i);
    }
  }

  lemma ClearBit(s: seq<Byte>, j: nat) returns (i: nat)
    requires j < |s| && s[j] != Skip(false)
    ensures 8 * j <= i < 8 * j + 8 && !BitAt(s, i)
  {
    SkippedByte(s[j], false);
    hide BitOf, Skip;
    var k :| 0 <= k < 8 && !BitOf(s[j], k);
    i := 8 * j + k;
    assert i / 8 == j && i % 8 == k;
  }

  /** A position in the window, as a position in the string. */
  lemma WindowPosition(s: seq<Byte>, at: nat, bit: bool, width: nat, j: int)
    requires at <= |s| && None(s, bit, 0, 8 * at)
    requires First(Padded(s, at, width), bit, 0, 8 * width, j)
    ensures Position(s, bit, 8 * at + j)
  {
    hide BitAt, Padded;
    var t := Padded(s, at, width);
    PaddedBit(s, at, width, j);
    forall i | 0 <= i < 8 * at + j && i < 8 * |s| ensures BitAt(s, i) != bit {
      if i >= 8 * at { PaddedBit(s, at, width, i - 8 * at); }
    }
    if 8 * at + j > 8 * |s| { PaddedBit(s, at, width, 8 * |s| - 8 * at); }
  }

  lemma WindowEmpty(s: seq<Byte>, at: nat, width: nat)
    requires at <= |s| && width > 0 && None(s, true, 0, 8 * at) && Stops(s, at, true, width)
    requires Big(Padded(s, at, width)) == 0
    ensures None(s, true, 0, 8 * |s|)
  {
    hide BitAt, BitOf, Value, Padded, Big, Stops;
    var t := Padded(s, at, width);
    assert t[..width] == t;
    BigIsValue(t, width);
    ValueZero(t, 8 * width);
    WindowIsRest(s, at, width);
    forall i | 0 <= i < 8 * |s| ensures !BitAt(s, i) {
      if i >= 8 * at { PaddedBit(s, at, width, i - 8 * at); }
    }
  }

  /** A window without set bits where the search stopped reaches the end of the string. */
  lemma WindowIsRest(s: seq<Byte>, at: nat, width: nat)
    requires at <= |s| && Stops(s, at, true, width)
    requires forall i :: 0 <= i < 8 * width ==> !BitAt(Padded(s, at, width), i)
    ensures |s| - at < width
  {
    if |s| - at >= width {
      var t := s[at..at + width];
      forall j | 0 <= j < |t| ensures t[j] == Skip(true) {
        forall k | 0 <= k < 8 ensures !BitOf(t[j], k) {
          var i := 8 * j + k;
          assert i / 8 == j && i % 8 == k;
          assert !BitAt(Padded(s, at, width), i);
        }
        hide BitOf;
        SkippedByte(t[j], true);
      }
    }
  }

  /** The loop that loads the last word, padding it with zeros. */
  method LoadWord(s: seq<Byte>, at: nat, width: nat) returns (word: nat)
    requires at <= |s|
    ensures word == Big(Padded(s, at, width))
  {
    ghost var t := Padded(s, at, width);
    var c, count := at, |s| - at;
    word := 0;
    for j := 0 to width
      invariant c == (if at + j < |s| then at + j else |s|) && count == |s| - c
      invariant word == Big(t[..j])
    {
      assert t[..j + 1][..j] == t[..j];
      word := 256 * word;
      if count > 0 {
        word := word + s[c] as int;
        c, count := c + 1, count - 1;
      }
    }
    assert t[..width] == t;
  }

  /** The loop over the bits of the last word, from the most significant one on; it always returns. */
  method ScanWord(word: nat, width: nat, bit: bool, ghost t: seq<Byte>, ghost i: nat) returns (pos: nat)
    requires |t| == width && word == Big(t) && i < 8 * width && BitAt(t, i) == bit
    ensures First(t, bit, 0, 8 * width, pos)
  {
    hide BitAt, Value, Big;
    assert t[..width] == t;
    BigIsValue(t, width);
    pos := 0;
    var one := Pow2(8 * width - 1);
    while one > 0
      invariant pos <= 8 * width && None(t, bit, 0, pos)
      invariant one == if pos < 8 * width then Pow2(8 * width - 1 - pos) else 0
      decreases 8 * width - pos
    {
      ValueDigit(t, 0, 8 * width, pos);
      if ((word / one) % 2 != 0) == bit { return; }
      pos := pos + 1;
      one := one / 2;
    }
    assert false;
  }

  /** serverBitpos. */
  method ServerBitpos(s: seq<Byte>, bit: bool, width: nat, address: nat) returns (pos: int)
    requires width > 0
    ensures Position(s, bit, pos)
  {
    hide BitAt, Padded, Big, Native, Skip, SkipWord, AllSkip;
    var at, count, found := 0, |s|, false;
    pos := 0;
    while (address + at) % width != 0 && count > 0
      invariant 0 <= at && 0 <= count && at + count == |s| && pos == 8 * at && None(s, bit, 0, 8 * at)
      decreases count
    {
      if s[at] != Skip(bit) {
        found := true;
        break;
      }
      OneSkipped(s, bit, at);
      SkipNone(s, bit, at, 1);
      at, count, pos := at + 1, count - 1, pos + 8;
    }
    if found {
      StopsHere(s, at, bit, width);
    } else {
      while count >= width
        invariant 0 <= at && 0 <= count && at + count == |s| && pos == 8 * at && None(s, bit, 0, 8 * at)
        decreases count
      {
        ghost var t := s[at..at + width];
        NativeSkips(t, bit);
        if Native(s[at..at + width]) != SkipWord(bit, width) { break; }
        SkipNone(s, bit, at, width);
        at, count, pos := at + width, count - width, pos + 8 * width;
      }
    }
    assert Stops(s, at, bit, width);
    var word := LoadWord(s, at, width);
    if bit && word == 0 {
      WindowEmpty(s, at, width);
      return -1;
    }
    ghost var i := Present(s, at, bit, width);
    var j := ScanWord(word, width, bit, Padded(s, at, width), i);
    WindowPosition(s, at, bit, width, j);
    pos := pos + j;
  }

  lemma OneSkipped(s: seq<Byte>, bit: bool, at: nat)
    requires at < |s| && s[at] == Skip(bit)
    ensures AllSkip(s[at..at + 1], bit)
  {
  }

  lemma StopsHere(s: seq<Byte>, at: nat, bit: bool, width: nat)
    requires at < |s| && s[at] != Skip(bit) && width > 0
    ensures Stops(s, at, bit, width)
  {
    if |s| - at >= width { assert s[at..at + width][0] == s[at]; }
  }

  // ---------------------------------------------------------------- BITPOS

  /** An edge byte with the bits outside the range made different from the sought one. */
  function EdgeByte(b: Byte, mask: Byte, bit: bool): Byte { if bit then b & !mask else b | mask }

  lemma EdgeBit(b: Byte, mask: Byte, bit: bool, j: nat)
    requires j < 8
    ensures BitOf(EdgeByte(b, mask, bit), j) == bit <==> BitOf(b, j) == bit && !BitOf(mask, j)
  {
    BitAnd(b, !mask, j);
    BitNot(mask, j);
    BitOr(b, mask, j);
    hide BitOf;
  }

  /** Byte t shows the sought bit exactly where byte b does, from bit k to bit l. */
  predicate Shows(t: Byte, b: Byte, bit: bool, k: nat, l: nat) {
    forall j :: 0 <= j < 8 ==> (BitOf(t, j) == bit <==> BitOf(b, j) == bit && k <= j <= l)
  }

  lemma ShowsFirst(b: Byte, bit: bool, k: nat)
    requires k < 8
    ensures Shows(EdgeByte(b, FirstMask(k), bit), b, bit, k, 7)
  {
    hide BitOf, EdgeByte, FirstMask;
    forall j | 0 <= j < 8 ensures
      BitOf(EdgeByte(b, FirstMask(k), bit), j) == bit <==> BitOf(b, j) == bit && k <= j
    {
      EdgeBit(b, FirstMask(k), bit, j);
      FirstMaskBits(k, j);
    }
  }

  lemma ShowsLast(t: Byte, b: Byte, bit: bool, k: nat, l: nat)
    requires l < 8 && Shows(t, b, bit, k, 7)
    ensures Shows(EdgeByte(t, LastMask(l), bit), b, bit, k, l)
  {
    hide BitOf, EdgeByte, LastMask;
    forall j | 0 <= j < 8 ensures
      BitOf(EdgeByte(t, LastMask(l), bit), j) == bit <==> BitOf(b, j) == bit && k <= j <= l
    {
      EdgeBit(t, LastMask(l), bit, j);
      LastMaskBits(l, j);
    }
  }

  lemma ShowsItself(b: Byte, bit: bool)
    ensures Shows(b, b, bit, 0, 7)
  {
  }

  /** What a search that began at byte `start`, with `bytes` bytes left, found in a range of p. */
  predicate Outcome(p: seq<Byte>, bit: bool, lo: nat, hi: nat, start: nat, bytes: nat, pos: int)
    requires hi <= 8 * |p|
  {
    || (0 <= pos && First(p, bit, lo, hi, 8 * start + pos))
    || (None(p, bit, lo, hi) && pos == if bit then -1 else 8 * bytes)
  }

  lemma ByteBits(p: seq<Byte>, j: nat, i: nat)
    requires j < |p| && i < 8
    ensures BitAt(p, 8 * j + i) == BitOf(p[j], i)
  {
    assert (8 * j + i) / 8 == j && (8 * j + i) % 8 == i;
  }

  lemma OneByte(p: seq<Byte>, j: nat, t: Byte, bit: bool, k: nat, l: nat, pos: int)
    requires j < |p| && k <= l < 8 && Shows(t, p[j], bit, k, l) && Position([t], bit, pos)
    ensures Outcome(p, bit, 8 * j + k, 8 * j + l + 1, j, 1, pos)
  {
    hide BitOf, BitAt;
    forall i | 0 <= i < 8 ensures BitAt([t], i) == BitOf(t, i) { ByteBits([t], 0, i); }
    if None([t], bit, 0, 8) {
      forall i | 8 * j + k <= i < 8 * j + l + 1 ensures BitAt(p, i) != bit { OneBit(p, j, t, bit, k, l, i - 8 * j); }
    } else {
      OneBit(p, j, t, bit, k, l, pos);
      forall i | 8 * j + k <= i < 8 * j + pos ensures BitAt(p, i) != bit { OneBit(p, j, t, bit, k, l, i - 8 * j); }
    }
  }

  lemma OneBit(p: seq<Byte>, j: nat, t: Byte, bit: bool, k: nat, l: nat, i: nat)
    requires j < |p| && k <= l < 8 && i < 8 && Shows(t, p[j], bit, k, l)
    ensures BitAt([t], i) == bit <==> BitAt(p, 8 * j + i) == bit && k <= i <= l
  {
    hide BitOf, BitAt;
    ByteBits(p, j, i);
    ByteBits([t], 0, i);
  }

  lemma Slice(p: seq<Byte>, s: nat, n: nat, bit: bool, pos: int)
    requires s + n <= |p| && Position(p[s..s + n], bit, pos)
    ensures Outcome(p, bit, 8 * s, 8 * (s + n), s, n, pos)
  {
    var t := p[s..s + n];
    forall i | 0 <= i < 8 * n ensures BitAt(t, i) == BitAt(p, 8 * s + i) {
      assert (8 * s + i) / 8 == s + i / 8 && (8 * s + i) % 8 == i % 8;
    }
    hide BitAt;
    if None(t, bit, 0, 8 * n) {
      forall i | 8 * s <= i < 8 * (s + n) ensures BitAt(p, i) != bit { assert BitAt(t, i - 8 * s) != bit; }
    } else {
      forall i | 8 * s <= i < 8 * s + pos ensures BitAt(p, i) != bit { assert BitAt(t, i - 8 * s) != bit; }
    }
  }

  /** Nothing in the first part of a range: the rest decides. */
  lemma Continue(p: seq<Byte>, bit: bool, lo: nat, mid: nat, hi: nat, start: nat, bytes: nat, pos: int)
    requires lo <= mid <= hi <= 8 * |p| && None(p, bit, lo, mid) && Outcome(p, bit, mid, hi, start, bytes, pos)
    ensures Outcome(p, bit, lo, hi, start, bytes, pos)
  {
    hide BitAt;
  }

  /** Found in the first part of a range. */
  lemma Early(p: seq<Byte>, bit: bool, lo: nat, mid: nat, hi: nat, start: nat, bytes: nat, pos: int)
    requires lo <= mid <= hi <= 8 * |p| && Outcome(p, bit, lo, mid, start, bytes, pos)
    requires pos != -1 && pos != 8 * bytes
    ensures forall n :: Outcome(p, bit, lo, hi, start, n, pos)
  {
    hide BitAt;
  }

  lemma MaskZero(k: nat)
    requires k < 8
    ensures FirstMask(k) == 0 <==> k == 0
    ensures LastMask(k) == 0 <==> k == 7
  {
    FirstMaskTable(k);
    LastMaskTable(k);
  }

  /** The part of bitposCommand between the masks and the label `result`. */
  method Search(p: seq<Byte>, start: nat, end: nat, firstMask: Byte, lastMask: Byte, bit: bool,
                width: nat, address: nat, scratch: nat, ghost k: nat, ghost l: nat)
    returns (pos: int, at: nat, bytes: nat)
    requires start <= end < |p| && width > 0 && k < 8 && l < 8 && (start == end ==> k <= l)
    requires firstMask == FirstMask(k) && lastMask == LastMask(l)
    ensures at + bytes == end + 1 && bytes > 0
    ensures Outcome(p, bit, 8 * start + k, 8 * end + l + 1, at, bytes, pos)
  {
    hide FirstMask, LastMask, EdgeByte, Shows, Position, Outcome, None;
    ghost var lo, hi := 8 * start + k, 8 * end + l + 1;
    MaskZero(k);
    MaskZero(l);
    at, bytes := start, end - start + 1;
    if firstMask != 0 {
      var edge := EdgeByte(p[at], firstMask, bit);
      ShowsFirst(p[at], bit, k);
      ghost var m := 7;
      if lastMask != 0 && bytes == 1 {
        ShowsLast(edge, p[at], bit, k, l);
        edge := EdgeByte(edge, lastMask, bit);
        m := l;
      }
      pos := ServerBitpos([edge], bit, width, scratch);
      OneByte(p, at, edge, bit, k, m, pos);
      if bytes == 1 { return; }
      if pos != -1 && pos != 8 {
        Early(p, bit, lo, 8 * at + 8, hi, at, 1, pos);
        return;
      }
      NothingFound(p, bit, lo, 8 * at + 8, at, 1, pos);
      at, bytes := at + 1, bytes - 1;
    } else {
      NoneEmpty(p, bit, lo);
    }
    var whole := bytes - if lastMask != 0 then 1 else 0;
    if whole > 0 {
      pos := ServerBitpos(p[at..at + whole], bit, width, address + at);
      Slice(p, at, whole, bit, pos);
      Continue(p, bit, lo, 8 * at, 8 * (at + whole), at, whole, pos);
      if bytes == whole { return; }
      if pos != -1 && pos != 8 * whole {
        Early(p, bit, lo, 8 * (at + whole), hi, at, whole, pos);
        return;
      }
      NothingFound(p, bit, lo, 8 * (at + whole), at, whole, pos);
      at, bytes := at + whole, bytes - whole;
    }
    var edge := EdgeByte(p[end], lastMask, bit);
    ShowsItself(p[end], bit);
    ShowsLast(p[end], p[end], bit, 0, l);
    pos := ServerBitpos([edge], bit, width, scratch);
    OneByte(p, end, edge, bit, 0, l, pos);
    Continue(p, bit, lo, 8 * end, hi, at, 1, pos);
  }

  lemma NothingFound(p: seq<Byte>, bit: bool, lo: nat, hi: nat, start: nat, bytes: nat, pos: int)
    requires hi <= 8 * |p| && Outcome(p, bit, lo, hi, start, bytes, pos) && hi == 8 * (start + bytes)
    requires pos == -1 || pos == 8 * bytes
    ensures None(p, bit, lo, hi)
  {
  }

  lemma NoneEmpty(p: seq<Byte>, bit: bool, lo: nat)
    requires lo <= 8 * |p|
    ensures None(p, bit, lo, lo)
  {
  }

  /** The bits BITPOS looks at; unlike BITCOUNT it does not treat reversed negative ends apart. */
  function Looked(size: nat, range: Popcount.Range): (r: (int, int))
    ensures 0 <= r.0 <= r.1 <= 8 * size
  {
    match range
    case Whole => (0, 8 * size)
    case From(start) => Popcount.Units(8, size, Popcount.FirstUnit(size, start), size - 1)
    case FromTo(start, end, isBit) =>
      if isBit then Popcount.Units(1, 8 * size, Popcount.FirstUnit(8 * size, start), Popcount.LastUnit(8 * size, end))
      else Popcount.Units(8, size, Popcount.FirstUnit(size, start), Popcount.LastUnit(size, end))
  }

  /** Both ends count from the end, in reversed order, and the start is not behind the first unit of the string. */
  predicate ReversedAtStart(size: nat, range: Popcount.Range) {
    && range.FromTo? && range.start < 0 && range.end < 0 && range.start > range.end
    && size > 0 && (if range.isBit then 8 * size else size) + range.start <= 0
  }

  /** Of the ranges whose negative ends are reversed, BITPOS takes all for empty but those at the start. */
  lemma ReversedLooked(size: nat, start: int, end: int, isBit: bool)
    requires start < 0 && end < 0 && start > end
    ensures var r := Looked(size, Popcount.FromTo(start, end, isBit));
            r.0 == r.1 <==> size == 0 || (if isBit then 8 * size else size) + start > 0
  {
  }

  /** BITPOS looks at the bits BITCOUNT counts, unless the ends are reversed at the start of the string. */
  lemma LookedIsSelected(size: nat, range: Popcount.Range)
    ensures Looked(size, range) == Popcount.Selected(size, range) <==> !ReversedAtStart(size, range)
  {
    if ReversedAtStart(size, range) { ReversedLooked(size, range.start, range.end, range.isBit); }
  }

  /** BITPOS finds a clear bit in the range from -1 to -2 of a string of one byte; BITCOUNT has no bit there. */
  lemma ReversedFinds()
    ensures Reply([0], false, Popcount.FromTo(-1, -2, false), 0)
    ensures !Reply([0], false, Popcount.FromTo(-1, -2, false), -1)
    ensures Popcount.Selected(1, Popcount.FromTo(-1, -2, false)) == (0, 0)
  {
  }

  /** The reply: the first position, and the one past the string only for a clear bit without an explicit end. */
  predicate Reply(s: seq<Byte>, bit: bool, range: Popcount.Range, pos: int) {
    var r := Looked(|s|, range);
    if r.0 == r.1 then pos == -1
    else
      || First(s, bit, r.0, r.1, pos)
      || (None(s, bit, r.0, r.1) && pos == if bit || range.FromTo? then -1 else 8 * |s|)
  }

  /** The computation of bitposCommand. */
  method BitPos(value: Popcount.Stored, bit: bool, range: Popcount.Range, width: nat, address: nat, scratch: nat)
    returns (pos: int)
    requires width > 0
    ensures value == Popcount.Missing ==> pos == if bit then -1 else 0
    ensures value.Text? ==> Reply(value.bytes, bit, range, pos)
  {
    hide FirstMask, LastMask, Outcome, First, None, Popcount.FirstUnit, Popcount.LastUnit;
    var p := if value.Missing? then [] else value.bytes;
    var start, end, isBit := 0, |p| - 1, false;
    if !range.Whole? {
      var total := |p|;
      if range.FromTo? { end, isBit := range.end, range.isBit; } else { end := total - 1; }
      if isBit { total := 8 * total; }
      start, end := Popcount.Clamp(total, range.start, end);
      Popcount.UnitBounds(total, range.start, if range.FromTo? then range.end else total - 1);
    }
    ghost var lo, hi := if isBit then start else 8 * start, if isBit then end + 1 else 8 * (end + 1);
    assert start <= end ==> Looked(|p|, range) == (lo, hi);
    assert start > end ==> Looked(|p|, range).0 == Looked(|p|, range).1;
    ghost var k, l := if isBit then start % 8 else 0, if isBit && start <= end then end % 8 else 7;
    NoMasks();
    var firstMask: Byte, lastMask: Byte := 0, 0;
    if isBit && start <= end {
      firstMask, lastMask := FirstMask(start % 8), LastMask(end % 8);
      start, end := start / 8, end / 8;
    }
    if value.Missing? { return if bit then -1 else 0; }
    if start > end { return -1; }
    var found, at, bytes := Search(p, start, end, firstMask, lastMask, bit, width, address, scratch, k, l);
    Replies(p, bit, lo, hi, at, bytes, found, range.FromTo?);
    if range.FromTo? && !bit && found == 8 * bytes { return -1; }
    pos := if found != -1 then found + 8 * at else found;
  }

  lemma NoMasks()
    ensures FirstMask(0) == 0 && LastMask(7) == 0
  {
    MaskZero(0);
    MaskZero(7);
  }

  lemma Replies(p: seq<Byte>, bit: bool, lo: nat, hi: nat, at: nat, bytes: nat, pos: int, endGiven: bool)
    requires lo < hi <= 8 * |p| && Outcome(p, bit, lo, hi, at, bytes, pos) && hi <= 8 * (at + bytes) && bytes > 0
    ensures var r := if endGiven && !bit && pos == 8 * bytes then -1 else if pos != -1 then pos + 8 * at else pos;
            || First(p, bit, lo, hi, r)
            || (None(p, bit, lo, hi) && r == if bit || endGiven then -1 else 8 * (at + bytes))
  {
    hide None;
  }
}
