/**
 crcspeed.c on a little-endian machine: lookup tables, eight bytes per step, and buffers
 cut into two or three segments whose CRCs are merged by crc64_combine.
 */
module CrcSpeed {
  import opened Crc64
  import CrcCombine
  import opened Powers

  // ---------------------------------------------------------------- one byte by table

  function LowByte(x: Word): Byte { (x & 0xff) as Byte }

  function Shr8(x: Word): Word { x >> 8 }

  function High(x: Word): Word { x & 0xffffffffffffff00 }

  lemma SplitLowByte(x: Word)
    ensures x == Xor(LowByte(x) as Word, High(x))
    ensures High(x) & 0xff == 0 && High(x) >> 8 == Shr8(x)
  {
  }

  /** Eight zero bits on a value whose low byte is clear only shift it down. */
  lemma EightBitsShift(c: Word)
    requires c & 0xff == 0
    ensures ZeroBits(8, c) == c >> 8
  {
    hide ZeroBits, BitStep;
    EightSteps(c);
    EightShifts(c);
  }

  lemma EightSteps(c: Word)
    ensures ZeroBits(8, c)
         == BitStep(BitStep(BitStep(BitStep(BitStep(BitStep(BitStep(BitStep(c))))))))
  {
    hide BitStep;
    ZeroBitsCompose(4, 4, c);
    FourSteps(c);
    FourSteps(ZeroBits(4, c));
  }

  lemma FourSteps(c: Word)
    ensures ZeroBits(4, c) == BitStep(BitStep(BitStep(BitStep(c))))
  {
    hide BitStep;
    var c1 := BitStep(c);
    var c2 := BitStep(c1);
    var c3 := BitStep(c2);
    assert ZeroBits(1, c3) == BitStep(c3);
    assert ZeroBits(3, c1) == ZeroBits(2, c2);
  }

  lemma EightShifts(c: Word)
    requires c & 0xff == 0
    ensures BitStep(c) == c >> 1 && BitStep(c >> 1) == c >> 2
    ensures BitStep(c >> 2) == c >> 3 && BitStep(c >> 3) == c >> 4
    ensures BitStep(c >> 4) == c >> 5 && BitStep(c >> 5) == c >> 6
    ensures BitStep(c >> 6) == c >> 7 && BitStep(c >> 7) == c >> 8
  {
  }

  /** The single-table recurrence: look up the low byte, shift the rest. */
  lemma TableStep(x: Word)
    ensures ZeroBits(8, x) == Xor(ZeroBits(8, LowByte(x) as Word), Shr8(x))
  {
    hide *;
    SplitLowByte(x);
    ZeroBitsLinear(8, LowByte(x) as Word, High(x));
    EightBitsShift(High(x));
  }

  // ---------------------------------------------------------------- slice by eight

  function Index(b: Byte): (n: nat)
    ensures n < 256
  {
    b as int
  }

  function ByteOf(n: nat): Byte
    requires n < 256
  {
    n as Byte
  }

  lemma IndexInverse(b: Byte)
    ensures ByteOf(Index(b)) == b
  {
  }

  /** Table k maps a byte to its CRC followed by k zero bytes. */
  ghost function Entry(k: nat, n: nat): Word
    requires n < 256
  {
    ZeroBits(8 * k + 8, ByteOf(n) as Word)
  }

  ghost predicate TableReady(table: array2<Word>)
    reads table
  {
    && table.Length0 == 8 && table.Length1 == 256
    && forall k: nat, n: nat :: k < 8 && n < 256 ==> table[k, n] == Entry(k, n)
  }

  /** One look-up in a filled table. */
  lemma EntryIs(k: nat, b: Byte)
    ensures Entry(k, Index(b)) == ZeroBits(8 * k + 8, b as Word)
  {
    hide ZeroBits, ByteOf, Index;
    IndexInverse(b);
  }

  /** The value of the look-up that serves the low byte of x, m byte steps before the end. */
  ghost function LookUp(m: nat, x: Word): Word {
    ZeroBits(8 * m, LowByte(x) as Word)
  }

  ghost function Slices(m: nat, x: Word): Word {
    if m == 0 then x else Xor(LookUp(m, x), Slices(m - 1, Shr8(x)))
  }

  lemma SlicesStep(m: nat, x: Word)
    requires m > 0
    ensures Slices(m, x) == Xor(LookUp(m, x), Slices(m - 1, Shr8(x)))
  {
    hide LookUp, Xor, Shr8;
  }

  lemma SlicesNone(x: Word)
    ensures Slices(0, x) == x
  {
  }

  /** m byte steps are m table look-ups on the bytes of the register. */
  lemma {:induction false} SlicesCorrect(m: nat, x: Word)
    ensures ZeroBits(8 * m, x) == Slices(m, x)
  {
    hide ZeroBits, Xor, LowByte, Shr8;
    if m == 0 {
      ZeroBitsNone(x);
    } else {
      var lo := LowByte(x) as Word;
      ZeroBitsCompose(8, 8 * (m - 1), x);
      TableStep(x);
      ZeroBitsLinear(8 * (m - 1), ZeroBits(8, lo), Shr8(x));
      ZeroBitsCompose(8, 8 * (m - 1), lo);
      SlicesCorrect(m - 1, Shr8(x));
    }
  }

  lemma ByteAt(x: Word)
    ensures LowByte(Shr8(x)) == ((x >> 8) & 0xff) as Byte
    ensures LowByte(Shr8(Shr8(x))) == ((x >> 16) & 0xff) as Byte
    ensures LowByte(Shr8(Shr8(Shr8(x)))) == ((x >> 24) & 0xff) as Byte
    ensures LowByte(Shr8(Shr8(Shr8(Shr8(x))))) == ((x >> 32) & 0xff) as Byte
  {
  }

  lemma ByteAtHigh(x: Word)
    ensures LowByte(Shr8(Shr8(Shr8(Shr8(Shr8(x)))))) == ((x >> 40) & 0xff) as Byte
    ensures LowByte(Shr8(Shr8(Shr8(Shr8(Shr8(Shr8(x))))))) == ((x >> 48) & 0xff) as Byte
    ensures LowByte(Shr8(Shr8(Shr8(Shr8(Shr8(Shr8(Shr8(x)))))))) == (x >> 56) as Byte
    ensures Shr8(Shr8(Shr8(Shr8(Shr8(Shr8(Shr8(Shr8(x)))))))) == 0
  {
  }

  /** DO_8_2: eight look-ups replace eight byte steps. */
  method SliceBy8(table: array2<Word>, crc: Word) returns (r: Word)
    requires TableReady(table)
    ensures r == ZeroBits(64, crc)
  {
    hide *;
    var i7, i6 := LowByte(crc), ((crc >> 8) & 0xff) as Byte;
    var i5, i4 := ((crc >> 16) & 0xff) as Byte, ((crc >> 24) & 0xff) as Byte;
    var i3, i2 := ((crc >> 32) & 0xff) as Byte, ((crc >> 40) & 0xff) as Byte;
    var i1, i0 := ((crc >> 48) & 0xff) as Byte, (crc >> 56) as Byte;
    var t7 := Lookup(table, 7, i7);
    var t6 := Lookup(table, 6, i6);
    var t5 := Lookup(table, 5, i5);
    var t4 := Lookup(table, 4, i4);
    var t3 := Lookup(table, 3, i3);
    var t2 := Lookup(table, 2, i2);
    var t1 := Lookup(table, 1, i1);
    var t0 := Lookup(table, 0, i0);
    r := Xor(Xor(Xor(Xor(Xor(Xor(Xor(t7, t6), t5), t4), t3), t2), t1), t0);
    SliceSum(crc);
    XorChain(t7, t6, t5, t4, t3, t2, t1, t0);
  }

  /** little_table[k][b]. */
  method Lookup(table: array2<Word>, k: nat, b: Byte) returns (r: Word)
    requires TableReady(table) && k < 8
    ensures r == ZeroBits(8 * k + 8, b as Word)
  {
    hide ZeroBits, Entry, ByteOf, Index;
    EntryIs(k, b);
    r := table[k, Index(b)];
  }

  /** Eight byte steps as eight values looked up by the bytes of the register. */
  lemma SliceSum(x: Word)
    ensures ZeroBits(64, x)
         == Xor(ZeroBits(64, LowByte(x) as Word), Xor(ZeroBits(56, ((x >> 8) & 0xff) as Byte as Word),
            Xor(ZeroBits(48, ((x >> 16) & 0xff) as Byte as Word), Xor(ZeroBits(40, ((x >> 24) & 0xff) as Byte as Word),
            Xor(ZeroBits(32, ((x >> 32) & 0xff) as Byte as Word), Xor(ZeroBits(24, ((x >> 40) & 0xff) as Byte as Word),
            Xor(ZeroBits(16, ((x >> 48) & 0xff) as Byte as Word), Xor(ZeroBits(8, (x >> 56) as Byte as Word), 0))))))))
  {
    hide *;
    SlicesCorrect(8, x);
    SlicesUnrolled(x);
    ByteAt(x);
    ByteAtHigh(x);
    var x1 := Shr8(x);
    var x2 := Shr8(x1);
    var x3 := Shr8(x2);
    var x4 := Shr8(x3);
    var x5 := Shr8(x4);
    var x6 := Shr8(x5);
    LookUpIs(8, x);
    LookUpIs(7, x1);
    LookUpIs(6, x2);
    LookUpIs(5, x3);
    LookUpIs(4, x4);
    LookUpIs(3, x5);
    LookUpIs(2, x6);
    LookUpIs(1, Shr8(x6));
  }

  lemma LookUpIs(m: nat, x: Word)
    ensures LookUp(m, x) == ZeroBits(8 * m, LowByte(x) as Word)
  {
  }

  lemma SlicesUnrolled(x: Word)
    ensures var x1 := Shr8(x); var x2 := Shr8(x1); var x3 := Shr8(x2); var x4 := Shr8(x3);
            var x5 := Shr8(x4); var x6 := Shr8(x5); var x7 := Shr8(x6);
            Slices(8, x) == Xor(LookUp(8, x), Xor(LookUp(7, x1), Xor(LookUp(6, x2), Xor(LookUp(5, x3),
                            Xor(LookUp(4, x4), Xor(LookUp(3, x5), Xor(LookUp(2, x6), Xor(LookUp(1, x7), 0))))))))
  {
    hide *;
    var x1 := Shr8(x);
    var x2 := Shr8(x1);
    var x3 := Shr8(x2);
    var x4 := Shr8(x3);
    var x5 := Shr8(x4);
    var x6 := Shr8(x5);
    var x7 := Shr8(x6);
    SlicesStep(8, x);
    SlicesStep(7, x1);
    SlicesStep(6, x2);
    SlicesStep(5, x3);
    SlicesStep(4, x4);
    SlicesStep(3, x5);
    SlicesStep(2, x6);
    SlicesStep(1, x7);
    SlicesNone(Shr8(x7));
    ByteAtHigh(x);
  }

  /** The left-nested sum of DO_8_2 and the right-nested one of the recurrence. */
  lemma XorChain(a: Word, b: Word, c: Word, d: Word, e: Word, f: Word, g: Word, h: Word)
    ensures Xor(Xor(Xor(Xor(Xor(Xor(Xor(a, b), c), d), e), f), g), h)
         == Xor(a, Xor(b, Xor(c, Xor(d, Xor(e, Xor(f, Xor(g, Xor(h, 0))))))))
  {
    hide *;
    XorUnit(h);
    XorAssoc(a, b, c);
    XorAssoc(a, Xor(b, c), d);
    XorAssoc(b, c, d);
    var s4 := Xor(b, Xor(c, d));
    XorFour(a, b, c, d);
    XorFour(Xor(Xor(Xor(a, b), c), d), e, f, Xor(g, h));
    XorAssoc(Xor(Xor(Xor(Xor(Xor(a, b), c), d), e), f), g, h);
    XorTail(a, b, c, d, Xor(e, Xor(f, Xor(g, h))));
  }

  lemma XorFour(a: Word, b: Word, c: Word, d: Word)
    ensures Xor(Xor(Xor(a, b), c), d) == Xor(a, Xor(b, Xor(c, d)))
  {
    hide *;
    XorAssoc(Xor(a, b), c, d);
    XorAssoc(a, b, Xor(c, d));
  }

  lemma XorTail(a: Word, b: Word, c: Word, d: Word, t: Word)
    ensures Xor(Xor(Xor(Xor(a, b), c), d), t) == Xor(a, Xor(b, Xor(c, Xor(d, t))))
  {
    hide *;
    XorAssoc(Xor(Xor(a, b), c), d, t);
    XorFour(a, b, c, Xor(d, t));
  }

  // ---------------------------------------------------------------- eight message bytes

  function Shl8(x: Word): Word { x << 8 }

  /** The value of a little-endian load. */
  function LittleEndian(s: seq<Byte>): Word {
    if s == [] then 0 else Xor(s[0] as Word, Shl8(LittleEndian(s[1..])))
  }

  ghost function ByteRoom(m: nat): Word {
    if m == 0 then 0 else FullByteBelow(ByteRoom(m - 1))
  }

  ghost function FullByteBelow(x: Word): Word { Shl8(x) | 0xff }

  /** Values of at most m bytes. */
  ghost predicate FitsBytes(v: Word, m: nat) {
    Inside(v, ByteRoom(m))
  }

  lemma {:induction false} LoadFits(s: seq<Byte>)
    ensures FitsBytes(LittleEndian(s), |s|)
  {
    hide FitsBytes, Xor, Shl8;
    if s == [] {
      ZeroFits();
    } else {
      LoadFits(s[1..]);
      FitsOneMore(s[0], LittleEndian(s[1..]), |s| - 1);
    }
  }

  lemma ZeroFits()
    ensures FitsBytes(0, 0)
  {
  }

  lemma FitsOneMore(b: Byte, v: Word, m: nat)
    requires FitsBytes(v, m)
    ensures FitsBytes(Xor(b as Word, Shl8(v)), m + 1)
  {
    hide Inside, Xor, Shl8, FullByteBelow;
    FitsOneMoreRaw(b, v, ByteRoom(m));
  }

  lemma FitsOneMoreRaw(b: Byte, v: Word, m: Word)
    requires Inside(v, m)
    ensures Inside(Xor(b as Word, Shl8(v)), FullByteBelow(m))
  {
  }

  lemma {:induction false} RoomGrows(j: nat, k: nat)
    requires j <= k
    ensures Inside(ByteRoom(j), ByteRoom(k))
  {
    hide FullByteBelow, Inside;
    if j == 0 {
      NothingInside(ByteRoom(k));
    } else {
      RoomGrows(j - 1, k - 1);
      RoomGrowsRaw(ByteRoom(j - 1), ByteRoom(k - 1));
    }
  }

  lemma RoomGrowsRaw(a: Word, b: Word)
    requires Inside(a, b)
    ensures Inside(FullByteBelow(a), FullByteBelow(b))
  {
  }

  lemma NothingInside(b: Word)
    ensures Inside(0, b)
  {
  }

  lemma Room7()
    ensures ByteRoom(7) == 0xffffffffffffff
  {
    assert ByteRoom(2) == 0xffff;
    assert ByteRoom(4) == 0xffffffff;
    assert ByteRoom(6) == 0xffffffffffff;
  }

  /** Values of fewer than eight bytes can be shifted up a byte and stepped back down. */
  lemma ShiftUpDown(v: Word, m: nat)
    requires m < 8 && FitsBytes(v, m)
    ensures ZeroBits(8, Shl8(v)) == v
  {
    hide *;
    FitsDef(v, m);
    RoomGrows(m, 7);
    Room7();
    ShiftUpDownRaw(v, ByteRoom(m));
    EightBitsShift(Shl8(v));
  }

  lemma FitsDef(v: Word, m: nat)
    ensures FitsBytes(v, m) <==> Inside(v, ByteRoom(m))
  {
  }

  lemma ShiftUpDownRaw(v: Word, m: Word)
    requires Inside(v, m) && Inside(m, 0xffffffffffffff)
    ensures Shl8(v) & 0xff == 0 && Shl8(v) >> 8 == v
  {
  }

  /** Up to eight bytes can be added to the register at once. */
  lemma {:induction false} LoadCrc(c: Word, s: seq<Byte>)
    requires |s| <= 8
    ensures Crc(c, s) == ZeroBits(8 * |s|, Xor(c, LittleEndian(s)))
    decreases |s|
  {
    hide ZeroBits, Xor, Shl8, FitsBytes;
    if s == [] {
      XorUnit(c);
      ZeroBitsNone(c);
    } else {
      var b, t := s[0] as Word, s[1..];
      var up := Shl8(LittleEndian(t));
      LoadCrc(ByteStep(c, s[0]), t);
      LoadFits(t);
      ShiftUpDown(LittleEndian(t), |t|);
      ZeroBitsLinear(8, Xor(c, b), up);
      XorAssoc(c, b, up);
      ZeroBitsCompose(8, 8 * |t|, Xor(c, LittleEndian(s)));
    }
  }

  // ---------------------------------------------------------------- table generation

  lemma SingleByte(b: Byte)
    ensures Crc(Reflect(0), [b]) == ZeroBits(8, b as Word)
  {
    hide ZeroBits, Xor;
    assert Reflect(0) == 0;
    XorUnit(b as Word);
    assert [b][1..] == [];
  }

  /** The recurrence that derives each table from the previous one. */
  lemma EntryStep(k: nat, n: nat)
    requires n < 256
    ensures var crc := Entry(k, n); Entry(k + 1, n) == Xor(Entry(0, Index(LowByte(crc))), Shr8(crc))
  {
    hide *;
    var crc, w := Entry(k, n), ByteOf(n) as Word;
    EntryDef(k, n);
    EntryDef(k + 1, n);
    ZeroBitsCompose(8 * k + 8, 8, w);
    TableStep(crc);
    EntryIs(0, LowByte(crc));
  }

  lemma EntryDef(k: nat, n: nat)
    requires n < 256
    ensures Entry(k, n) == ZeroBits(8 * k + 8, ByteOf(n) as Word)
  {
  }

  /** crcspeed64little_init with `_crc64` as the CRC function. */
  method InitTable(table: array2<Word>)
    requires table.Length0 == 8 && table.Length1 == 256
    modifies table
    ensures TableReady(table)
  {
    hide Entry, ByteOf, Index, Xor, LowByte, Shr8, Crc, Reflect, ZeroBits;
    for n := 0 to 256
      invariant forall i: nat :: i < n ==> table[0, i] == Entry(0, i)
    {
      var v := ByteOf(n);
      var crc := Reference(0, [v]);
      SingleByte(v);
      EntryDef(0, n);
      table[0, n] := crc;
    }
    for n := 0 to 256
      invariant forall i: nat :: i < 256 ==> table[0, i] == Entry(0, i)
      invariant forall k: nat, i: nat :: k < 8 && i < n ==> table[k, i] == Entry(k, i)
    {
      var crc := table[0, n];
      for k := 1 to 8
        invariant crc == Entry(k - 1, n)
        invariant forall i: nat :: i < 256 ==> table[0, i] == Entry(0, i)
        invariant forall j: nat, i: nat :: j < 8 && i < n ==> table[j, i] == Entry(j, i)
        invariant forall j: nat :: j < k ==> table[j, n] == Entry(j, n)
      {
        EntryStep(k - 1, n);
        crc := Xor(table[0, Index(LowByte(crc))], Shr8(crc));
        table[k, n] := crc;
      }
    }
  }

  // ---------------------------------------------------------------- crcspeed64little

  /** One table step on the next byte of a buffer. */
  method Feed1(table: array2<Word>, crc: Word, buf: seq<Byte>, next: nat, ghost start: Word, ghost from: nat)
    returns (r: Word)
    requires TableReady(table) && from <= next < |buf|
    requires crc == Crc(start, buf[from..next])
    ensures r == Crc(start, buf[from..next + 1])
  {
    hide *;
    var x := Xor(crc, buf[next] as Word);
    var t := Lookup(table, 0, LowByte(x));
    r := Xor(t, Shr8(crc));
    TableStep(x);
    ShiftIgnoresByte(crc, buf[next]);
    ByteStepDef(crc, buf[next]);
    assert buf[from..next + 1] == buf[from..next] + [buf[next]];
    CrcAppend(start, buf[from..next], buf[next]);
  }

  lemma ShiftIgnoresByte(c: Word, b: Byte)
    ensures Shr8(Xor(c, b as Word)) == Shr8(c)
  {
  }

  /** DO_8_1 and DO_8_2 on the next eight bytes of a buffer. */
  method Feed8(table: array2<Word>, crc: Word, buf: seq<Byte>, next: nat, ghost start: Word, ghost from: nat)
    returns (r: Word)
    requires TableReady(table) && from <= next && next + 8 <= |buf|
    requires crc == Crc(start, buf[from..next])
    ensures r == Crc(start, buf[from..next + 8])
  {
    hide *;
    var word := LittleEndian(buf[next..next + 8]);
    r := SliceBy8(table, Xor(crc, word));
    LoadCrc(crc, buf[next..next + 8]);
    assert buf[from..next + 8] == buf[from..next] + buf[next..next + 8];
    CrcConcat(start, buf[from..next], buf[next..next + 8]);
  }

  /** CRC64_SPLIT: a segment length, (len / div) & 0x7ffffffffffffff8 in 64 bits. */
  function SegmentLength(len: nat, div: nat): nat
    requires div >= 2
  {
    var q := len / div % Pow2(63);
    q - q % 8
  }

  lemma SegmentFits(len: nat, div: nat)
    requires div == 2 || div == 3
    ensures div * SegmentLength(len, div) <= len && SegmentLength(len, div) % 8 == 0
  {
    hide Pow2;
    ModAtMost(len / div, Pow2(63));
  }

  lemma ModAtMost(a: nat, b: nat)
    requires b > 0
    ensures a % b <= a
  {
  }

  /** The 24 bytes per turn loop: three registers over three adjacent segments. */
  method ThreeSegments(table: array2<Word>, crc: Word, buf: seq<Byte>, next: nat, seg: nat,
                       ghost start: Word)
    returns (crc1: Word, crc2: Word, crc3: Word)
    requires TableReady(table) && next + 3 * seg <= |buf| && seg % 8 == 0
    requires crc == Crc(start, buf[0..next])
    ensures crc1 == Crc(start, buf[0..next + seg])
    ensures crc2 == Crc(0, buf[next + seg..next + 2 * seg])
    ensures crc3 == Crc(0, buf[next + 2 * seg..next + 3 * seg])
  {
    hide *;
    var next1, next2, next3, len := next, next + seg, next + 2 * seg, seg;
    crc1, crc2, crc3 := crc, 0, 0;
    EmptyCrc(buf, next2);
    EmptyCrc(buf, next3);
    while len >= 8
      invariant 0 <= len && next1 + len == next + seg && next2 + len == next + 2 * seg && next3 + len == next + 3 * seg
      invariant len % 8 == 0
      invariant crc1 == Crc(start, buf[0..next1])
      invariant crc2 == Crc(0, buf[next + seg..next2])
      invariant crc3 == Crc(0, buf[next + 2 * seg..next3])
    {
      len := len - 8;
      crc1 := Feed8(table, crc1, buf, next1, start, 0);
      crc2 := Feed8(table, crc2, buf, next2, 0, next + seg);
      crc3 := Feed8(table, crc3, buf, next3, 0, next + 2 * seg);
      next1, next2, next3 := next1 + 8, next2 + 8, next3 + 8;
    }
  }

  /** The 16 bytes per turn loop. */
  method TwoSegments(table: array2<Word>, crc: Word, buf: seq<Byte>, next: nat, seg: nat,
                     ghost start: Word)
    returns (crc1: Word, crc2: Word)
    requires TableReady(table) && next + 2 * seg <= |buf| && seg % 8 == 0
    requires crc == Crc(start, buf[0..next])
    ensures crc1 == Crc(start, buf[0..next + seg])
    ensures crc2 == Crc(0, buf[next + seg..next + 2 * seg])
  {
    hide *;
    var next1, next2, len := next, next + seg, seg;
    crc1, crc2 := crc, 0;
    EmptyCrc(buf, next2);
    while len >= 8
      invariant 0 <= len && next1 + len == next + seg && next2 + len == next + 2 * seg
      invariant len % 8 == 0
      invariant crc1 == Crc(start, buf[0..next1])
      invariant crc2 == Crc(0, buf[next + seg..next2])
    {
      len := len - 8;
      crc1 := Feed8(table, crc1, buf, next1, start, 0);
      crc2 := Feed8(table, crc2, buf, next2, 0, next + seg);
      next1, next2 := next1 + 8, next2 + 8;
    }
  }

  lemma EmptyCrc(buf: seq<Byte>, i: nat)
    requires i <= |buf|
    ensures Crc(0, buf[i..i]) == 0
  {
  }

  /** MERGE_CRC: the register of a finished prefix absorbs the CRC of the next segment. */
  method Merge(cache: array2<Word>, crc1: Word, crcn: Word, seg: nat,
               ghost buf: seq<Byte>, ghost next: nat, ghost start: Word)
    returns (r: Word)
    requires CrcCombine.Valid(cache) && next + seg <= |buf| && seg < Pow2(64)
    requires crc1 == Crc(start, buf[0..next]) && crcn == Crc(0, buf[next..next + seg])
    modifies cache
    ensures CrcCombine.Valid(cache)
    ensures r == Crc(start, buf[0..next + seg])
  {
    hide Crc, CrcCombine.Valid;
    r := CrcCombine.CombineBlocks(cache, crc1, crcn, seg, start, buf[0..next], buf[next..next + seg]);
    assert buf[0..next + seg] == buf[0..next] + buf[next..next + seg];
  }

  /** The large-buffer part: split, run the segments side by side, merge, move past them. */
  method Segments(table: array2<Word>, cache: array2<Word>, crc: Word, buf: seq<Byte>, next: nat,
                  dualCutoff: nat, triCutoff: nat, ghost start: Word)
    returns (crc1: Word, next1: nat)
    requires TableReady(table) && CrcCombine.Valid(cache) && table != cache
    requires |buf| < Pow2(64) && next <= |buf|
    requires crc == Crc(start, buf[0..next])
    modifies cache
    ensures CrcCombine.Valid(cache)
    ensures next <= next1 <= |buf| && crc1 == Crc(start, buf[0..next1])
  {
    hide Crc, TableReady, CrcCombine.Valid, Pow2, SegmentLength;
    var len := |buf| - next;
    if len > triCutoff {
      var seg := SegmentLength(len, 3);
      SegmentFits(len, 3);
      var crc2, crc3;
      crc1, crc2, crc3 := ThreeSegments(table, crc, buf, next, seg, start);
      crc1 := Merge(cache, crc1, crc2, seg, buf, next + seg, start);
      crc1 := Merge(cache, crc1, crc3, seg, buf, next + 2 * seg, start);
      next1 := next + 3 * seg;
    } else if len > dualCutoff {
      var seg := SegmentLength(len, 2);
      SegmentFits(len, 2);
      var crc2;
      crc1, crc2 := TwoSegments(table, crc, buf, next, seg, start);
      crc1 := Merge(cache, crc1, crc2, seg, buf, next + seg, start);
      next1 := next + 2 * seg;
    } else {
      crc1, next1 := crc, next;
    }
  }

  /**
   crcspeed64little for a buffer at address `addr`, with both cutoffs arbitrary: bytes up
   to an aligned address, two or three segments in parallel, words, and a byte tail.
   */
  method SpeedLittle(table: array2<Word>, cache: array2<Word>, crc: Word, buf: seq<Byte>,
                     addr: nat, dualCutoff: nat, triCutoff: nat)
    returns (crc1: Word)
    requires TableReady(table) && CrcCombine.Valid(cache) && table != cache
    requires |buf| < Pow2(64)
    modifies cache
    ensures CrcCombine.Valid(cache)
    ensures crc1 == Crc(crc, buf)
  {
    hide Crc, TableReady, CrcCombine.Valid, Pow2, SegmentLength;
    var next1, len := 0, |buf|;
    crc1 := crc;
    NoBytes(crc, buf);
    if dualCutoff >= 1 {
      while len != 0 && (addr + next1) % 8 != 0
        invariant 0 <= next1 && 0 <= len && next1 + len == |buf| && CrcCombine.Valid(cache)
        invariant crc1 == Crc(crc, buf[0..next1])
      {
        crc1 := Feed1(table, crc1, buf, next1, crc, 0);
        next1, len := next1 + 1, len - 1;
      }
      crc1, next1 := Segments(table, cache, crc1, buf, next1, dualCutoff, triCutoff, crc);
      len := |buf| - next1;
      while len >= 8
        invariant 0 <= next1 && 0 <= len && next1 + len == |buf| && CrcCombine.Valid(cache)
        invariant crc1 == Crc(crc, buf[0..next1])
      {
        crc1 := Feed8(table, crc1, buf, next1, crc, 0);
        next1, len := next1 + 8, len - 8;
      }
    }
    while len != 0
      invariant 0 <= next1 && 0 <= len && next1 + len == |buf| && CrcCombine.Valid(cache)
      invariant crc1 == Crc(crc, buf[0..next1])
    {
      crc1 := Feed1(table, crc1, buf, next1, crc, 0);
      next1, len := next1 + 1, len - 1;
    }
    assert buf[0..|buf|] == buf;
  }

  lemma NoBytes(c: Word, buf: seq<Byte>)
    ensures Crc(c, buf[0..0]) == c
  {
  }

  /**
   crc64 of a reflected start value agrees with `_crc64`, whatever the alignment and the
   cutoffs; both are computed here and compared.
   */
  method AgreesWithReference(table: array2<Word>, cache: array2<Word>, start: Word, buf: seq<Byte>,
                             addr: nat, dualCutoff: nat, triCutoff: nat)
    returns (fast: Word, slow: Word)
    requires TableReady(table) && CrcCombine.Valid(cache) && table != cache
    requires |buf| < Pow2(64)
    modifies cache
    ensures CrcCombine.Valid(cache)
    ensures fast == slow == Crc(Reflect(start), buf)
  {
    fast := SpeedLittle(table, cache, Reflect(start), buf, addr, dualCutoff, triCutoff);
    slow := Reference(start, buf);
  }
}
