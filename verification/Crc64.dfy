/**
 CRC-64 in its reflected (least significant bit first) form, the bit-by-bit reference
 `_crc64` of crc64.c, and the algebra that every fast variant relies on: one step of the
 register is linear over xor, so feeding bytes is "append zeros" plus a correction.
 */
module Crc64 {

  type Word = bv64
  type Byte = bv8

  // POLY of crc64.c and its bit reversal, CRC64_REVERSED_POLY of crcspeed.c.
  const POLY: Word := 0xad93d23594c935a9
  const REVERSED_POLY: Word := 0x95ac9329ac4bc9b5

  // ---------------------------------------------------------------- words over xor

  function Xor(x: Word, y: Word): Word { x ^ y }

  function Shr1(x: Word): Word { x >> 1 }

  predicate Low(x: Word) { x & 1 == 1 }

  /** Every bit of a is a bit of b. */
  predicate Inside(a: Word, b: Word) { a & !b == 0 }

  lemma XorDef(x: Word, y: Word)
    ensures Xor(x, y) == x ^ y
  {
  }

  lemma XorAssocInner(x: Word, y: Word, z: Word)
    ensures Xor(x ^ y, z) == Xor(x, y ^ z)
  {
  }

  lemma XorAssoc(x: Word, y: Word, z: Word)
    ensures Xor(Xor(x, y), z) == Xor(x, Xor(y, z))
  {
    hide *;
    XorDef(x, y);
    XorDef(y, z);
    XorAssocInner(x, y, z);
  }

  lemma XorUnit(x: Word)
    ensures Xor(x, 0) == x && Xor(0, x) == x && Xor(x, x) == 0
  {
  }

  lemma LowXor(x: Word, y: Word)
    ensures Low(Xor(x, y)) == (Low(x) != Low(y))
  {
  }

  lemma Shr1Xor(x: Word, y: Word)
    ensures Shr1(Xor(x, y)) == Xor(Shr1(x), Shr1(y))
  {
  }

  lemma XorCommute(x: Word, y: Word)
    ensures Xor(x, y) == Xor(y, x)
  {
  }

  /** Where a constant added to either or both operands ends up. */
  lemma XorShuffle(a: Word, b: Word, p: Word)
    ensures Xor(Xor(a, b), p) == Xor(a, Xor(b, p))
    ensures Xor(Xor(a, b), p) == Xor(Xor(a, p), b)
    ensures Xor(Xor(a, p), Xor(b, p)) == Xor(a, b)
  {
    hide *;
    XorAssoc(a, b, p);
    XorCommute(b, p);
    XorAssoc(a, p, b);
    XorAssoc(a, p, Xor(b, p));
    XorAssoc(p, p, b);
    XorUnit(p);
    XorUnit(b);
  }

  // ---------------------------------------------------------------- specification

  /** One zero bit shifted into a reflected register. */
  function BitStep(c: Word): Word {
    if Low(c) then Xor(Shr1(c), REVERSED_POLY) else Shr1(c)
  }

  /** The operator "append n zero bits". */
  function ZeroBits(n: nat, c: Word): Word {
    if n == 0 then c else ZeroBits(n - 1, BitStep(c))
  }

  /** One message byte fed to a reflected register. */
  function ByteStep(c: Word, b: Byte): Word {
    ZeroBits(8, Xor(c, b as Word))
  }

  /** The CRC of a message, from an arbitrary start value. */
  function Crc(c: Word, s: seq<Byte>): Word
    decreases |s|
  {
    if s == [] then c else Crc(ByteStep(c, s[0]), s[1..])
  }

  // ---------------------------------------------------------------- linearity

  lemma BitStepLinear(x: Word, y: Word)
    ensures BitStep(Xor(x, y)) == Xor(BitStep(x), BitStep(y))
  {
    hide Xor, Shr1, Low;
    LowXor(x, y);
    Shr1Xor(x, y);
    XorShuffle(Shr1(x), Shr1(y), REVERSED_POLY);
  }

  lemma {:induction false} ZeroBitsLinear(n: nat, x: Word, y: Word)
    ensures ZeroBits(n, Xor(x, y)) == Xor(ZeroBits(n, x), ZeroBits(n, y))
  {
    hide BitStep, Xor;
    if n > 0 {
      BitStepLinear(x, y);
      ZeroBitsLinear(n - 1, BitStep(x), BitStep(y));
    }
  }

  lemma {:induction false} ZeroBitsZero(n: nat)
    ensures ZeroBits(n, 0) == 0
  {
    if n > 0 { ZeroBitsZero(n - 1); }
  }

  lemma {:induction false} ZeroBitsCompose(m: nat, n: nat, c: Word)
    ensures ZeroBits(n, ZeroBits(m, c)) == ZeroBits(m + n, c)
  {
    hide BitStep;
    if m > 0 { ZeroBitsCompose(m - 1, n, BitStep(c)); }
  }

  // ---------------------------------------------------------------- composition

  lemma {:induction false} CrcConcat(c: Word, s: seq<Byte>, t: seq<Byte>)
    ensures Crc(c, s + t) == Crc(Crc(c, s), t)
    decreases |s|
  {
    hide ByteStep;
    if s == [] {
      assert s + t == t;
    } else {
      assert (s + t)[1..] == s[1..] + t;
      CrcConcat(ByteStep(c, s[0]), s[1..], t);
    }
  }

  lemma CrcAppend(c: Word, s: seq<Byte>, b: Byte)
    ensures Crc(c, s + [b]) == ByteStep(Crc(c, s), b)
  {
    hide ByteStep;
    CrcConcat(c, s, [b]);
    assert [b][1..] == [];
  }

  /** A start value and a message act independently: CRCs are affine in the register. */
  lemma {:induction false} CrcAffine(c: Word, d: Word, s: seq<Byte>)
    ensures Crc(Xor(c, d), s) == Xor(ZeroBits(8 * |s|, c), Crc(d, s))
    decreases |s|
  {
    hide Xor, ZeroBits;
    if s == [] {
      assert ZeroBits(0, c) == c by { ZeroBitsNone(c); }
    } else {
      var w := s[0] as Word;
      XorAssoc(c, d, w);
      ZeroBitsLinear(8, c, Xor(d, w));
      CrcAffine(ZeroBits(8, c), ByteStep(d, s[0]), s[1..]);
      ZeroBitsCompose(8, 8 * |s[1..]|, c);
    }
  }

  lemma ZeroBitsNone(c: Word)
    ensures ZeroBits(0, c) == c
  {
  }

  /** The law crc64_combine implements. */
  lemma CombineLaw(c: Word, a: seq<Byte>, b: seq<Byte>)
    ensures Crc(c, a + b) == Xor(ZeroBits(8 * |b|, Crc(c, a)), Crc(0, b))
  {
    hide *;
    CrcConcat(c, a, b);
    CrcAffine(Crc(c, a), 0, b);
    XorUnit(Crc(c, a));
  }

  // ---------------------------------------------------------------- crc_reflect

  /** crc_reflect(data, 64): swaps of bits, pairs, nibbles, bytes, and of 2 and 4 byte groups. */
  function Reflect(data: Word): Word {
    var d1 := ((data >> 1) & 0x5555555555555555) | ((data & 0x5555555555555555) << 1);
    var d2 := ((d1 >> 2) & 0x3333333333333333) | ((d1 & 0x3333333333333333) << 2);
    var d3 := ((d2 >> 4) & 0x0F0F0F0F0F0F0F0F) | ((d2 & 0x0F0F0F0F0F0F0F0F) << 4);
    var d4 := ((d3 >> 8) & 0x00FF00FF00FF00FF) | ((d3 & 0x00FF00FF00FF00FF) << 8);
    var d5 := ((d4 >> 16) & 0x0000FFFF0000FFFF) | ((d4 & 0x0000FFFF0000FFFF) << 16);
    ((d5 >> 32) & 0x00000000FFFFFFFF) | ((d5 & 0x00000000FFFFFFFF) << 32)
  }

  lemma ReflectInvolution(x: Word)
    ensures Reflect(Reflect(x)) == x
  {
  }

  lemma ReflectShift(x: Word)
    ensures Reflect(x << 1) == Shr1(Reflect(x))
  {
  }

  lemma ReflectTop(x: Word)
    ensures x & 0x8000000000000000 != 0 <==> Low(Reflect(x))
  {
  }

  lemma ReflectBits(x: Word, y: Word)
    ensures Reflect(x ^ y) == Reflect(x) ^ Reflect(y)
  {
  }

  lemma ReflectXor(x: Word, y: Word)
    ensures Reflect(Xor(x, y)) == Xor(Reflect(x), Reflect(y))
  {
    hide Reflect;
    ReflectBits(x, y);
  }

  lemma ReflectPoly()
    ensures Reflect(POLY) == REVERSED_POLY
  {
  }

  // ---------------------------------------------------------------- _crc64

  /** One turn of the inner loop of `_crc64` on the unreflected register. */
  function MsbStep(crc: Word, dataBit: bool): Word {
    var bit := (crc & 0x8000000000000000 != 0) != dataBit;
    if bit then Xor(crc << 1, POLY) else crc << 1
  }

  /** The reflected register sees the same turn as a data bit xored in at the bottom. */
  lemma MsbStepReflected(crc: Word, dataBit: bool)
    ensures Reflect(MsbStep(crc, dataBit)) == BitStep(Xor(Reflect(crc), Bottom(dataBit)))
  {
    hide Xor, Reflect, Shr1, Low, Bottom;
    ReflectShift(crc);
    ReflectTop(crc);
    ReflectXor(crc << 1, POLY);
    ReflectPoly();
    BottomXor(Reflect(crc), dataBit);
  }

  function Bottom(b: bool): Word { if b then 1 else 0 }

  lemma BottomXor(r: Word, b: bool)
    ensures Low(Xor(r, Bottom(b))) == (Low(r) != b)
    ensures Shr1(Xor(r, Bottom(b))) == Shr1(r)
  {
  }

  /** Bits of a byte still to be fed, the next one at the bottom. */
  function Rest(c: Byte, turn: nat): Word
    requires turn <= 8
  {
    if turn == 0 then c as Word else Shr1(Rest(c, turn - 1))
  }

  lemma SplitLow(w: Word)
    ensures w == Xor(Bottom(Low(w)), w & 0xfffffffffffffffe)
    ensures BitStep(w & 0xfffffffffffffffe) == Shr1(w)
  {
  }

  /** Feeding the next bit of a byte and stepping commutes with feeding the whole rest. */
  lemma FeedBit(n: nat, r: Word, w: Word)
    requires n > 0
    ensures ZeroBits(n - 1, Xor(BitStep(Xor(r, Bottom(Low(w)))), Shr1(w))) == ZeroBits(n, Xor(r, w))
  {
    hide Xor, BitStep, Low, Shr1, Bottom;
    var hi := w & 0xfffffffffffffffe;
    SplitLow(w);
    XorAssoc(r, Bottom(Low(w)), hi);
    BitStepLinear(Xor(r, Bottom(Low(w))), hi);
  }

  ghost function ByteMask(turn: nat): Byte
    requires turn <= 8
  {
    if turn == 0 then 1 else ByteMask(turn - 1) << 1
  }

  /** The mask of each turn picks the bit that so many shifts bring to the bottom. */
  lemma MaskSelects(c: Byte, turn: nat)
    requires turn < 8
    ensures Low(Rest(c, turn)) == (c & ByteMask(turn) != 0)
  {
    MaskValues();
    RestValues(c);
    MaskBits(c);
  }

  lemma MaskValues()
    ensures ByteMask(0) == 1 && ByteMask(1) == 2 && ByteMask(2) == 4 && ByteMask(3) == 8
    ensures ByteMask(4) == 16 && ByteMask(5) == 32 && ByteMask(6) == 64 && ByteMask(7) == 128
    ensures ByteMask(8) == 0
  {
    assert ByteMask(1) == 2;
    assert ByteMask(2) == 4;
    assert ByteMask(3) == 8;
    assert ByteMask(4) == 16;
    assert ByteMask(5) == 32;
    assert ByteMask(6) == 64;
  }

  lemma MaskShift(turn: nat)
    requires turn < 8
    ensures ByteMask(turn + 1) == ByteMask(turn) << 1
  {
  }

  lemma RestLowHalf(c: Byte)
    ensures var w := c as Word;
            Rest(c, 0) == w && Rest(c, 1) == w >> 1 && Rest(c, 2) == w >> 2
            && Rest(c, 3) == w >> 3 && Rest(c, 4) == w >> 4
  {
    var w := c as Word;
    assert Rest(c, 1) == w >> 1;
    assert Rest(c, 2) == w >> 2;
    assert Rest(c, 3) == w >> 3;
  }

  lemma RestValues(c: Byte)
    ensures var w := c as Word;
            && Rest(c, 0) == w && Rest(c, 1) == w >> 1 && Rest(c, 2) == w >> 2 && Rest(c, 3) == w >> 3
            && Rest(c, 4) == w >> 4 && Rest(c, 5) == w >> 5 && Rest(c, 6) == w >> 6
            && Rest(c, 7) == w >> 7 && Rest(c, 8) == 0
  {
    var w := c as Word;
    RestLowHalf(c);
    assert Rest(c, 5) == w >> 5;
    assert Rest(c, 6) == w >> 6;
    assert Rest(c, 7) == w >> 7;
  }

  lemma MaskBits(c: Byte)
    ensures var w := c as Word;
            && Low(w) == (c & 1 != 0) && Low(w >> 1) == (c & 2 != 0) && Low(w >> 2) == (c & 4 != 0)
            && Low(w >> 3) == (c & 8 != 0) && Low(w >> 4) == (c & 16 != 0)
            && Low(w >> 5) == (c & 32 != 0) && Low(w >> 6) == (c & 64 != 0)
            && Low(w >> 7) == (c & 128 != 0)
  {
  }

  /**
   `_crc64` of crc64.c: takes an unreflected register, feeds every byte bit by bit and
   returns the register reflected.
   */
  method Reference(start: Word, data: seq<Byte>) returns (r: Word)
    ensures r == Crc(Reflect(start), data)
  {
    var crc := start;
    for offset := 0 to |data|
      invariant Reflect(crc) == Crc(Reflect(start), data[..offset])
    {
      crc := FeedByte(crc, data[offset]);
      assert data[..offset + 1] == data[..offset] + [data[offset]];
      CrcAppend(Reflect(start), data[..offset], data[offset]);
    }
    assert data[..|data|] == data;
    r := Reflect(crc);
  }

  /** The inner loop of `_crc64`: one byte, least significant bit first. */
  method FeedByte(start: Word, c: Byte) returns (crc: Word)
    ensures Reflect(crc) == ByteStep(Reflect(start), c)
  {
    hide *;
    crc := start;
    var i: Byte := 1;
    ghost var turn := 0;
    MaskLive(0);
    RestEnds(c);
    ByteStepDef(Reflect(start), c);
    while i != 0
      invariant 0 <= turn <= 8
      invariant i == ByteMask(turn)
      invariant ZeroBits(8 - turn, Xor(Reflect(crc), Rest(c, turn))) == ByteStep(Reflect(start), c)
      decreases 8 - turn
    {
      MaskLive(turn);
      FeedTurn(crc, c, turn);
      MaskShift(turn);
      crc := MsbStep(crc, c & i != 0);
      i := i << 1;
      turn := turn + 1;
    }
    MaskLive(turn);
    XorUnit(Reflect(crc));
    ZeroBitsNone(Reflect(crc));
  }

  lemma MaskLive(turn: nat)
    requires turn <= 8
    ensures ByteMask(turn) != 0 <==> turn < 8
    ensures ByteMask(0) == 1
  {
    MaskValues();
  }

  lemma RestEnds(c: Byte)
    ensures Rest(c, 0) == c as Word && Rest(c, 8) == 0
  {
    RestValues(c);
  }

  lemma ByteStepDef(c: Word, b: Byte)
    ensures ByteStep(c, b) == ZeroBits(8, Xor(c, b as Word))
  {
  }

  lemma FeedTurn(crc: Word, c: Byte, turn: nat)
    requires turn < 8
    ensures ZeroBits(7 - turn, Xor(Reflect(MsbStep(crc, c & ByteMask(turn) != 0)), Rest(c, turn + 1)))
         == ZeroBits(8 - turn, Xor(Reflect(crc), Rest(c, turn)))
  {
    hide Xor, Reflect, MsbStep, ByteMask, BitStep, Low, Bottom;
    MaskSelects(c, turn);
    MsbStepReflected(crc, c & ByteMask(turn) != 0);
    FeedBit(8 - turn, Reflect(crc), Rest(c, turn));
  }

  // ---------------------------------------------------------------- a check value

  /** A byte fed to the register, by the values of the register after each of its bits. */
  lemma FedByte(c: Word, b: Byte, r: seq<Word>, rest: seq<Byte>)
    requires |r| == 9 && r[0] == Xor(c, b as Word) && forall i :: 0 <= i < 8 ==> r[i + 1] == BitStep(r[i])
    ensures Crc(c, [b] + rest) == Crc(r[8], rest)
  {
    hide BitStep, Xor;
    FedBits(r, 0);
    assert ([b] + rest)[1..] == rest;
  }

  lemma {:induction false} FedBits(r: seq<Word>, i: nat)
    requires |r| == 9 && i <= 8 && forall j :: 0 <= j < 8 ==> r[j + 1] == BitStep(r[j])
    ensures ZeroBits(8 - i, r[i]) == r[8]
    decreases 8 - i
  {
    hide BitStep;
    if i < 8 { FedBits(r, i + 1); }
  }

  lemma CheckByte1(rest: seq<Byte>)
    ensures Crc(0, [0x31] + rest) == Crc(0xfdc17184a9f739fa, rest)
  {
    FedByte(0, 0x31,
            [0x0000000000000031, 0x95ac9329ac4bc9ad, 0xdf7adabd7a6e2d63,
             0xfa11fe77117cdf04, 0x7d08ff3b88be6f82, 0x3e847f9dc45f37c1,
             0x8aeeace74e645255, 0xd0dbc55a0b79e09f, 0xfdc17184a9f739fa], rest);
  }

  lemma CheckByte2(rest: seq<Byte>)
    ensures Crc(0xfdc17184a9f739fa, [0x32] + rest) == Crc(0xe10364513a98ed96, rest)
  {
    FedByte(0xfdc17184a9f739fa, 0x32,
            [0xfdc17184a9f739c8, 0x7ee0b8c254fb9ce4, 0x3f705c612a7dce72,
             0x1fb82e30953ee739, 0x9a708431e6d4ba29, 0xd894d1315f2194a1,
             0xf9e6fbb103db03e5, 0xe95feef12da64847, 0xe10364513a98ed96], rest);
  }

  lemma CheckByte3(rest: seq<Byte>)
    ensures Crc(0xe10364513a98ed96, [0x33] + rest) == Crc(0xd5bcfb814479b1ac, rest)
  {
    FedByte(0xe10364513a98ed96, 0x33,
            [0xe10364513a98eda5, 0xe52d21013107bf67, 0xe73a03a934c81606,
             0x739d01d49a640b03, 0xac6213c3e179cc34, 0x563109e1f0bce61a,
             0x2b1884f0f85e730d, 0x8020d151d064f033, 0xd5bcfb814479b1ac], rest);
  }

  lemma CheckByte4(rest: seq<Byte>)
    ensures Crc(0xd5bcfb814479b1ac, [0x34] + rest) == Crc(0x43593c5dcda521f0, rest)
  {
    FedByte(0xd5bcfb814479b1ac, 0x34,
            [0xd5bcfb814479b198, 0x6ade7dc0a23cd8cc, 0x356f3ee0511e6c66,
             0x1ab79f70288f3633, 0x98f75c91b80c52ac, 0x4c7bae48dc062956,
             0x263dd7246e0314ab, 0x86b278bb9b4a43e0, 0x43593c5dcda521f0], rest);
  }

  lemma CheckByte5(rest: seq<Byte>)
    ensures Crc(0x43593c5dcda521f0, [0x35] + rest) == Crc(0xf0758513239c7e0d, rest)
  {
    FedByte(0x43593c5dcda521f0, 0x35,
            [0x43593c5dcda521c5, 0xb4000d074a995957, 0xcfac95aa0907651e,
             0x67d64ad50483b28f, 0xa647b6432e0a10f2, 0x5323db2197050879,
             0xbc3d7eb967c94d89, 0xcbb22c751faf6f71, 0xf0758513239c7e0d], rest);
  }

  lemma CheckByte6(rest: seq<Byte>)
    ensures Crc(0xf0758513239c7e0d, [0x36] + rest) == Crc(0xa3a90925b2ab4903, rest)
  {
    FedByte(0xf0758513239c7e0d, 0x36,
            [0xf0758513239c7e3b, 0xed9651a03d85f6a8, 0x76cb28d01ec2fb54,
             0x3b6594680f617daa, 0x1db2ca3407b0bed5, 0x9b75f633af9396df,
             0xd81668307b8202da, 0x6c0b34183dc1016d, 0xa3a90925b2ab4903], rest);
  }

  lemma CheckByte7(rest: seq<Byte>)
    ensures Crc(0xa3a90925b2ab4903, [0x37] + rest) == Crc(0x47824d362431ad45, rest)
  {
    FedByte(0xa3a90925b2ab4903, 0x37,
            [0xa3a90925b2ab4934, 0x51d48492d955a49a, 0x28ea42496caad24d,
             0x81d9b20d1a1ea093, 0xd5404a2f214499fc, 0x6aa0251790a24cfe,
             0x3550128bc851267f, 0x8f049a6c48635a8a, 0x47824d362431ad45], rest);
  }

  lemma CheckByte8(rest: seq<Byte>)
    ensures Crc(0x47824d362431ad45, [0x38] + rest) == Crc(0x49ec20b315e86dc2, rest)
  {
    FedByte(0x47824d362431ad45, 0x38,
            [0x47824d362431ad7d, 0xb66db5b2be531f0b, 0xce9a49f0f3624630,
             0x674d24f879b12318, 0x33a6927c3cd8918c, 0x19d3493e1e6c48c6,
             0x0ce9a49f0f362463, 0x93d841662bd0db84, 0x49ec20b315e86dc2], rest);
  }

  lemma CheckByte9(rest: seq<Byte>)
    ensures Crc(0x49ec20b315e86dc2, [0x39] + rest) == Crc(0xe9c6d914c4b8d9ca, rest)
  {
    FedByte(0x49ec20b315e86dc2, 0x39,
            [0x49ec20b315e86dfb, 0xb15a837026bfff48, 0x58ad41b8135fffa4,
             0x2c56a0dc09afffd2, 0x162b506e04d7ffe9, 0x9eb93b1eae203641,
             0xdaf00ea6fb5bd295, 0xf8d4947ad1e620ff, 0xe9c6d914c4b8d9ca], rest);
  }

  /** The CRC of the digits 1 to 9. */
  lemma CheckValue()
    ensures Crc(0, [0x31, 0x32, 0x33, 0x34, 0x35, 0x36, 0x37, 0x38, 0x39]) == 0xe9c6d914c4b8d9ca
  {
    assert Crc(0xe9c6d914c4b8d9ca, []) == 0xe9c6d914c4b8d9ca;
    hide *;
    var m9: seq<Byte> := [];
    var m8: seq<Byte> := [0x39] + m9;
    var m7: seq<Byte> := [0x38] + m8;
    var m6: seq<Byte> := [0x37] + m7;
    var m5: seq<Byte> := [0x36] + m6;
    var m4: seq<Byte> := [0x35] + m5;
    var m3: seq<Byte> := [0x34] + m4;
    var m2: seq<Byte> := [0x33] + m3;
    var m1: seq<Byte> := [0x32] + m2;
    var m0: seq<Byte> := [0x31] + m1;
    CheckByte1(m1);
    CheckByte2(m2);
    CheckByte3(m3);
    CheckByte4(m4);
    CheckByte5(m5);
    CheckByte6(m6);
    CheckByte7(m7);
    CheckByte8(m8);
    CheckByte9(m9);
    assert m0 == [0x31, 0x32, 0x33, 0x34, 0x35, 0x36, 0x37, 0x38, 0x39];
  }
}
