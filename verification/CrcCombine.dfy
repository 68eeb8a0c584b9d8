/**
 crccombine.c: a GF(2) matrix is 64 words, one per input bit; row k of the cache is the
 operator "append 2^k zero bytes". The cache is filled by repeated squaring, in place.
 */
module CrcCombine {
  import opened Crc64
  import opened Powers

  const DIM := 64

  // ---------------------------------------------------------------- unit vectors and shifts

  function Shl1(x: Word): Word { x << 1 }

  /** The word with only bit j set. */
  function Unit(j: nat): Word {
    if j == 0 then 1 else Shl1(Unit(j - 1))
  }

  function Shl(x: Word, n: nat): Word {
    if n == 0 then x else Shl1(Shl(x, n - 1))
  }

  lemma Shl1Xor(x: Word, y: Word)
    ensures Shl1(Xor(x, y)) == Xor(Shl1(x), Shl1(y))
  {
  }

  lemma {:induction false} ShlXor(x: Word, y: Word, n: nat)
    ensures Shl(Xor(x, y), n) == Xor(Shl(x, n), Shl(y, n))
  {
    hide Shl1, Xor;
    if n > 0 {
      ShlXor(x, y, n - 1);
      Shl1Xor(Shl(x, n - 1), Shl(y, n - 1));
    }
  }

  lemma {:induction false} ShlInside(x: Word, n: nat)
    ensures Shl(x, n + 1) == Shl(Shl1(x), n)
  {
    hide Shl1;
    if n > 0 { ShlInside(x, n - 1); }
  }

  lemma {:induction false} ShlUnit(j: nat, n: nat)
    ensures Shl(Unit(j), n) == Unit(j + n)
  {
    hide Shl1;
    if n > 0 { ShlUnit(j, n - 1); }
  }

  lemma {:induction false} ShlZero(n: nat)
    ensures Shl(0, n) == 0
  {
    if n > 0 { ShlZero(n - 1); }
  }

  lemma SmallUnits()
    ensures Unit(0) == 1 && Unit(1) == 2 && Unit(2) == 4 && Unit(3) == 8
  {
  }

  /** Four shifts undo what a nibble step removed. */
  lemma ShlNibble(v: Word, n: nat)
    ensures Shl(v & 0xfffffffffffffff0, n) == Shl(v >> 4, n + 4)
  {
    hide Shl, Shl1;
    var w := v >> 4;
    ShlInside(w, n + 3);
    ShlInside(Shl1(w), n + 2);
    ShlInside(Shl1(Shl1(w)), n + 1);
    ShlInside(Shl1(Shl1(Shl1(w))), n);
    FourShifts(v);
  }

  lemma FourShifts(v: Word)
    ensures Shl1(Shl1(Shl1(Shl1(v >> 4)))) == v & 0xfffffffffffffff0
  {
  }

  // ---------------------------------------------------------------- matrix times vector

  /** What the switch of gf2_matrix_times_switch adds for the low nibble. */
  function NibbleSum(m0: Word, m1: Word, m2: Word, m3: Word, nib: Word): Word {
    if nib == 15 then Xor(Xor(Xor(m0, m1), m2), m3)
    else if nib == 14 then Xor(Xor(m1, m2), m3)
    else if nib == 13 then Xor(Xor(m0, m2), m3)
    else if nib == 12 then Xor(m2, m3)
    else if nib == 11 then Xor(Xor(m0, m1), m3)
    else if nib == 10 then Xor(m1, m3)
    else if nib == 9 then Xor(m0, m3)
    else if nib == 8 then m3
    else if nib == 7 then Xor(Xor(m0, m1), m2)
    else if nib == 6 then Xor(m1, m2)
    else if nib == 5 then Xor(m0, m2)
    else if nib == 4 then m2
    else if nib == 3 then Xor(m0, m1)
    else if nib == 2 then m1
    else if nib == 1 then m0
    else 0
  }

  lemma NibbleIsUnits(v: Word)
    ensures v & 15 == NibbleSum(1, 2, 4, 8, v & 15)
  {
  }

  lemma NibbleAndRest(v: Word)
    ensures Xor(v & 15, v & 0xfffffffffffffff0) == v
  {
  }

  /** The operator "append `bits` zero bits" after shifting a vector up n places. */
  function Apply(bits: nat, n: nat, v: Word): Word {
    ZeroBits(bits, Shl(v, n))
  }

  lemma ApplyXor(bits: nat, n: nat, x: Word, y: Word)
    ensures Apply(bits, n, Xor(x, y)) == Xor(Apply(bits, n, x), Apply(bits, n, y))
  {
    hide ZeroBits, Shl, Xor;
    ShlXor(x, y, n);
    ZeroBitsLinear(bits, Shl(x, n), Shl(y, n));
  }

  lemma ApplyUnit(bits: nat, n: nat, j: nat)
    ensures Apply(bits, n, Unit(j)) == ZeroBits(bits, Unit(j + n))
  {
    hide ZeroBits, Shl;
    ShlUnit(j, n);
  }

  lemma ApplyZero(bits: nat, n: nat)
    ensures Apply(bits, n, 0) == 0
  {
    hide ZeroBits, Shl;
    ShlZero(n);
    ZeroBitsZero(bits);
  }

  /** A linear operator passes through the switch. */
  lemma ApplyNibble(bits: nat, n: nat, nib: Word)
    ensures Apply(bits, n, NibbleSum(1, 2, 4, 8, nib))
         == NibbleSum(Apply(bits, n, 1), Apply(bits, n, 2), Apply(bits, n, 4), Apply(bits, n, 8), nib)
  {
    hide Apply, Xor;
    ApplyZero(bits, n);
    if nib == 15 {
      ApplyTriples(bits, n);
      ApplyXor(bits, n, Xor(Xor(1, 2), 4), 8);
    } else if nib == 14 || nib == 13 || nib == 11 || nib == 7 {
      ApplyTriples(bits, n);
    } else {
      ApplyPairs(bits, n);
    }
  }

  lemma ApplyPairs(bits: nat, n: nat)
    ensures var a, b, c, d := Apply(bits, n, 1), Apply(bits, n, 2), Apply(bits, n, 4), Apply(bits, n, 8);
            && Apply(bits, n, Xor(1, 2)) == Xor(a, b) && Apply(bits, n, Xor(1, 4)) == Xor(a, c)
            && Apply(bits, n, Xor(1, 8)) == Xor(a, d) && Apply(bits, n, Xor(2, 4)) == Xor(b, c)
            && Apply(bits, n, Xor(2, 8)) == Xor(b, d) && Apply(bits, n, Xor(4, 8)) == Xor(c, d)
  {
    hide Apply, Xor;
    ApplyXor(bits, n, 1, 2);
    ApplyXor(bits, n, 1, 4);
    ApplyXor(bits, n, 1, 8);
    ApplyXor(bits, n, 2, 4);
    ApplyXor(bits, n, 2, 8);
    ApplyXor(bits, n, 4, 8);
  }

  lemma ApplyTriples(bits: nat, n: nat)
    ensures var a, b, c, d := Apply(bits, n, 1), Apply(bits, n, 2), Apply(bits, n, 4), Apply(bits, n, 8);
            && Apply(bits, n, Xor(Xor(1, 2), 4)) == Xor(Xor(a, b), c)
            && Apply(bits, n, Xor(Xor(1, 2), 8)) == Xor(Xor(a, b), d)
            && Apply(bits, n, Xor(Xor(1, 4), 8)) == Xor(Xor(a, c), d)
            && Apply(bits, n, Xor(Xor(2, 4), 8)) == Xor(Xor(b, c), d)
  {
    hide Apply, Xor;
    ApplyPairs(bits, n);
    ApplyXor(bits, n, Xor(1, 2), 4);
    ApplyXor(bits, n, Xor(1, 2), 8);
    ApplyXor(bits, n, Xor(1, 4), 8);
    ApplyXor(bits, n, Xor(2, 4), 8);
  }

  /** One turn of the loop: the low nibble contributes four columns, the rest is shifted. */
  lemma TimesTurn(bits: nat, n: nat, v: Word)
    ensures Apply(bits, n, v)
         == Xor(NibbleSum(ZeroBits(bits, Unit(n)), ZeroBits(bits, Unit(n + 1)),
                          ZeroBits(bits, Unit(n + 2)), ZeroBits(bits, Unit(n + 3)), v & 15),
                Apply(bits, n + 4, v >> 4))
  {
    hide *;
    NibbleIsUnits(v);
    NibbleAndRest(v);
    ApplyXor(bits, n, v & 15, v & 0xfffffffffffffff0);
    ApplyNibble(bits, n, v & 15);
    SmallUnits();
    ApplyUnit(bits, n, 0);
    ApplyUnit(bits, n, 1);
    ApplyUnit(bits, n, 2);
    ApplyUnit(bits, n, 3);
    ShlNibble(v, n);
    ApplyDef(bits, n, v & 0xfffffffffffffff0);
    ApplyDef(bits, n + 4, v >> 4);
  }

  lemma ApplyDef(bits: nat, n: nat, v: Word)
    ensures Apply(bits, n, v) == ZeroBits(bits, Shl(v, n))
  {
  }

  /** Words of at most k nibbles. */
  ghost function NibbleMask(k: nat): Word {
    if k == 0 then 0 else (NibbleMask(k - 1) << 4) | 15
  }

  ghost predicate FitsNibbles(v: Word, k: nat) {
    Inside(v, NibbleMask(k))
  }

  lemma FitsShift(v: Word, k: nat)
    requires k > 0 && FitsNibbles(v, k)
    ensures FitsNibbles(v >> 4, k - 1)
  {
    FitsShiftRaw(v, NibbleMask(k - 1));
  }

  lemma FitsShiftRaw(v: Word, m: Word)
    requires Inside(v, (m << 4) | 15)
    ensures Inside(v >> 4, m)
  {
  }

  lemma FitsAll(v: Word)
    ensures FitsNibbles(v, 16)
    ensures FitsNibbles(v, 0) <==> v == 0
  {
    assert NibbleMask(4) == 0xffff;
    assert NibbleMask(8) == 0xffffffff;
    assert NibbleMask(12) == 0xffffffffffff;
    assert NibbleMask(16) == 0xffffffffffffffff;
  }

  // ---------------------------------------------------------------- the cache

  /** Row k of the cache is the matrix of "append `bits` zero bits". */
  ghost predicate RowIs(cache: array2<Word>, k: nat, bits: nat)
    reads cache
    requires cache.Length0 == DIM && cache.Length1 == DIM && k < DIM
  {
    forall j: nat :: j < DIM ==> cache[k, j] == ZeroBits(bits, Unit(j))
  }

  /** Every row k is the operator "append 2^k zero bytes". */
  ghost predicate Ready(cache: array2<Word>)
    reads cache
    requires cache.Length0 == DIM && cache.Length1 == DIM
  {
    forall k: nat :: k < DIM ==> RowIs(cache, k, 8 * Pow2(k))
  }

  /** The static cache: either still zero, which forces a fill, or filled. */
  ghost predicate Valid(cache: array2<Word>)
    reads cache
  {
    && cache.Length0 == DIM && cache.Length1 == DIM
    && (cache[0, 0] == 0 || Ready(cache))
  }

  /** gf2_matrix_times_switch: four bits of the vector at a time. */
  method Times(cache: array2<Word>, k: nat, vec: Word, ghost bits: nat) returns (sum: Word)
    requires cache.Length0 == DIM && cache.Length1 == DIM && k < DIM
    requires RowIs(cache, k, bits)
    ensures sum == ZeroBits(bits, vec)
  {
    hide Xor, ZeroBits, Unit, NibbleSum, Apply, Shl, FitsNibbles;
    sum := 0;
    var v, mat := vec, 0;
    FitsAll(v);
    ApplyDef(bits, 0, v);
    XorUnit(Apply(bits, 0, v));
    while v != 0
      invariant 0 <= mat <= 64 && mat % 4 == 0
      invariant FitsNibbles(v, 16 - mat / 4)
      invariant Xor(sum, Apply(bits, mat, v)) == Apply(bits, 0, vec)
      decreases 64 - mat
    {
      FitsAll(v);
      FitsShift(v, 16 - mat / 4);
      TimesTurn(bits, mat, v);
      var part := NibbleSum(cache[k, mat], cache[k, mat + 1], cache[k, mat + 2], cache[k, mat + 3], v & 15);
      XorAssoc(sum, part, Apply(bits, mat + 4, v >> 4));
      sum := Xor(sum, part);
      v := v >> 4;
      mat := mat + 4;
    }
    ApplyZero(bits, mat);
    XorUnit(sum);
    ShlNone(vec);
  }

  lemma ShlNone(v: Word)
    ensures Shl(v, 0) == v
  {
  }

  /** gf2_matrix_square from row src into row dst. */
  method Square(cache: array2<Word>, dst: nat, src: nat, ghost bits: nat)
    requires cache.Length0 == DIM && cache.Length1 == DIM && dst < DIM && src < DIM && dst != src
    requires RowIs(cache, src, bits)
    modifies cache
    ensures RowIs(cache, dst, 2 * bits)
    ensures forall k, j :: 0 <= k < DIM && 0 <= j < DIM && k != dst ==> cache[k, j] == old(cache[k, j])
  {
    hide ZeroBits, Unit;
    for n := 0 to DIM
      invariant forall j :: 0 <= j < n ==> cache[dst, j] == ZeroBits(2 * bits, Unit(j))
      invariant forall k, j :: 0 <= k < DIM && 0 <= j < DIM && k != dst ==> cache[k, j] == old(cache[k, j])
    {
      var col := Times(cache, src, cache[src, n], bits);
      ZeroBitsCompose(bits, bits, Unit(n));
      cache[dst, n] := col;
    }
  }

  // ---------------------------------------------------------------- the one-bit operator

  /** Words below bit position j. */
  ghost predicate Below(v: Word, j: nat) {
    Inside(v, BitMask(j))
  }

  ghost function BitMask(j: nat): Word {
    if j == 0 then 0 else (BitMask(j - 1) << 1) | 1
  }

  lemma {:induction false} UnitBelow(j: nat)
    ensures Below(Unit(j), j + 1)
  {
    if j == 0 {
      assert BitMask(1) == 1;
    } else {
      UnitBelow(j - 1);
      BelowShift(Unit(j - 1), BitMask(j));
    }
  }

  lemma BelowShift(u: Word, m: Word)
    requires Inside(u, m)
    ensures Inside(Shl1(u), (m << 1) | 1)
  {
  }

  lemma {:induction false} MaskGrows(j: nat, k: nat)
    requires j <= k
    ensures Inside(BitMask(j), BitMask(k))
  {
    if j > 0 {
      MaskGrows(j - 1, k - 1);
      MaskGrowsRaw(BitMask(j - 1), BitMask(k - 1));
    }
  }

  lemma MaskGrowsRaw(a: Word, b: Word)
    requires Inside(a, b)
    ensures Inside((a << 1) | 1, (b << 1) | 1)
  {
  }

  lemma Mask63()
    ensures BitMask(63) == 0x7fffffffffffffff
  {
    assert BitMask(8) == 0xff;
    assert BitMask(16) == 0xffff;
    assert BitMask(24) == 0xffffff;
    assert BitMask(32) == 0xffffffff;
    assert BitMask(40) == 0xffffffffff;
    assert BitMask(48) == 0xffffffffffff;
    assert BitMask(56) == 0xffffffffffffff;
  }

  lemma ShiftBack(u: Word, m: Word)
    requires Inside(u, m) && Inside(m, 0x7fffffffffffffff)
    ensures BitStep(Shl1(u)) == u
  {
  }

  /** Column j of the one-bit operator: the polynomial, then the unit vectors one place down. */
  lemma OneBitColumn(j: nat)
    requires j < DIM
    ensures ZeroBits(1, Unit(j)) == if j == 0 then REVERSED_POLY else Unit(j - 1)
  {
    assert ZeroBits(1, Unit(j)) == BitStep(Unit(j));
    if j > 0 {
      UnitBelow(j - 1);
      MaskGrows(j, 63);
      Mask63();
      ShiftBack(Unit(j - 1), BitMask(j));
    }
  }

  /** init_combine_cache(CRC64_REVERSED_POLY, 64): three squarings give one zero byte in row 0. */
  method InitCache(cache: array2<Word>)
    requires cache.Length0 == DIM && cache.Length1 == DIM
    modifies cache
    ensures Ready(cache)
  {
    hide ZeroBits, Unit;
    FillOneBit(cache);
    Square(cache, 0, 1, 1);
    Square(cache, 1, 0, 2);
    var cacheNum, prev := 0, 1;
    while cacheNum < 64
      invariant 0 <= cacheNum <= 64
      invariant prev == if cacheNum == 0 then 1 else -1
      invariant cacheNum == 0 ==> RowIs(cache, 1, 4)
      invariant forall k: nat :: k < cacheNum ==> RowIs(cache, k, 8 * Pow2(k))
    {
      ghost var bits := if cacheNum == 0 then 4 else 8 * Pow2(cacheNum - 1);
      Square(cache, cacheNum, cacheNum + prev, bits);
      assert 2 * bits == 8 * Pow2(cacheNum);
      prev := -1;
      cacheNum := cacheNum + 1;
    }
  }

  /** The first loop of init_combine_cache: row 1 becomes the operator for one zero bit. */
  method FillOneBit(cache: array2<Word>)
    requires cache.Length0 == DIM && cache.Length1 == DIM
    modifies cache
    ensures RowIs(cache, 1, 1)
  {
    hide ZeroBits, Unit, Shl1;
    cache[1, 0] := REVERSED_POLY;
    OneBitColumn(0);
    var row: Word := 1;
    UnitStep(0);
    for n := 1 to DIM
      invariant row == Unit(n - 1)
      invariant forall j: nat :: j < n ==> cache[1, j] == ZeroBits(1, Unit(j))
    {
      OneBitColumn(n);
      cache[1, n] := row;
      UnitStep(n - 1);
      row := Shl1(row);
    }
  }

  lemma UnitStep(j: nat)
    ensures Unit(0) == 1 && Unit(j + 1) == Shl1(Unit(j))
  {
  }

  /**
   crc64_combine: append len2 zero bytes to crc1 with one matrix product per set bit of
   len2, then add crc2. A zero length returns crc1 untouched.
   */
  method Combine(cache: array2<Word>, crc1: Word, crc2: Word, len2: nat) returns (r: Word)
    requires Valid(cache) && len2 < Pow2(64)
    modifies cache
    ensures Valid(cache)
    ensures r == if len2 == 0 then crc1 else Xor(ZeroBits(8 * len2, crc1), crc2)
  {
    hide ZeroBits, Unit, Xor, RowIs;
    if len2 == 0 { return crc1; }
    if cache[0, 0] == 0 {
      InitCache(cache);
    }
    hide Valid, Pow2, BitsLeft;
    var crc, len, cacheNum := crc1, len2, 0;
    while len != 0
      invariant 0 <= cacheNum <= 64
      invariant Ready(cache)
      invariant 0 <= len < Pow2(64 - cacheNum)
      invariant ZeroBits(BitsLeft(cacheNum, len), crc) == ZeroBits(8 * len2, crc1)
      decreases len
    {
      ghost var before, row := crc, 8 * Pow2(cacheNum);
      assert RowIs(cache, cacheNum, row);
      if len % 2 == 1 {
        crc := Times(cache, cacheNum, crc, row);
        ZeroBitsCompose(row, BitsLeft(cacheNum + 1, len / 2), before);
      }
      HalveLength(cacheNum, len);
      len := len / 2;
      cacheNum := cacheNum + 1;
    }
    ZeroBitsNone(crc);
    r := Xor(crc, crc2);
  }

  /** Zero bits that `len` further multiples of 2^k bytes stand for. */
  ghost function BitsLeft(k: nat, len: nat): nat
    ensures len == 0 ==> BitsLeft(k, len) == 0
    ensures k == 0 ==> BitsLeft(k, len) == 8 * len
  {
    var n := Pow2(k) * len;
    assert n >= 0;
    8 * n
  }

  lemma HalveLength(k: nat, len: nat)
    ensures BitsLeft(k, len) == (if len % 2 == 1 then 8 * Pow2(k) else 0) + BitsLeft(k + 1, len / 2)
  {
    var h, p := len / 2, Pow2(k);
    assert Pow2(k + 1) * h == p * (2 * h);
    if len % 2 == 1 {
      assert p * len == p * (2 * h) + p;
    }
  }

  /** Combining the CRCs of two blocks gives the CRC of their concatenation. */
  method CombineBlocks(cache: array2<Word>, crcA: Word, crcB: Word, len2: nat,
                       ghost c: Word, ghost a: seq<Byte>, ghost b: seq<Byte>)
    returns (r: Word)
    requires Valid(cache) && len2 == |b| < Pow2(64)
    requires crcA == Crc(c, a) && crcB == Crc(0, b)
    modifies cache
    ensures Valid(cache)
    ensures r == Crc(c, a + b)
  {
    hide ZeroBits, Xor;
    r := Combine(cache, crcA, crcB, len2);
    CombineLaw(c, a, b);
    if b == [] { assert a + b == a; }
  }
}
