/** BITFIELD (bitops.c): integers of 1 to 64 bits at any bit offset of a string. */
module Bitfield {

  import opened Bitmap
  import opened Options
  import opened Powers

  // ---------------------------------------------------------------- what the integers mean

  datatype Mode = Wrap | Sat | Fail

  function Lowest(sign: bool, bits: nat): int
    requires bits > 0
  {
    if sign then 0 - Pow2(bits - 1) else 0
  }

  function Highest(sign: bool, bits: nat): int
    requires bits > 0
  {
    if sign then Pow2(bits - 1) - 1 else Pow2(bits) - 1
  }

  predicate Fits(x: int, sign: bool, bits: nat)
    requires bits > 0
  {
    Lowest(sign, bits) <= x <= Highest(sign, bits)
  }

  /** The low bits of a two's complement number. */
  function Low(x: int, bits: nat): nat { x % Pow2(bits) }

  /** The representative of x modulo 2^bits that fits. */
  function Wrapped(x: int, sign: bool, bits: nat): int
    requires bits > 0
  {
    var w := Low(x, bits);
    if sign && w >= Pow2(bits - 1) then w - Pow2(bits) else w
  }

  /** What an operation with exact result x stores. */
  function Stored(x: int, sign: bool, bits: nat, mode: Mode): Option<int>
    requires bits > 0
  {
    if Fits(x, sign, bits) then Some(x)
    else match mode
      case Wrap => Some(Wrapped(x, sign, bits))
      case Sat => Some(if x > Highest(sign, bits) then Highest(sign, bits) else Lowest(sign, bits))
      case Fail => None
  }

  /** The representative is congruent, fits, and is the number itself if that fits. */
  lemma WrappedMeans(x: int, sign: bool, bits: nat) returns (k: int)
    requires bits > 0
    ensures x == Wrapped(x, sign, bits) + k * Pow2(bits)
    ensures Fits(Wrapped(x, sign, bits), sign, bits)
    ensures Fits(x, sign, bits) ==> Wrapped(x, sign, bits) == x
  {
    var p := Pow2(bits);
    Pow2Step(bits - 1);
    k := x / p;
    assert x == k * p + x % p;
    if Fits(x, sign, bits) {
      if x >= 0 { Quotient(x, p, 0, x); } else { Quotient(x, p, -1, x + p); }
    }
    if sign && x % p >= Pow2(bits - 1) {
      assert (k + 1) * p == k * p + p;
      k := k + 1;
    }
  }

  // ---------------------------------------------------------------- machine integers

  const TWO_63: int := 0x8000_0000_0000_0000
  const TWO_64: int := 0x1_0000_0000_0000_0000

  /** Conversion to uint64_t and to int64_t. */
  function ToU64(x: int): nat { x % TWO_64 }

  function ToI64(x: int): int {
    var u := x % TWO_64;
    if u >= TWO_63 then u - TWO_64 else u
  }

  predicate IsI64(x: int) { -TWO_63 <= x < TWO_63 }

  /** Values up to three times the limit wrap at most once. */
  lemma ToI64Cases(x: int)
    requires -3 * TWO_63 <= x < 3 * TWO_63
    ensures ToI64(x) == if x >= TWO_63 then x - TWO_64 else if x < -TWO_63 then x + TWO_64 else x
  {
  }

  lemma Machine()
    ensures Pow2(63) == TWO_63 && Pow2(64) == TWO_64
  {
    hide Pow2;
    Pow2Eight();
    Pow2Add(8, 8);
    Pow2Add(16, 16);
    Pow2Add(32, 31);
    Pow2Step(31);
    Pow2Step(63);
  }

  /** The bounds of narrower fields. */
  lemma Narrow(bits: nat)
    requires bits <= 63
    ensures Pow2(bits) <= TWO_63
  {
    Machine();
    Pow2Mono(bits, 63);
  }

  lemma ModAdd(k: int, p: int, r: int)
    requires p > 0
    ensures (k * p + r) % p == r % p
  {
    var q := r / p;
    assert r == q * p + r % p;
    assert k * p + q * p == (k + q) * p;
    Quotient(k * p + r, p, k + q, r % p);
  }

  /** A remainder modulo 2^64 leaves the remainder modulo a smaller power. */
  lemma ModMod(x: int, bits: nat)
    requires bits <= 64
    ensures Low(ToU64(x), bits) == Low(x, bits)
  {
    Pow2Add(bits, 64 - bits);
    Machine();
    hide Pow2;
    ModProduct(x, TWO_64, Pow2(bits), Pow2(64 - bits));
  }

  lemma ModProduct(x: int, m: int, p: int, e: int)
    requires p > 0 && m > 0 && m == p * e
    ensures (x % m) % p == x % p
  {
    var q := x / m;
    assert x == q * m + x % m;
    assert q * (p * e) == (q * e) * p;
    ModAdd(q * e, p, x % m);
  }

  /** The bit below 2^bits decides the upper half of a remainder. */
  lemma HalfDigit(c: nat, n: nat)
    requires n > 0
    ensures (c / n) % 2 == 1 <==> c % (2 * n) >= n
    ensures (c / n) % 2 == 0 || (c / n) % 2 == 1
  {
    var q, r := c / (2 * n), c % (2 * n);
    assert c == q * (2 * n) + r;
    assert q * (2 * n) == (2 * q) * n;
    if r >= n {
      assert c == (2 * q + 1) * n + (r - n);
      Quotient(c, n, 2 * q + 1, r - n);
    } else {
      Quotient(c, n, 2 * q, r);
    }
  }

  // ---------------------------------------------------------------- the overflow checks

  /** checkUnsignedBitfieldOverflow: the flag, and the limit when there is one. */
  function CheckUnsigned(value: nat, incr: int, bits: nat, mode: Mode): (int, Option<int>)
    requires 0 < bits < 64
  {
    var max := Pow2(bits) - 1;
    var maxIncr := ToI64(max - value);
    var minIncr := ToI64(0 - value);
    var wrap := Low(ToU64(value + incr), bits);
    if value > max || (incr > 0 && incr > maxIncr) then
      (1, match mode case Wrap => Some(wrap) case Sat => Some(max) case Fail => None)
    else if incr < 0 && incr < minIncr then
      match mode
      case Wrap => (1, Some(wrap))
      case Sat => (-1, Some(0))
      case Fail => (-1, None)
    else (0, None)
  }

  /** The wrapping part of checkSignedBitfieldOverflow: sign extension or masking of the 64-bit sum. */
  function WrapSigned(value: int, incr: int, bits: nat): int
    requires 0 < bits <= 64
  {
    var c := ToU64(value + incr);
    if bits < 64 then
      if (c / Pow2(bits - 1)) % 2 == 1 then ToI64(Low(c, bits) + (TWO_64 - Pow2(bits)))
      else ToI64(Low(c, bits))
    else ToI64(c)
  }

  /** checkSignedBitfieldOverflow. */
  function CheckSigned(value: int, incr: int, bits: nat, mode: Mode): (int, Option<int>)
    requires 0 < bits <= 64
  {
    var max := Pow2(bits - 1) - 1;
    var min := -max - 1;
    var maxIncr := ToI64(max - value);
    var minIncr := ToI64(min - value);
    if value > max || (bits != 64 && incr > maxIncr) || (value >= 0 && incr > 0 && incr > maxIncr) then
      (1, match mode case Wrap => Some(WrapSigned(value, incr, bits)) case Sat => Some(max) case Fail => None)
    else if value < min || (bits != 64 && incr < minIncr) || (value < 0 && incr < 0 && incr < minIncr) then
      match mode
      case Wrap => (1, Some(WrapSigned(value, incr, bits)))
      case Sat => (-1, Some(min))
      case Fail => (-1, None)
    else (0, None)
  }

  lemma WrapSignedExact(value: int, incr: int, bits: nat)
    requires 0 < bits <= 64
    ensures WrapSigned(value, incr, bits) == Wrapped(value + incr, true, bits)
  {
    var x := value + incr;
    ModMod(x, bits);
    HalfDigit(ToU64(x), Pow2(bits - 1));
    Pow2Step(bits - 1);
    Machine();
    hide Pow2;
    if bits < 64 {
      Narrow(bits);
      var w := x % Pow2(bits);
      assert 0 <= w < Pow2(bits);
      ToI64Cases(w + (TWO_64 - Pow2(bits)));
      ToI64Cases(w);
    }
  }

  /** INCRBY on unsigned fields: the check is exact, and the limit is what the mode asks for. */
  lemma UnsignedExact(value: nat, incr: int, bits: nat, mode: Mode)
    requires 0 < bits < 64 && Fits(value, false, bits) && IsI64(incr)
    ensures var (flag, limit) := CheckUnsigned(value, incr, bits, mode);
            && (flag == 0 <==> Fits(value + incr, false, bits))
            && (flag != 0 ==> limit == Stored(value + incr, false, bits, mode))
  {
    Narrow(bits);
    ModMod(value + incr, bits);
    hide Pow2, ToU64, Low;
    ToI64Cases(Pow2(bits) - 1 - value);
    ToI64Cases(0 - value);
  }

  /** INCRBY on signed fields. */
  lemma SignedExact(value: int, incr: int, bits: nat, mode: Mode)
    requires 0 < bits <= 64 && Fits(value, true, bits) && IsI64(incr)
    ensures var (flag, limit) := CheckSigned(value, incr, bits, mode);
            && (flag == 0 <==> Fits(value + incr, true, bits))
            && (flag != 0 ==> limit == Stored(value + incr, true, bits, mode))
  {
    WrapSignedExact(value, incr, bits);
    Halves(bits);
    var n := Pow2(bits - 1);
    hide Pow2, WrapSigned, Wrapped;
    ToI64Cases(n - 1 - value);
    ToI64Cases(-n - value);
    hide ToI64;
  }

  lemma Halves(bits: nat)
    requires 0 < bits <= 64
    ensures Pow2(bits - 1) <= TWO_63
    ensures if bits < 64 then 2 * Pow2(bits - 1) <= TWO_63 else Pow2(bits - 1) == TWO_63
  {
    Machine();
    Narrow(bits - 1);
    if bits < 64 { Narrow(bits); Pow2Step(bits - 1); }
  }

  /** SET on unsigned fields reads its argument as an unsigned 64-bit number. */
  lemma SetUnsignedExact(x: int, bits: nat, mode: Mode)
    requires 0 < bits < 64 && IsI64(x)
    ensures var (flag, limit) := CheckUnsigned(ToU64(x), 0, bits, mode);
            && (flag == 0 <==> Fits(ToU64(x), false, bits))
            && (flag != 0 ==> limit == Stored(ToU64(x), false, bits, mode))
  {
    ModMod(x, bits);
    ModMod(ToU64(x), bits);
    hide Pow2;
  }

  /** Where the subtraction in the signed check wraps around. */
  predicate WrapsAround(x: int, bits: nat)
    requires 0 < bits
  {
    bits < 64 && x < Pow2(bits - 1) - TWO_63
  }

  /** SET on signed fields: overflow is always noticed; the limit is right unless the subtraction wrapped around. */
  lemma SetSignedExact(x: int, bits: nat, mode: Mode)
    requires 0 < bits <= 64 && IsI64(x)
    ensures var (flag, limit) := CheckSigned(x, 0, bits, mode);
            && (flag == 0 <==> Fits(x, true, bits))
            && (flag != 0 ==> (limit == Stored(x, true, bits, mode) <==> !(mode == Sat && WrapsAround(x, bits))))
            && (mode == Sat && WrapsAround(x, bits) ==> limit == Some(Highest(true, bits)))
  {
    WrapSignedExact(x, 0, bits);
    Halves(bits);
    var n := Pow2(bits - 1);
    hide Pow2, WrapSigned, Wrapped;
    ToI64Cases(n - 1 - x);
    ToI64Cases(-n - x);
    hide ToI64;
  }

  /** The nearest limit is missed by SET with SAT: the lowest 64-bit number in an 8-bit field gives 127, not -128. */
  lemma SetSaturatesUpwards()
    ensures CheckSigned(-TWO_63, 0, 8, Sat) == (1, Some(127)) && Stored(-TWO_63, true, 8, Sat) == Some(-128)
  {
    assert Pow2(7) == 128;
    SetSignedExact(-TWO_63, 8, Sat);
  }

  /** SET on unsigned fields stores what its argument asks for, except that negative ones saturate upwards. */
  lemma SetUnsignedNearest(x: int, bits: nat, mode: Mode)
    requires 0 < bits < 64 && IsI64(x)
    ensures Stored(ToU64(x), false, bits, mode) == Stored(x, false, bits, mode) <==> !(mode == Sat && x < 0)
  {
    Narrow(bits);
    ModMod(x, bits);
    Pow2Step(bits - 1);
    if x >= 0 { Quotient(x, TWO_64, 0, x); } else { Quotient(x, TWO_64, -1, x + TWO_64); }
    hide Pow2;
  }

  /** SET of -1 in an unsigned 8-bit field with SAT stores 255, not 0. */
  lemma SetMinusOne()
    ensures Stored(ToU64(-1), false, 8, Sat) == Some(255) && Stored(-1, false, 8, Sat) == Some(0)
  {
    Pow2Eight();
    hide Pow2;
    Quotient(-1, TWO_64, -1, TWO_64 - 1);
  }

  // ---------------------------------------------------------------- storing bits

  function Without(b: Byte, k: nat): Byte
    requires k < 8
  {
    b & !Unit(k)
  }

  /** The byte with bit k replaced, as in setUnsignedBitfield. */
  function PutBit(b: Byte, k: nat, on: bool): Byte
    requires k < 8
  {
    Without(b, k) | if on then Unit(k) else 0
  }

  function SetBit(s: seq<Byte>, i: nat, on: bool): (t: seq<Byte>)
    requires i < 8 * |s|
    ensures |t| == |s|
  {
    s[i / 8 := PutBit(s[i / 8], i % 8, on)]
  }

  lemma PutBitIs(b: Byte, k: nat, on: bool, j: nat)
    requires k < 8 && j < 8
    ensures BitOf(PutBit(b, k, on), j) == if j == k then on else BitOf(b, j)
  {
    hide BitOf, Unit, Without;
    UnitBits(k, j);
    WithoutBits(b, k, j);
    BitOr(Without(b, k), if on then Unit(k) else 0, j);
  }

  lemma WithoutBits(b: Byte, k: nat, j: nat)
    requires k < 8 && j < 8
    ensures BitOf(Without(b, k), j) <==> j != k && BitOf(b, j)
  {
    hide BitOf, Unit;
    UnitBits(k, j);
    BitNot(Unit(k), j);
    BitAnd(b, !Unit(k), j);
  }

  lemma UnitBits(k: nat, j: nat)
    requires k < 8 && j < 8
    ensures BitOf(Unit(k), j) <==> j == k
    ensures !BitOf(0, j)
  {
  }

  lemma SetBitIs(s: seq<Byte>, i: nat, on: bool, j: nat)
    requires i < 8 * |s| && j < 8 * |s|
    ensures BitAt(SetBit(s, i, on), j) == if j == i then on else BitAt(s, j)
  {
    PutBitIs(s[i / 8], i % 8, on, j % 8);
    hide BitOf, PutBit;
  }

  /** The bitmap with the low n bits of v stored at position lo. */
  function StoreBits(s: seq<Byte>, lo: nat, n: nat, v: nat): (t: seq<Byte>)
    requires lo + n <= 8 * |s|
    ensures |t| == |s|
  {
    if n == 0 then s else SetBit(StoreBits(s, lo, n - 1, v / 2), lo + n - 1, v % 2 == 1)
  }

  lemma {:induction false} ValueFrame(s: seq<Byte>, t: seq<Byte>, lo: nat, n: nat)
    requires |s| == |t| && lo + n <= 8 * |s| && forall i :: lo <= i < lo + n ==> BitAt(s, i) == BitAt(t, i)
    ensures Value(s, lo, n) == Value(t, lo, n)
  {
    hide BitAt;
    if n > 0 { ValueFrame(s, t, lo, n - 1); }
  }

  lemma HalfMod(v: nat, p: nat)
    requires p > 0
    ensures 2 * ((v / 2) % p) + v % 2 == v % (2 * p)
  {
    var h := v / 2;
    var q, r := h / p, h % p;
    assert h == q * p + r;
    assert q * (2 * p) == 2 * (q * p);
    Quotient(v, 2 * p, q, 2 * r + v % 2);
  }

  /** Storing writes the number modulo 2^n and nothing else. */
  lemma {:induction false} StoreMeans(s: seq<Byte>, lo: nat, n: nat, v: nat)
    requires lo + n <= 8 * |s|
    ensures Value(StoreBits(s, lo, n, v), lo, n) == v % Pow2(n)
    ensures forall i :: 0 <= i < 8 * |s| && !(lo <= i < lo + n) ==> BitAt(StoreBits(s, lo, n, v), i) == BitAt(s, i)
  {
    hide BitAt, SetBit;
    if n > 0 {
      StoreMeans(s, lo, n - 1, v / 2);
      var t := StoreBits(s, lo, n - 1, v / 2);
      var u := StoreBits(s, lo, n, v);
      forall i | 0 <= i < 8 * |s| ensures BitAt(u, i) == if i == lo + n - 1 then v % 2 == 1 else BitAt(t, i) {
        SetBitIs(t, lo + n - 1, v % 2 == 1, i);
      }
      ValueFrame(t, u, lo, n - 1);
      hide StoreBits;
      ValueStep(u, lo, n - 1);
      HalfMod(v, Pow2(n - 1));
      Pow2Step(n - 1);
      hide Value, Pow2;
    }
  }

  lemma HalfDiv(v: nat, m: nat)
    ensures (v / Pow2(m)) / 2 == v / Pow2(m + 1)
  {
    var p := Pow2(m);
    Pow2Step(m);
    hide Pow2;
    var q := v / p;
    var h := q / 2;
    assert v == q * p + v % p;
    assert q == 2 * h + q % 2;
    if q % 2 == 1 {
      assert q * p == h * (2 * p) + p;
      Quotient(v, 2 * p, h, p + v % p);
    } else {
      assert q * p == h * (2 * p);
      Quotient(v, 2 * p, h, v % p);
    }
  }

  /** setUnsignedBitfield. */
  method SetUnsigned(p: array<Byte>, offset: nat, bits: nat, value: nat)
    requires offset + bits <= 8 * p.Length
    modifies p
    ensures p[..] == StoreBits(old(p[..]), offset, bits, value)
  {
    hide StoreBits, PutBit, Pow2;
    ghost var s := p[..];
    StoreNone(s, offset, value / Pow2(bits));
    for j := 0 to bits
      invariant p[..] == StoreBits(s, offset, j, value / Pow2(bits - j))
    {
      var on := (value / Pow2(bits - 1 - j)) % 2 != 0;
      var i := offset + j;
      HalfDiv(value, bits - 1 - j);
      StoreOne(s, offset, j, value / Pow2(bits - 1 - j));
      ghost var t := p[..];
      p[i / 8] := PutBit(p[i / 8], i % 8, on);
      assert p[..] == SetBit(t, i, on);
    }
    Whole(value);
  }

  lemma StoreNone(s: seq<Byte>, lo: nat, v: nat)
    requires lo <= 8 * |s|
    ensures StoreBits(s, lo, 0, v) == s
  {
  }

  lemma StoreOne(s: seq<Byte>, lo: nat, n: nat, v: nat)
    requires lo + n + 1 <= 8 * |s|
    ensures StoreBits(s, lo, n + 1, v) == SetBit(StoreBits(s, lo, n, v / 2), lo + n, v % 2 == 1)
  {
  }

  lemma Whole(v: nat)
    ensures v / Pow2(0) == v
  {
  }

  /** setSignedBitfield. */
  method SetSigned(p: array<Byte>, offset: nat, bits: nat, value: int)
    requires offset + bits <= 8 * p.Length
    modifies p
    ensures p[..] == StoreBits(old(p[..]), offset, bits, ToU64(value))
  {
    SetUnsigned(p, offset, bits, ToU64(value));
  }

  // ---------------------------------------------------------------- reading bits

  /** getUnsignedBitfield. */
  method GetUnsigned(p: seq<Byte>, offset: nat, bits: nat) returns (value: nat)
    requires offset + bits <= 8 * |p|
    ensures value == Value(p, offset, bits)
  {
    hide BitOf;
    value := 0;
    for j := 0 to bits
      invariant value == Value(p, offset, j)
    {
      var i := offset + j;
      value := 2 * value + One(BitOf(p[i / 8], i % 8));
    }
  }

  /** An unsigned number read as a signed one of the same width. */
  function Signed(u: nat, bits: nat): int
    requires bits > 0
  {
    if u >= Pow2(bits - 1) then u - Pow2(bits) else u
  }

  /** getSignedBitfield: the sign bit is propagated to all higher bits. */
  method GetSigned(p: seq<Byte>, offset: nat, bits: nat) returns (value: int)
    requires offset + bits <= 8 * |p| && 0 < bits <= 64
    ensures value == Signed(Value(p, offset, bits), bits)
  {
    var u := GetUnsigned(p, offset, bits);
    value := ToI64(u);
    SignBit(u, bits);
    hide Pow2, ToI64, Value;
    if bits < 64 && (u / Pow2(bits - 1)) % 2 != 0 { value := value - Pow2(bits); }
  }

  lemma SignBit(u: nat, bits: nat)
    requires 0 < bits <= 64 && u < Pow2(bits)
    ensures (u / Pow2(bits - 1)) % 2 != 0 <==> u >= Pow2(bits - 1)
    ensures ToI64(u) == if bits < 64 then u else Signed(u, bits)
  {
    HalfDigit(u, Pow2(bits - 1));
    Pow2Step(bits - 1);
    Quotient(u, Pow2(bits), 0, u);
    Machine();
    if bits < 64 { Narrow(bits); }
    hide Pow2;
    ToI64Cases(u);
  }

  /** A string followed by zeros without end. */
  predicate ZeroExtended(s: seq<Byte>, i: nat) { i < 8 * |s| && BitAt(s, i) }

  /** n bits of the zero-extended string as a number. */
  function ReadBits(s: seq<Byte>, lo: nat, n: nat): nat {
    if n == 0 then 0 else 2 * ReadBits(s, lo, n - 1) + One(ZeroExtended(s, lo + n - 1))
  }

  lemma {:induction false} ReadInside(s: seq<Byte>, lo: nat, n: nat)
    requires lo + n <= 8 * |s|
    ensures ReadBits(s, lo, n) == Value(s, lo, n)
  {
    hide BitAt, Pow2;
    if n > 0 { ReadInside(s, lo, n - 1); }
  }

  // ---------------------------------------------------------------- the operations

  datatype Kind = Get | Set | IncrBy

  datatype Op = Op(kind: Kind, sign: bool, bits: nat, offset: nat, arg: int, mode: Mode)

  /** What the parser of BITFIELD lets through: i1 to i64, u1 to u63, and 64-bit arguments. */
  predicate ValidOp(op: Op) { 0 < op.bits <= (if op.sign then 64 else 63) && IsI64(op.arg) }

  predicate Inside(s: seq<Byte>, op: Op) { op.kind == Get || op.offset + op.bits <= 8 * |s| }

  function ReadAs(s: seq<Byte>, lo: nat, bits: nat, sign: bool): int
    requires bits > 0
  {
    if sign then Signed(ReadBits(s, lo, bits), bits) else ReadBits(s, lo, bits)
  }

  /**
   The number SET stores: an unsigned field reads its argument as unsigned, and a signed one
   saturates upwards where the check wraps around.
   */
  function SetStored(x: int, sign: bool, bits: nat, mode: Mode): Option<int>
    requires bits > 0
  {
    if !sign then Stored(ToU64(x), false, bits, mode)
    else if mode == Sat && WrapsAround(x, bits) then Some(Highest(true, bits))
    else Stored(x, true, bits, mode)
  }

  function Write(s: seq<Byte>, op: Op, v: int): seq<Byte>
    requires op.offset + op.bits <= 8 * |s|
  {
    StoreBits(s, op.offset, op.bits, ToU64(v))
  }

  /** One operation: its reply, and the string after it. */
  function Step(s: seq<Byte>, op: Op): (Option<int>, seq<Byte>)
    requires ValidOp(op) && Inside(s, op)
  {
    var before := ReadAs(s, op.offset, op.bits, op.sign);
    match op.kind
    case Get => (Some(before), s)
    case IncrBy =>
      var r := Stored(before + op.arg, op.sign, op.bits, op.mode);
      if r == None then (None, s) else (r, Write(s, op, r.value))
    case Set =>
      var r := SetStored(op.arg, op.sign, op.bits, op.mode);
      if r == None then (None, s) else (Some(before), Write(s, op, r.value))
  }

  /** What is written is what is read back, and no other bit changes. */
  lemma WriteReads(s: seq<Byte>, op: Op, v: int)
    requires ValidOp(op) && op.offset + op.bits <= 8 * |s| && Fits(v, op.sign, op.bits)
    ensures |Write(s, op, v)| == |s|
    ensures ReadAs(Write(s, op, v), op.offset, op.bits, op.sign) == v
    ensures forall i :: 0 <= i < 8 * |s| && !(op.offset <= i < op.offset + op.bits) ==>
              BitAt(Write(s, op, v), i) == BitAt(s, i)
  {
    var t := Write(s, op, v);
    StoreMeans(s, op.offset, op.bits, ToU64(v));
    ReadInside(t, op.offset, op.bits);
    ModMod(v, op.bits);
    hide BitAt, StoreBits, Value, ReadBits, ToU64;
    Residue(v, op.sign, op.bits);
  }

  lemma Residue(v: int, sign: bool, bits: nat)
    requires bits > 0 && Fits(v, sign, bits)
    ensures var u := v % Pow2(bits); (if sign then Signed(u, bits) else u) == v
  {
    var p := Pow2(bits);
    Pow2Step(bits - 1);
    if v >= 0 { Quotient(v, p, 0, v); } else { Quotient(v, p, -1, v + p); }
  }

  lemma SetStoredFits(x: int, sign: bool, bits: nat, mode: Mode)
    requires bits > 0
    ensures SetStored(x, sign, bits, mode).Some? ==> Fits(SetStored(x, sign, bits, mode).value, sign, bits)
    ensures Stored(x, sign, bits, mode).Some? ==> Fits(Stored(x, sign, bits, mode).value, sign, bits)
  {
    var _ := WrappedMeans(x, sign, bits);
    var _ := WrappedMeans(ToU64(x), sign, bits);
  }

  /** INCRBY, stated without its function: exact sum, representative, nearest limit, or nothing. */
  lemma IncrByMeans(s: seq<Byte>, op: Op)
    requires ValidOp(op) && op.kind == IncrBy && op.offset + op.bits <= 8 * |s|
    ensures var (reply, t) := Step(s, op);
            var sum := ReadAs(s, op.offset, op.bits, op.sign) + op.arg;
            && |t| == |s|
            && (forall i :: 0 <= i < 8 * |s| && !(op.offset <= i < op.offset + op.bits) ==> BitAt(t, i) == BitAt(s, i))
            && (reply == None <==> op.mode == Fail && !Fits(sum, op.sign, op.bits))
            && (reply == None ==> t == s)
            && (reply.Some? ==> ReadAs(t, op.offset, op.bits, op.sign) == reply.value)
            && (Fits(sum, op.sign, op.bits) ==> reply == Some(sum))
            && (!Fits(sum, op.sign, op.bits) && op.mode == Wrap ==> reply == Some(Wrapped(sum, op.sign, op.bits)))
            && (!Fits(sum, op.sign, op.bits) && op.mode == Sat ==>
                  reply == Some(if sum > 0 then Highest(op.sign, op.bits) else Lowest(op.sign, op.bits)))
  {
    var sum := ReadAs(s, op.offset, op.bits, op.sign) + op.arg;
    SetStoredFits(sum, op.sign, op.bits, op.mode);
    var r := Stored(sum, op.sign, op.bits, op.mode);
    hide BitAt, Write, ReadAs, Wrapped;
    if r.Some? { WriteReads(s, op, r.value); }
  }

  /** The argument of SET as its field reads it: unsigned fields take negative ones as 64-bit numbers. */
  function Taken(op: Op): int { if !op.sign && op.arg < 0 then op.arg + TWO_64 else op.arg }

  lemma TakenIs(op: Op)
    requires ValidOp(op)
    ensures !op.sign ==> ToU64(op.arg) == Taken(op)
    ensures op.sign ==> Taken(op) == op.arg
  {
    if op.arg >= 0 { Quotient(op.arg, TWO_64, 0, op.arg); } else { Quotient(op.arg, TWO_64, -1, op.arg + TWO_64); }
  }

  /**
   SET, stated without its function: it replies what GET of the field replies before, or nothing exactly if
   it is to fail and the argument does not fit. The field then reads as the argument, its
   representative, or a limit, and no other bit changes.
   */
  lemma SetMeans(s: seq<Byte>, op: Op)
    requires ValidOp(op) && op.kind == Set && op.offset + op.bits <= 8 * |s|
    ensures var (reply, t) := Step(s, op);
            var (sign, bits, x) := (op.sign, op.bits, Taken(op));
            var after := ReadAs(t, op.offset, bits, sign);
            && |t| == |s|
            && (forall i :: 0 <= i < 8 * |s| && !(op.offset <= i < op.offset + bits) ==> BitAt(t, i) == BitAt(s, i))
            && (reply == None <==> op.mode == Fail && !Fits(x, sign, bits))
            && (reply == None ==> t == s)
            && (reply.Some? ==> reply == Step(s, op.(kind := Get)).0)
            && (Fits(x, sign, bits) ==> after == x)
            && (!Fits(x, sign, bits) && op.mode == Wrap ==> after == Wrapped(x, sign, bits))
            && (!Fits(x, sign, bits) && op.mode == Sat ==>
                  after == if x > 0 || (sign && WrapsAround(x, bits)) then Highest(sign, bits) else Lowest(sign, bits))
  {
    var x := Taken(op);
    TakenIs(op);
    SetCases(op);
    SetStoredFits(op.arg, op.sign, op.bits, op.mode);
    var r := SetStored(op.arg, op.sign, op.bits, op.mode);
    hide BitAt, Write, ReadAs, Wrapped, SetStored, Stored, WrapsAround;
    if r.Some? { WriteReads(s, op, r.value); }
  }

  lemma SetCases(op: Op)
    requires ValidOp(op)
    ensures var (r, sign, bits, x) := (SetStored(op.arg, op.sign, op.bits, op.mode), op.sign, op.bits, Taken(op));
            && (r == None <==> op.mode == Fail && !Fits(x, sign, bits))
            && (Fits(x, sign, bits) ==> r == Some(x))
            && (!Fits(x, sign, bits) && op.mode == Wrap ==> r == Some(Wrapped(x, sign, bits)))
            && (!Fits(x, sign, bits) && op.mode == Sat ==>
                  r == Some(if x > 0 || (sign && WrapsAround(x, bits)) then Highest(sign, bits)
                            else Lowest(sign, bits)))
  {
    TakenIs(op);
    Outside(op.arg, op.bits);
    Positive(op.sign, op.bits);
    hide Pow2, Wrapped, ToU64, WrapsAround;
  }

  lemma Positive(sign: bool, bits: nat)
    requires bits > 0
    ensures Lowest(sign, bits) <= 0 <= Highest(sign, bits)
  {
  }

  /** GET replies the number whose binary digits are the bits of the field, zeros behind the string. */
  lemma GetMeans(s: seq<Byte>, op: Op, j: nat)
    requires ValidOp(op) && op.kind == Get && j < op.bits
    ensures var (reply, t) := Step(s, op);
            && t == s && reply.Some?
            && var u := if reply.value < 0 then reply.value + Pow2(op.bits) else reply.value;
               && (u / Pow2(op.bits - 1 - j)) % 2 == One(ZeroExtended(s, op.offset + j))
               && (reply.value < 0 <==> op.sign && ZeroExtended(s, op.offset))
  {
    ReadSmall(s, op.offset, op.bits);
    ReadDigit(s, op.offset, op.bits, j);
    ReadDigit(s, op.offset, op.bits, 0);
    SignBit(ReadBits(s, op.offset, op.bits), op.bits);
    Pow2Step(op.bits - 1);
    hide ReadBits, Pow2, ZeroExtended, ToI64;
  }

  lemma ReadDigit(s: seq<Byte>, lo: nat, n: nat, j: nat)
    requires j < n <= 64
    ensures (ReadBits(s, lo, n) / Pow2(n - 1 - j)) % 2 == One(ZeroExtended(s, lo + j))
  {
    var at, o := lo / 8, lo % 8;
    var buf := seq(9, i requires 0 <= i => if at + i < |s| then s[at + i] else 0);
    assert IsWindow(buf, s, at) && lo == 8 * at + o;
    hide *;
    WindowDigit(buf, s, at, o, n, j);
  }

  lemma WindowDigit(buf: seq<Byte>, s: seq<Byte>, at: nat, o: nat, n: nat, j: nat)
    requires IsWindow(buf, s, at) && j < n && o + n <= 72
    ensures (ReadBits(s, 8 * at + o, n) / Pow2(n - 1 - j)) % 2 == One(ZeroExtended(s, 8 * at + o + j))
  {
    hide *;
    WindowSize(buf, s, at);
    WindowReads(buf, s, at, o, n);
    ValueDigit(buf, o, n, j);
    WindowBit(buf, s, at, o + j);
  }

  lemma ReadFits(s: seq<Byte>, lo: nat, bits: nat, sign: bool)
    requires bits > 0
    ensures Fits(ReadAs(s, lo, bits, sign), sign, bits)
  {
    ReadSmall(s, lo, bits);
    Pow2Step(bits - 1);
    hide Pow2, ReadBits;
  }

  lemma {:induction false} ReadSmall(s: seq<Byte>, lo: nat, n: nat)
    ensures ReadBits(s, lo, n) < Pow2(n)
  {
    hide ZeroExtended;
    if n > 0 { ReadSmall(s, lo, n - 1); }
  }

  // ---------------------------------------------------------------- executing the operations

  function ValueOr(o: Option<int>, other: int): int { if o.Some? then o.value else other }

  /** SET and INCRBY on signed fields. */
  method ExecuteSigned(p: array<Byte>, op: Op) returns (reply: Option<int>)
    requires ValidOp(op) && op.sign && op.kind != Get && op.offset + op.bits <= 8 * p.Length
    modifies p
    ensures (reply, p[..]) == Step(old(p[..]), op)
  {
    hide StoreBits, ReadBits, CheckSigned, Stored, Value;
    ReadInside(p[..], op.offset, op.bits);
    ReadFits(p[..], op.offset, op.bits, true);
    var before := GetSigned(p[..], op.offset, op.bits);
    var flag, after, answer := 0, 0, 0;
    if op.kind == IncrBy {
      SignedExact(before, op.arg, op.bits, op.mode);
      var (f, limit) := CheckSigned(before, op.arg, op.bits, op.mode);
      flag := f;
      after := if flag != 0 then ValueOr(limit, 0) else before + op.arg;
      answer := after;
    } else {
      after := op.arg;
      SetSignedExact(op.arg, op.bits, op.mode);
      var (f, limit) := CheckSigned(after, 0, op.bits, op.mode);
      flag := f;
      if flag != 0 { after := ValueOr(limit, 0); }
      answer := before;
    }
    StoredCases(before + op.arg, true, op.bits, op.mode);
    StoredCases(op.arg, true, op.bits, op.mode);
    Outside(op.arg, op.bits);
    if !(flag != 0 && op.mode == Fail) {
      reply := Some(answer);
      SetSigned(p, op.offset, op.bits, after);
    } else {
      reply := None;
    }
  }

  lemma StoredCases(x: int, sign: bool, bits: nat, mode: Mode)
    requires bits > 0
    ensures Fits(x, sign, bits) ==> Stored(x, sign, bits, mode) == Some(x)
    ensures Stored(x, sign, bits, mode) == None <==> mode == Fail && !Fits(x, sign, bits)
  {
  }

  lemma Outside(x: int, bits: nat)
    requires 0 < bits <= 64
    ensures WrapsAround(x, bits) ==> !Fits(x, true, bits)
  {
    Halves(bits);
  }

  /** SET and INCRBY on unsigned fields. */
  method ExecuteUnsigned(p: array<Byte>, op: Op) returns (reply: Option<int>)
    requires ValidOp(op) && !op.sign && op.kind != Get && op.offset + op.bits <= 8 * p.Length
    modifies p
    ensures (reply, p[..]) == Step(old(p[..]), op)
  {
    hide StoreBits, ReadBits, CheckUnsigned, Stored, Value, ToU64;
    ReadInside(p[..], op.offset, op.bits);
    ReadFits(p[..], op.offset, op.bits, false);
    var before := GetUnsigned(p[..], op.offset, op.bits);
    var flag, after, answer := 0, 0, 0;
    if op.kind == IncrBy {
      UnsignedExact(before, op.arg, op.bits, op.mode);
      var (f, limit) := CheckUnsigned(before, op.arg, op.bits, op.mode);
      flag := f;
      after := if flag != 0 then ValueOr(limit, 0) else before + op.arg;
      answer := after;
    } else {
      after := ToU64(op.arg);
      SetUnsignedExact(op.arg, op.bits, op.mode);
      var (f, limit) := CheckUnsigned(ToU64(op.arg), 0, op.bits, op.mode);
      flag := f;
      if flag != 0 { after := ValueOr(limit, 0); }
      answer := before;
    }
    StoredCases(before + op.arg, false, op.bits, op.mode);
    StoredCases(ToU64(op.arg), false, op.bits, op.mode);
    if !(flag != 0 && op.mode == Fail) {
      reply := Some(answer);
      SetUnsigned(p, op.offset, op.bits, ToU64(after));
    } else {
      reply := None;
    }
  }

  /** The nine bytes from byte `at` on, zeros behind the end. */
  predicate IsWindow(buf: seq<Byte>, s: seq<Byte>, at: nat) {
    |buf| == 9 && forall i :: 0 <= i < 9 ==> buf[i] == if at + i < |s| then s[at + i] else 0
  }

  lemma WindowBit(buf: seq<Byte>, s: seq<Byte>, at: nat, i: nat)
    requires IsWindow(buf, s, at) && i < 72
    ensures BitAt(buf, i) == ZeroExtended(s, 8 * at + i)
  {
    assert (8 * at + i) / 8 == at + i / 8 && (8 * at + i) % 8 == i % 8;
    UnitBits(0, i % 8);
    hide BitOf;
  }

  lemma {:induction false} WindowReads(buf: seq<Byte>, s: seq<Byte>, at: nat, lo: nat, n: nat)
    requires IsWindow(buf, s, at) && lo + n <= 72
    ensures Value(buf, lo, n) == ReadBits(s, 8 * at + lo, n)
  {
    hide BitAt, ZeroExtended, IsWindow;
    assert |buf| == 9 by { WindowSize(buf, s, at); }
    if n > 0 {
      WindowReads(buf, s, at, lo, n - 1);
      WindowBit(buf, s, at, lo + n - 1);
    }
  }

  lemma WindowSize(buf: seq<Byte>, s: seq<Byte>, at: nat)
    requires IsWindow(buf, s, at)
    ensures |buf| == 9
  {
  }

  /** GET: reads through a copy of nine bytes, which holds every field of up to 64 bits. */
  method ExecuteGet(s: seq<Byte>, op: Op) returns (value: int)
    requires ValidOp(op)
    ensures value == ReadAs(s, op.offset, op.bits, op.sign)
  {
    hide BitAt, ReadBits, Value, Pow2;
    var buf := new Byte[9](_ => 0);
    var at := op.offset / 8;
    var i := 0;
    while i < 9
      invariant 0 <= i <= 9
      invariant forall j :: 0 <= j < 9 ==> buf[j] == if j < i && at + j < |s| then s[at + j] else 0
      decreases 9 - i
    {
      if i + at >= |s| { break; }
      buf[i] := s[i + at];
      i := i + 1;
    }
    assert IsWindow(buf[..], s, at);
    WindowReads(buf[..], s, at, op.offset - 8 * at, op.bits);
    if op.sign {
      value := GetSigned(buf[..], op.offset - 8 * at, op.bits);
    } else {
      value := GetUnsigned(buf[..], op.offset - 8 * at, op.bits);
    }
  }

  // ---------------------------------------------------------------- a whole command

  /** All operations, one after the other. */
  function RunOps(s: seq<Byte>, ops: seq<Op>): (r: (seq<Option<int>>, seq<Byte>))
    requires forall i :: 0 <= i < |ops| ==> ValidOp(ops[i]) && Inside(s, ops[i])
    ensures |r.1| == |s|
  {
    if ops == [] then ([], s)
    else
      var before := RunOps(s, ops[..|ops| - 1]);
      var op := ops[|ops| - 1];
      assert ValidOp(op) && Inside(s, op);
      var now := Step(before.1, op);
      (before.0 + [now.0], now.1)
  }

  /** One reply for each operation, that of the operation on the string the ones before it left. */
  lemma {:induction false} RepliesInOrder(s: seq<Byte>, ops: seq<Op>, j: nat)
    requires forall i :: 0 <= i < |ops| ==> ValidOp(ops[i]) && Inside(s, ops[i])
    requires j < |ops|
    ensures var before := RunOps(s, ops[..j]).1;
            && Inside(before, ops[j]) && |RunOps(s, ops).0| == |ops|
            && RunOps(s, ops).0[j] == Step(before, ops[j]).0
            && RunOps(s, ops[..j + 1]).1 == Step(before, ops[j]).1
  {
    hide Step, Inside;
    var most := ops[..|ops| - 1];
    InsideSame(s, RunOps(s, ops[..j]).1, ops[j]);
    assert ops[..j + 1][..j] == ops[..j];
    RunOpsSize(s, most);
    if j < |ops| - 1 {
      assert most[..j] == ops[..j];
      RepliesInOrder(s, most, j);
    }
  }

  lemma {:induction false} RunOpsSize(s: seq<Byte>, ops: seq<Op>)
    requires forall i :: 0 <= i < |ops| ==> ValidOp(ops[i]) && Inside(s, ops[i])
    ensures |RunOps(s, ops).0| == |ops|
  {
    hide Step, Inside;
    if ops != [] { RunOpsSize(s, ops[..|ops| - 1]); }
  }

  /** One past the highest bit that the operations write. */
  function WriteEnd(ops: seq<Op>): nat {
    if ops == [] then 0
    else
      var rest, op := WriteEnd(ops[..|ops| - 1]), ops[|ops| - 1];
      if op.kind != Get && op.offset + op.bits > rest then op.offset + op.bits else rest
  }

  /** The string made long enough for `bits` bits. */
  function GrownTo(s: seq<Byte>, bits: nat): seq<Byte> {
    var n := (bits + 7) / 8;
    if n <= |s| then s else s + seq(n - |s|, _ => 0)
  }

  /** Growing a string changes nothing that can be read. */
  lemma {:induction false} GrownReads(s: seq<Byte>, bits: nat, lo: nat, n: nat)
    ensures ReadBits(GrownTo(s, bits), lo, n) == ReadBits(s, lo, n)
  {
    if n > 0 {
      GrownReads(s, bits, lo, n - 1);
      UnitBits(0, (lo + n - 1) % 8);
      hide BitOf;
    }
  }

  lemma {:induction false} WriteEndInside(s: seq<Byte>, ops: seq<Op>, i: nat)
    requires i < |ops|
    ensures ops[i].kind != Get ==> ops[i].offset + ops[i].bits <= WriteEnd(ops)
  {
    if i < |ops| - 1 { WriteEndInside(s, ops[..|ops| - 1], i); }
  }

  lemma GrownSize(s: seq<Byte>, bits: nat)
    ensures 8 * |GrownTo(s, bits)| >= bits
  {
  }

  /** No byte is added that the farthest write does not need, and what was there stays. */
  lemma GrownExactly(s: seq<Byte>, ops: seq<Op>)
    ensures var t := GrownTo(s, WriteEnd(ops));
            && |s| <= |t| && t[..|s|] == s && (forall i :: |s| <= i < |t| ==> t[i] == 0)
            && (|s| < |t| ==> exists i :: 0 <= i < |ops| && ops[i].kind != Get &&
                                          8 * (|t| - 1) < ops[i].offset + ops[i].bits)
  {
    if WriteEnd(ops) > 0 { var i := WriteEndReached(ops); }
  }

  lemma {:induction false} WriteEndReached(ops: seq<Op>) returns (i: nat)
    requires WriteEnd(ops) > 0
    ensures i < |ops| && ops[i].kind != Get && ops[i].offset + ops[i].bits == WriteEnd(ops)
  {
    i := |ops| - 1;
    var rest := WriteEnd(ops[..i]);
    if !(ops[i].kind != Get && ops[i].offset + ops[i].bits > rest) { i := WriteEndReached(ops[..i]); }
  }

  lemma AllInside(s: seq<Byte>, ops: seq<Op>)
    ensures forall i :: 0 <= i < |ops| ==> Inside(GrownTo(s, WriteEnd(ops)), ops[i])
  {
    GrownSize(s, WriteEnd(ops));
    forall i | 0 <= i < |ops| ensures Inside(GrownTo(s, WriteEnd(ops)), ops[i]) { WriteEndInside(s, ops, i); }
  }

  /**
   bitfieldGeneric once its arguments are parsed: the string is grown for the farthest write, then the
   operations run in place. A missing key is an empty string; nothing is grown if nothing is written.
   */
  method BitField(s: seq<Byte>, ops: seq<Op>) returns (replies: seq<Option<int>>, p: array<Byte>)
    requires forall i :: 0 <= i < |ops| ==> ValidOp(ops[i])
    ensures fresh(p)
    ensures forall i :: 0 <= i < |ops| ==> Inside(GrownTo(s, WriteEnd(ops)), ops[i])
    ensures (replies, p[..]) == RunOps(GrownTo(s, WriteEnd(ops)), ops)
  {
    hide Step, Inside, GrownTo;
    AllInside(s, ops);
    var readOnly, highest := true, 0;
    for j := 0 to |ops|
      invariant WriteEnd(ops[..j]) == if readOnly then 0 else highest + 1
      invariant highest >= 0 && (readOnly ==> highest == 0)
    {
      assert ops[..j + 1][..j] == ops[..j];
      if ops[j].kind != Get {
        if highest < ops[j].offset + ops[j].bits - 1 { highest := ops[j].offset + ops[j].bits - 1; }
        readOnly := false;
      }
    }
    assert ops[..|ops|] == ops;
    p := Allocate(s, if readOnly then 0 else highest / 8 + 1);
    GrownIs(s, if readOnly then 0 else highest + 1);
    ghost var t := p[..];
    replies := [];
    for j := 0 to |ops|
      invariant |t| == p.Length && fresh(p)
      invariant (replies, p[..]) == RunOps(t, ops[..j])
    {
      assert ops[..j + 1][..j] == ops[..j];
      assert Inside(t, ops[j]);
      InsideSame(t, p[..], ops[j]);
      var reply := Execute(p, ops[j]);
      replies := replies + [reply];
    }
  }

  lemma InsideSame(s: seq<Byte>, t: seq<Byte>, op: Op)
    requires |s| == |t| && Inside(s, op)
    ensures Inside(t, op)
  {
  }

  method Execute(p: array<Byte>, op: Op) returns (reply: Option<int>)
    requires ValidOp(op) && Inside(p[..], op)
    modifies p
    ensures (reply, p[..]) == Step(old(p[..]), op)
  {
    if op.kind == Get {
      var value := ExecuteGet(p[..], op);
      reply := Some(value);
    } else if op.sign {
      reply := ExecuteSigned(p, op);
    } else {
      reply := ExecuteUnsigned(p, op);
    }
  }

  /** A copy of the string with room for n bytes, zeros behind it. */
  method Allocate(s: seq<Byte>, n: nat) returns (p: array<Byte>)
    ensures fresh(p) && p[..] == s + seq(if n <= |s| then 0 else n - |s|, _ => 0)
  {
    var size := if n <= |s| then |s| else n;
    p := new Byte[size](i => if 0 <= i < |s| then s[i] else 0);
  }

  lemma GrownIs(s: seq<Byte>, bits: nat)
    ensures var n := if bits == 0 then 0 else (bits - 1) / 8 + 1;
            GrownTo(s, bits) == s + seq(if n <= |s| then 0 else n - |s|, _ => 0)
  {
  }
}
