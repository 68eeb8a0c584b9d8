/** Strings as bitmaps: bit 0 is the most significant bit of the first byte. */
module Bitmap {

  import opened Powers

  type Byte = bv8

  function One(b: bool): nat { if b then 1 else 0 }

  /** The byte whose only set bit is bit k. */
  function Unit(k: nat): Byte
    requires k < 8
  {
    match k
    case 0 => 0x80 case 1 => 0x40 case 2 => 0x20 case 3 => 0x10
    case 4 => 0x08 case 5 => 0x04 case 6 => 0x02 case _ => 0x01
  }

  predicate BitOf(b: Byte, k: nat)
    requires k < 8
  {
    b & Unit(k) != 0
  }

  predicate BitAt(s: seq<Byte>, i: nat)
    requires i < 8 * |s|
  {
    BitOf(s[i / 8], i % 8)
  }

  /** Number of set bits at the positions from lo up to, but without, hi. */
  function CountBits(s: seq<Byte>, lo: nat, hi: nat): nat
    requires lo <= hi <= 8 * |s|
  {
    if lo == hi then 0 else CountBits(s, lo, hi - 1) + One(BitAt(s, hi - 1))
  }

  lemma {:induction false} CountSplit(s: seq<Byte>, lo: nat, mid: nat, hi: nat)
    requires lo <= mid <= hi <= 8 * |s|
    ensures CountBits(s, lo, hi) == CountBits(s, lo, mid) + CountBits(s, mid, hi)
  {
    hide BitAt;
    if mid < hi { CountSplit(s, lo, mid, hi - 1); }
  }

  /** Number of set bits of a byte among its first k. */
  function OnesBefore(b: Byte, k: nat): nat
    requires k <= 8
  {
    if k == 0 then 0 else OnesBefore(b, k - 1) + One(BitOf(b, k - 1))
  }

  function Ones(b: Byte): nat { OnesBefore(b, 8) }

  /** Counting inside one byte. */
  lemma {:induction false} CountInByte(s: seq<Byte>, j: nat, k: nat)
    requires j < |s| && k <= 8
    ensures CountBits(s, 8 * j, 8 * j + k) == OnesBefore(s[j], k)
  {
    hide BitOf;
    if k > 0 {
      CountInByte(s, j, k - 1);
      assert (8 * j + k - 1) / 8 == j && (8 * j + k - 1) % 8 == k - 1;
    }
  }

  lemma CountByte(s: seq<Byte>, lo: nat, j: nat)
    requires lo <= 8 * j && j < |s|
    ensures CountBits(s, lo, 8 * j + 8) == CountBits(s, lo, 8 * j) + Ones(s[j])
  {
    CountSplit(s, lo, 8 * j, 8 * j + 8);
    CountInByte(s, j, 8);
  }

  /** Only the bits that are counted matter. */
  lemma {:induction false} CountShifted(s: seq<Byte>, t: seq<Byte>, d: nat, lo: nat, hi: nat)
    requires d + |t| <= |s| && t == s[d..d + |t|] && lo <= hi <= 8 * |t|
    ensures CountBits(t, lo, hi) == CountBits(s, 8 * d + lo, 8 * d + hi)
  {
    hide BitOf;
    if lo < hi {
      CountShifted(s, t, d, lo, hi - 1);
      assert (8 * d + hi - 1) / 8 == d + (hi - 1) / 8 && (8 * d + hi - 1) % 8 == (hi - 1) % 8;
    }
  }

  // ---------------------------------------------------------------- edge masks

  /** The bits of the first byte before bit k: ~((1 << (8 - k)) - 1) & 0xFF. */
  function FirstMask(k: nat): Byte
    requires k < 8
  {
    (!(((1 as bv16) << (8 - k)) - 1) & 0xFF) as Byte
  }

  /** The bits of the last byte after bit k: (1 << (7 - k)) - 1. */
  function LastMask(k: nat): Byte
    requires k < 8
  {
    ((1 as Byte) << (7 - k)) - 1
  }

  lemma FirstMaskBits(k: nat, j: nat)
    requires k < 8 && j < 8
    ensures BitOf(FirstMask(k), j) <==> j < k
  {
    FirstMaskTable(k);
  }

  lemma FirstMaskTable(k: nat)
    requires k < 8
    ensures FirstMask(k) == [0x00, 0x80, 0xC0, 0xE0, 0xF0, 0xF8, 0xFC, 0xFE][k]
  {
    if k == 0 {} else if k == 1 {} else if k == 2 {} else if k == 3 {}
    else if k == 4 {} else if k == 5 {} else if k == 6 {} else {}
  }

  lemma LastMaskTable(k: nat)
    requires k < 8
    ensures LastMask(k) == [0x7F, 0x3F, 0x1F, 0x0F, 0x07, 0x03, 0x01, 0x00][k]
  {
    if k == 0 {} else if k == 1 {} else if k == 2 {} else if k == 3 {}
    else if k == 4 {} else if k == 5 {} else if k == 6 {} else {}
  }

  lemma LastMaskBits(k: nat, j: nat)
    requires k < 8 && j < 8
    ensures BitOf(LastMask(k), j) <==> j > k
  {
    LastMaskTable(k);
  }

  lemma BitAnd(a: Byte, b: Byte, j: nat)
    requires j < 8
    ensures BitOf(a & b, j) <==> BitOf(a, j) && BitOf(b, j)
  {
    UnitSingle(j);
    hide Unit;
    AndSingle(a, b, Unit(j));
  }

  lemma BitOr(a: Byte, b: Byte, j: nat)
    requires j < 8
    ensures BitOf(a | b, j) <==> BitOf(a, j) || BitOf(b, j)
  {
    UnitSingle(j);
    hide Unit;
    OrSingle(a, b, Unit(j));
  }

  lemma BitNot(a: Byte, j: nat)
    requires j < 8
    ensures BitOf(!a, j) <==> !BitOf(a, j)
  {
    UnitSingle(j);
    hide Unit;
    NotSingle(a, Unit(j));
  }

  predicate Single(u: Byte) { u != 0 && u & (u - 1) == 0 }

  lemma UnitSingle(j: nat)
    requires j < 8
    ensures Single(Unit(j))
  {
  }

  lemma AndSingle(a: Byte, b: Byte, u: Byte)
    requires Single(u)
    ensures (a & b) & u != 0 <==> a & u != 0 && b & u != 0
  {
  }

  lemma OrSingle(a: Byte, b: Byte, u: Byte)
    ensures (a | b) & u != 0 <==> a & u != 0 || b & u != 0
  {
  }

  lemma NotSingle(a: Byte, u: Byte)
    requires Single(u)
    ensures !a & u != 0 <==> a & u == 0
  {
  }

  // ---------------------------------------------------------------- bits as a number

  /** The n bits from position lo on, as an unsigned number. */
  function Value(s: seq<Byte>, lo: nat, n: nat): (v: nat)
    requires lo + n <= 8 * |s|
    ensures v < Pow2(n)
  {
    if n == 0 then 0 else 2 * Value(s, lo, n - 1) + One(BitAt(s, lo + n - 1))
  }

  lemma ValueStep(s: seq<Byte>, lo: nat, n: nat)
    requires lo + n < 8 * |s|
    ensures Value(s, lo, n + 1) == 2 * Value(s, lo, n) + One(BitAt(s, lo + n))
  {
  }

  lemma Doubled(a: int, v: int, p: int, w: int, c: int, a': int, p': int, w': int)
    requires a == v * p + w && a' == 2 * a + c && p' == 2 * p && w' == 2 * w + c
    ensures a' == v * p' + w'
  {
    assert v * (2 * p) == 2 * (v * p);
  }

  /** The bits of a number, cut in two. */
  lemma {:induction false} ValueSplit(s: seq<Byte>, lo: nat, m: nat, n: nat)
    requires lo + m + n <= 8 * |s|
    ensures Value(s, lo, m + n) == Value(s, lo, m) * Pow2(n) + Value(s, lo + m, n)
  {
    hide *;
    if n == 0 {
      Base(s, lo, m);
    } else {
      ValueSplit(s, lo, m, n - 1);
      var a, v, p, w := Value(s, lo, m + (n - 1)), Value(s, lo, m), Pow2(n - 1), Value(s, lo + m, n - 1);
      ValueStep(s, lo, m + (n - 1));
      ValueStep(s, lo + m, n - 1);
      Pow2Step(n - 1);
      assert m + (n - 1) + 1 == m + n && n - 1 + 1 == n && lo + (m + (n - 1)) == lo + m + (n - 1);
      Doubled(a, v, p, w, One(BitAt(s, lo + m + (n - 1))), Value(s, lo, m + n), Pow2(n), Value(s, lo + m, n));
    }
  }

  lemma Base(s: seq<Byte>, lo: nat, m: nat)
    requires lo + m <= 8 * |s|
    ensures Value(s, lo, m) == Value(s, lo, m) * Pow2(0) + Value(s, lo + m, 0)
  {
    assert Pow2(0) == 1;
    hide *;
    assert Value(s, lo, m) * 1 == Value(s, lo, m);
  }

  lemma MulMono(a: int, b: int, d: int)
    requires a <= b && d > 0
    ensures a * d <= b * d
  {
  }

  lemma Quotient(x: int, d: int, q: int, r: int)
    requires 0 <= r < d && x == q * d + r
    ensures x / d == q && x % d == r
  {
    var q' := x / d;
    assert x == q' * d + x % d;
    if q' < q { MulMono(q' + 1, q, d); }
    if q' > q { MulMono(q + 1, q', d); }
  }

  /** Bit j of the n bits from lo on is a binary digit of their value. */
  lemma ValueDigit(s: seq<Byte>, lo: nat, n: nat, j: nat)
    requires lo + n <= 8 * |s| && j < n
    ensures (Value(s, lo, n) / Pow2(n - 1 - j)) % 2 == One(BitAt(s, lo + j))
  {
    hide *;
    var m := n - 1 - j;
    ValueSplit(s, lo, j + 1, m);
    ValueStep(s, lo, j);
    Quotient(Value(s, lo, n), Pow2(m), Value(s, lo, j + 1), Value(s, lo + j + 1, m));
    OddEven(Value(s, lo, j), BitAt(s, lo + j));
  }

  lemma OddEven(v: nat, b: bool)
    ensures (2 * v + One(b)) % 2 == One(b)
  {
  }
}
