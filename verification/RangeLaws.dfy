/** The ranges of BITCOUNT and BITPOS by what their arguments say, and their answers bit by bit. */
module RangeLaws {

  import opened Bitmap
  import Popcount
  import Bitpos

  // ---------------------------------------------------------------- which bits a range has

  /** An index counts from the end if it is negative. */
  function FromEnd(total: nat, index: int): int { if index < 0 then total + index else index }

  /** Both ends count from the end, and the start is behind the end. */
  predicate Reversed(range: Popcount.Range) {
    range.FromTo? && range.start < 0 && range.end < 0 && range.start > range.end
  }

  /** Bit i is in the range as it is written; an end in front of the string stands for its first unit. */
  predicate InRange(size: nat, range: Popcount.Range, i: nat) {
    match range
    case Whole => true
    case From(start) => FromEnd(size, start) <= i / 8
    case FromTo(start, end, isBit) =>
      var (unit, total) := if isBit then (i as int, 8 * size) else (i / 8, size);
      FromEnd(total, start) <= unit && (unit <= FromEnd(total, end) || unit == 0)
  }

  /** BITCOUNT counts the bits in the range, unless its ends are reversed. */
  lemma SelectedMeans(size: nat, range: Popcount.Range, i: nat)
    requires i < 8 * size
    ensures var r := Popcount.Selected(size, range);
            r.0 <= i < r.1 <==> InRange(size, range, i) && !Reversed(range)
  {
    UnitsOf(size, range, i);
  }

  /** BITPOS looks at the bits in the range. */
  lemma LookedMeans(size: nat, range: Popcount.Range, i: nat)
    requires i < 8 * size
    ensures var r := Bitpos.Looked(size, range);
            r.0 <= i < r.1 <==> InRange(size, range, i)
  {
    UnitsOf(size, range, i);
  }

  lemma UnitsOf(size: nat, range: Popcount.Range, i: nat)
    requires i < 8 * size
    ensures range.From? ==>
              var r := Popcount.Units(8, size, Popcount.FirstUnit(size, range.start), size - 1);
              r.0 <= i < r.1 <==> InRange(size, range, i)
    ensures range.FromTo? && range.isBit ==>
              var r := Popcount.Units(1, 8 * size, Popcount.FirstUnit(8 * size, range.start),
                                      Popcount.LastUnit(8 * size, range.end));
              r.0 <= i < r.1 <==> InRange(size, range, i)
    ensures range.FromTo? && !range.isBit ==>
              var from, to := Popcount.FirstUnit(size, range.start), Popcount.LastUnit(size, range.end);
              var r := Popcount.Units(8, size, from, to);
              r.0 <= i < r.1 <==> InRange(size, range, i)
  {
  }

  /** The end is in front of the string: the range from 0 to -100 of one byte is that byte, not empty. */
  lemma EndInFront()
    ensures Popcount.Selected(1, Popcount.FromTo(0, -100, false)) == (0, 8)
    ensures Bitpos.Looked(1, Popcount.FromTo(0, -100, false)) == (0, 8)
  {
  }

  // ---------------------------------------------------------------- the answers

  /** The set bits of a range. */
  function SetBits(s: seq<Byte>, lo: nat, hi: nat): set<nat>
    requires hi <= 8 * |s|
  {
    set i | lo <= i < hi && BitAt(s, i)
  }

  /** BITCOUNT answers how many bits are set. */
  lemma {:induction false} CountIsCardinality(s: seq<Byte>, lo: nat, hi: nat)
    requires lo <= hi <= 8 * |s|
    ensures CountBits(s, lo, hi) == |SetBits(s, lo, hi)|
  {
    hide BitAt;
    if lo == hi {
      assert SetBits(s, lo, hi) == {};
    } else {
      CountIsCardinality(s, lo, hi - 1);
      if BitAt(s, hi - 1) {
        assert SetBits(s, lo, hi) == SetBits(s, lo, hi - 1) + {hi - 1};
      } else {
        assert SetBits(s, lo, hi) == SetBits(s, lo, hi - 1);
      }
    }
  }

  /**
   BITPOS answers the least position of the range that holds the bit; -1 if there is none, except that
   a clear bit is found behind a string without an explicit end.
   */
  lemma ReplyMeans(s: seq<Byte>, bit: bool, range: Popcount.Range, pos: int)
    requires Bitpos.Reply(s, bit, range, pos)
    ensures forall i :: 0 <= i < 8 * |s| && InRange(|s|, range, i) && BitAt(s, i) == bit ==>
              0 <= pos <= i && pos < 8 * |s| && InRange(|s|, range, pos) && BitAt(s, pos) == bit
    ensures (forall i :: 0 <= i < 8 * |s| && InRange(|s|, range, i) ==> BitAt(s, i) != bit) ==>
              pos == if !bit && !range.FromTo? && exists i :: 0 <= i < 8 * |s| && InRange(|s|, range, i)
                     then 8 * |s| else -1
  {
    var r := Bitpos.Looked(|s|, range);
    forall i | 0 <= i < 8 * |s| ensures r.0 <= i < r.1 <==> InRange(|s|, range, i) { LookedMeans(|s|, range, i); }
    hide InRange, BitAt, Bitpos.Looked;
    if r.0 < r.1 { assert InRange(|s|, range, r.0); }
  }

  /** Bits are numbered from the most significant one of the first byte. */
  lemma BitNumbers(s: seq<Byte>, i: nat)
    requires i < 8 * |s|
    ensures BitAt(s, i) <==> s[i / 8] & BitMask(7 - i % 8) != 0
  {
    assert BitMask(1) == 2 && BitMask(2) == 4 && BitMask(3) == 8;
    assert BitMask(4) == 16 && BitMask(5) == 32;
    assert BitMask(6) == 64 && BitMask(7) == 128;
  }

  function BitMask(k: nat): Byte
    requires k < 8
  {
    if k == 0 then 1 else BitMask(k - 1) << 1
  }
}
