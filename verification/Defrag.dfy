/** The arithmetic of allocator_defrag.c: size classes and bins, and the decision to move an allocation. */
module Defrag {

  import opened Bitmap
  import opened Powers

  // ---------------------------------------------------------------- size classes

  /** The size classes of jemalloc with a quantum of 8: 8 to 64 by 8, then four in each doubling. */
  function SizeClass(bin: nat): nat {
    if bin < 8 then 8 * (bin + 1)
    else
      var group, i := (bin - 8) / 4, (bin - 8) % 4 + 1;
      Pow2(group + 6) + i * Pow2(group + 4)
  }

  /** Number of bits of x: 64 minus its leading zeros. */
  function BitLength(x: nat): nat { if x == 0 then 0 else 1 + BitLength(x / 2) }

  lemma {:induction false} BitLengthBounds(x: nat)
    requires x > 0
    ensures BitLength(x) > 0 && Pow2(BitLength(x) - 1) <= x < Pow2(BitLength(x))
  {
    if x > 1 {
      BitLengthBounds(x / 2);
      Pow2Step(BitLength(x) - 1);
      Pow2Step(BitLength(x / 2) - 1);
    } else {
      assert BitLength(1) == 1 + BitLength(0);
      assert Pow2(1) == 2;
    }
  }

  lemma {:induction false} Pow2Order(m: nat, n: nat)
    requires m < n
    ensures 2 * Pow2(m) <= Pow2(n)
  {
    if m + 1 < n { Pow2Order(m, n - 1); }
  }

  /** The bit length is determined by the bounds. */
  lemma BitLengthIs(x: nat, e: nat)
    requires e > 0 && Pow2(e - 1) <= x < Pow2(e)
    ensures BitLength(x) == e
  {
    BitLengthBounds(x);
    var l := BitLength(x);
    if l < e { if l < e - 1 { Pow2Order(l, e - 1); } }
    if l > e { if e < l - 1 { Pow2Order(e, l - 1); } }
  }

  /** jeSize2BinIndexLgQ3. */
  function BinIndex(sz: nat): int
    requires sz > 0
  {
    if sz <= 64 then sz / 8 - 1
    else
      var exp := BitLength(sz - 1);
      var within := 4 - (Pow2(exp) - sz) / Pow2(if exp >= 3 then exp - 3 else 0);
      within + (exp - 7) * 4 + 7
  }

  /** The sizes of one group, and the place of each in it. */
  lemma GroupSizes(sz: nat, group: nat, i: nat)
    requires 1 <= i <= 4
    requires Pow2(group + 6) + (i - 1) * Pow2(group + 4) < sz <= Pow2(group + 6) + i * Pow2(group + 4)
    ensures sz > 64 && BinIndex(sz) == 4 * group + i + 7
  {
    var e, q := group + 7, Pow2(group + 4);
    Pow2Step(group + 4);
    Pow2Step(group + 5);
    Pow2Step(group + 6);
    AtLeast16(group);
    Times(i, q);
    hide Pow2;
    BitLengthIs(sz - 1, e);
    hide *;
    BinAt(sz, e, q, i);
  }

  lemma Times(i: nat, q: nat)
    requires 1 <= i <= 4
    ensures i * q == if i == 1 then q else if i == 2 then 2 * q else if i == 3 then 3 * q else 4 * q
    ensures (i - 1) * q == if i == 1 then 0 else if i == 2 then q else if i == 3 then 2 * q else 3 * q
  {
  }

  lemma BinAt(sz: nat, e: nat, q: nat, i: nat)
    requires sz > 64 && e >= 7 && BitLength(sz - 1) == e && Pow2(e) == 8 * q && Pow2(e - 3) == q && 1 <= i <= 4
    requires 4 * q + (if i == 1 then 0 else if i == 2 then q else if i == 3 then 2 * q else 3 * q) < sz
    requires sz <= 4 * q + (if i == 1 then q else if i == 2 then 2 * q else if i == 3 then 3 * q else 4 * q)
    ensures BinIndex(sz) == 4 * (e - 7) + i + 7
  {
    hide BitLength, Pow2;
    if i == 1 { Quotient(8 * q - sz, q, 3, 5 * q - sz); }
    else if i == 2 { Quotient(8 * q - sz, q, 2, 6 * q - sz); }
    else if i == 3 { Quotient(8 * q - sz, q, 1, 7 * q - sz); }
    else { Quotient(8 * q - sz, q, 0, 8 * q - sz); }
  }

  lemma AtLeast16(group: nat)
    ensures Pow2(group + 4) >= 16
  {
    if group == 0 { assert Pow2(4) == 16; } else { AtLeast16(group - 1); }
  }

  /** The classes have consecutive bins, for every exponent. */
  lemma ClassToBin(bin: nat)
    ensures SizeClass(bin) > 0 && BinIndex(SizeClass(bin)) == bin
  {
    if bin >= 8 {
      var group, i := (bin - 8) / 4, (bin - 8) % 4 + 1;
      var q := Pow2(group + 4);
      assert i * q == (i - 1) * q + q;
      GroupSizes(SizeClass(bin), group, i);
    }
  }

  lemma ClassesIncrease(bin: nat)
    ensures SizeClass(bin) < SizeClass(bin + 1)
  {
    if bin >= 8 {
      var group, i := (bin - 8) / 4, (bin - 8) % 4 + 1;
      Pow2Step(group + 4);
      Pow2Step(group + 5);
      Pow2Step(group + 6);
      var q := Pow2(group + 4);
      if i < 4 {
        assert (bin + 1 - 8) / 4 == group && (bin + 1 - 8) % 4 == i;
        assert (i + 1) * q == i * q + q;
      } else {
        assert (bin + 1 - 8) / 4 == group + 1 && (bin + 1 - 8) % 4 == 0;
        assert Pow2(group + 5) > 0;
      }
    } else if bin == 7 {
      assert Pow2(6) == 64 && Pow2(4) == 16;
    }
  }

  /** The bin of a size is the least class that holds it. */
  predicate RoundsUp(sz: nat, bin: int) {
    bin >= 0 && sz <= SizeClass(bin) && (bin > 0 ==> SizeClass(bin - 1) < sz)
  }

  /** Every size is put in the least class that holds it, except sizes up to 64 that are no multiple of 8. */
  lemma BinRoundsUp(sz: nat)
    requires sz > 0
    ensures RoundsUp(sz, BinIndex(sz)) <==> sz > 64 || sz % 8 == 0
  {
    if sz > 64 { LargeRoundsUp(sz); }
  }

  /** Nine bytes are put in the bin of eight. Region sizes of the allocator, all that are looked up, are classes. */
  lemma NineBytes()
    ensures BinIndex(9) == 0 && SizeClass(0) == 8 && !RoundsUp(9, BinIndex(9))
  {
  }

  lemma LargeRoundsUp(sz: nat)
    requires sz > 64
    ensures RoundsUp(sz, BinIndex(sz))
  {
    hide SizeClass, BinIndex, Pow2;
    var group, i := Located(sz);
    GroupSizes(sz, group, i);
    ClassAt(group, i);
    Below(4 * group + i + 7, group, i);
  }

  /** The group of a size, and its place there. */
  lemma Located(sz: nat) returns (group: nat, i: nat)
    requires sz > 64
    ensures 1 <= i <= 4
    ensures Pow2(group + 6) + (i - 1) * Pow2(group + 4) < sz <= Pow2(group + 6) + i * Pow2(group + 4)
  {
    BitLengthBounds(sz - 1);
    LongEnough(sz);
    group := BitLength(sz - 1) - 7;
    Pow2Step(group + 4);
    Pow2Step(group + 5);
    Pow2Step(group + 6);
    hide *;
    var q := Pow2(group + 4);
    i := if sz <= 5 * q then 1 else if sz <= 6 * q then 2 else if sz <= 7 * q then 3 else 4;
    Times(i, q);
  }

  lemma ClassAt(group: nat, i: nat)
    requires 1 <= i <= 4
    ensures SizeClass(4 * group + i + 7) == Pow2(group + 6) + i * Pow2(group + 4)
  {
    hide Pow2;
    var bin := 4 * group + i + 7;
    assert (bin - 8) / 4 == group && (bin - 8) % 4 == i - 1;
  }

  lemma LongEnough(sz: nat)
    requires sz > 64
    ensures BitLength(sz - 1) >= 7
  {
    BitLengthBounds(sz - 1);
    var l := BitLength(sz - 1);
    assert Pow2(6) == 64;
    if l < 6 { Pow2Order(l, 6); }
  }

  /** The class before the i-th of a group. */
  lemma Below(bin: nat, group: nat, i: nat)
    requires 1 <= i <= 4 && bin == 4 * group + i + 7
    ensures SizeClass(bin - 1) == Pow2(group + 6) + (i - 1) * Pow2(group + 4)
  {
    if i > 1 {
      assert (bin - 1 - 8) / 4 == group && (bin - 1 - 8) % 4 == i - 2;
    } else if group > 0 {
      assert (bin - 1 - 8) / 4 == group - 1 && (bin - 1 - 8) % 4 == 3;
      Pow2Step(group + 3);
      Pow2Step(group + 4);
      Pow2Step(group + 5);
    } else {
      assert Pow2(6) == 64;
    }
  }

  // ---------------------------------------------------------------- the decision

  const THRESHOLD_MILLI: nat := 125

  /** Usage of a bin: number of slabs and of non-full ones, and of allocated regions. */
  datatype Usage = Usage(slabs: nat, nonFull: nat, regions: nat)

  /** The tests of makeDefragDecision on the values it computes. */
  predicate Decided(full: bool, nonFull: nat, taken: int, least: int, share: int, average: int) {
    if full || nonFull < 2 then false
    else if taken < least then true
    else !(share > average)
  }

  /** makeDefragDecision on numbers. */
  predicate ShouldDefrag(perSlab: nat, usage: Usage, taken: nat) {
    var full := usage.slabs - usage.nonFull;
    var inNonFull := usage.regions - full * perSlab;
    Decided(perSlab == taken, usage.nonFull, 1000 * taken, perSlab * THRESHOLD_MILLI,
            1000 * taken * usage.nonFull, (1000 + THRESHOLD_MILLI) * inNonFull)
  }

  function Total(fills: seq<nat>): nat {
    if fills == [] then 0 else Total(fills[..|fills| - 1]) + fills[|fills| - 1]
  }

  /** The counts agree with the slabs: `fills` holds the number of allocated regions of each non-full slab. */
  predicate Consistent(perSlab: nat, usage: Usage, fills: seq<nat>) {
    && usage.nonFull == |fills| <= usage.slabs
    && (forall i :: 0 <= i < |fills| ==> fills[i] < perSlab)
    && usage.regions == (usage.slabs - |fills|) * perSlab + Total(fills)
  }

  lemma {:induction false} LeastTimesCount(fills: seq<nat>, least: nat)
    requires forall i :: 0 <= i < |fills| ==> least <= fills[i]
    ensures least * |fills| <= Total(fills)
  {
    if fills != [] {
      LeastTimesCount(fills[..|fills| - 1], least);
      assert least * |fills| == least * (|fills| - 1) + least;
    }
  }

  /** The decision in terms of the slabs' own counts. */
  lemma DecisionCounts(perSlab: nat, usage: Usage, fills: seq<nat>, taken: nat)
    requires Consistent(perSlab, usage, fills)
    ensures ShouldDefrag(perSlab, usage, taken) <==>
            && perSlab != taken && |fills| >= 2
            && (1000 * taken < 125 * perSlab || 1000 * taken * |fills| <= 1125 * Total(fills))
  {
    var full := usage.slabs - usage.nonFull;
    assert full == usage.slabs - |fills|;
    assert usage.regions - full * perSlab == Total(fills);
  }

  lemma Scaled(taken: nat, n: nat, perSlab: nat, total: nat)
    ensures 1000 * taken < 125 * perSlab <==> 8 * taken < perSlab
    ensures 1000 * taken * n <= 1125 * total <==> 8 * (taken * n) <= 9 * total
  {
    assert 1000 * taken * n == 1000 * (taken * n);
  }

  /** With at least two non-full slabs, a least-filled one is emptied and a full one is never touched. */
  lemma LeastFilledMoves(perSlab: nat, usage: Usage, fills: seq<nat>, i: nat)
    requires Consistent(perSlab, usage, fills) && |fills| >= 2 && i < |fills|
    requires forall j :: 0 <= j < |fills| ==> fills[i] <= fills[j]
    ensures ShouldDefrag(perSlab, usage, fills[i]) && !ShouldDefrag(perSlab, usage, perSlab)
  {
    LeastTimesCount(fills, fills[i]);
    DecisionCounts(perSlab, usage, fills, fills[i]);
    DecisionCounts(perSlab, usage, fills, perSlab);
    hide ShouldDefrag, Total;
    Scaled(fills[i], |fills|, perSlab, Total(fills));
  }

  /** The decision, said of the slabs: non-full, not alone, and below an eighth or 9/8 of the average fill. */
  lemma DecisionMeans(perSlab: nat, usage: Usage, fills: seq<nat>, i: nat)
    requires Consistent(perSlab, usage, fills) && i < |fills|
    ensures ShouldDefrag(perSlab, usage, fills[i]) <==>
            |fills| >= 2 && (8 * fills[i] < perSlab || 8 * (fills[i] * |fills|) <= 9 * Total(fills))
  {
    DecisionCounts(perSlab, usage, fills, fills[i]);
    hide ShouldDefrag, Total;
    Scaled(fills[i], |fills|, perSlab, Total(fills));
  }

  /** makeDefragDecision with machine words of `bits` bits; the regions of a slab have 32. */
  predicate MachineDefrag(bits: nat, perSlab: nat, usage: Usage, taken: nat) {
    var word := Pow2(bits);
    var full := (usage.slabs - usage.nonFull) % word;
    var inNonFull := (usage.regions - full * perSlab % word) % word;
    Decided(perSlab == taken, usage.nonFull, 1000 * taken % word, perSlab * THRESHOLD_MILLI % Pow2(32),
            (1000 * taken % word) * usage.nonFull % word, (1000 + THRESHOLD_MILLI) * inNonFull % word)
  }

  lemma Fits(x: int, m: int)
    requires 0 <= x < m
    ensures x % m == x
  {
  }

  /** What is left for the non-full slabs, in words and in numbers. */
  lemma RegionsLeft(word: nat, perSlab: nat, usage: Usage, fills: seq<nat>)
    requires Consistent(perSlab, usage, fills) && usage.slabs < word && usage.regions < word
    ensures var full := (usage.slabs - usage.nonFull) % word;
            (usage.regions - full * perSlab % word) % word == Total(fills)
    ensures usage.regions - (usage.slabs - usage.nonFull) * perSlab == Total(fills)
  {
    hide Total;
    var full := usage.slabs - |fills|;
    var whole := full * perSlab;
    assert usage.regions == whole + Total(fills);
    assert 0 <= whole;
    Fits(full, word);
    Fits(whole, word);
    Fits(Total(fills), word);
  }

  lemma ShareFits(taken: nat, nonFull: nat, word: nat)
    requires nonFull > 0 && 1000 * taken * nonFull < word
    ensures 1000 * taken % word == 1000 * taken
    ensures (1000 * taken % word) * nonFull % word == 1000 * taken * nonFull
  {
    var a := 1000 * taken;
    assert a <= a * nonFull by { if a > 0 { MulMono(1, nonFull, a); } }
    Fits(a, word);
    Fits(a * nonFull, word);
  }

  /** Only the average can leave its word. */
  lemma MachineCounts(bits: nat, perSlab: nat, usage: Usage, fills: seq<nat>, taken: nat)
    requires Consistent(perSlab, usage, fills) && usage.slabs < Pow2(bits) && usage.regions < Pow2(bits)
    requires perSlab * THRESHOLD_MILLI < Pow2(32) && 1000 * taken * usage.nonFull < Pow2(bits)
    ensures MachineDefrag(bits, perSlab, usage, taken) <==>
            Decided(perSlab == taken, usage.nonFull, 1000 * taken, perSlab * THRESHOLD_MILLI,
                    1000 * taken * usage.nonFull, (1000 + THRESHOLD_MILLI) * Total(fills) % Pow2(bits))
  {
    hide Pow2, Total, Consistent;
    if usage.nonFull >= 2 {
      RegionsLeft(Pow2(bits), perSlab, usage, fills);
      ShareFits(taken, usage.nonFull, Pow2(bits));
      Fits(perSlab * THRESHOLD_MILLI, Pow2(32));
      hide Decided;
    }
  }

  /** While no product leaves its word, the machine decides as on numbers. */
  lemma MachineAgrees(bits: nat, perSlab: nat, usage: Usage, fills: seq<nat>, taken: nat)
    requires Consistent(perSlab, usage, fills) && usage.slabs < Pow2(bits) && usage.regions < Pow2(bits)
    requires perSlab * THRESHOLD_MILLI < Pow2(32) && (1000 + THRESHOLD_MILLI) * Total(fills) < Pow2(bits)
    requires 1000 * taken * usage.nonFull < Pow2(bits)
    ensures MachineDefrag(bits, perSlab, usage, taken) <==> ShouldDefrag(perSlab, usage, taken)
  {
    hide Pow2, Total, Consistent, Decided, MachineDefrag;
    RegionsLeft(Pow2(bits), perSlab, usage, fills);
    MachineCounts(bits, perSlab, usage, fills, taken);
    Fits((1000 + THRESHOLD_MILLI) * Total(fills), Pow2(bits));
  }

  /**
   On the machine: with two non-full slabs, and the average fill inside its word, a least-filled slab is
   emptied and a full one is never touched.
   */
  lemma MachineMovesLeast(bits: nat, perSlab: nat, usage: Usage, fills: seq<nat>, i: nat)
    requires Consistent(perSlab, usage, fills) && usage.slabs < Pow2(bits) && usage.regions < Pow2(bits)
    requires |fills| >= 2 && i < |fills| && forall j :: 0 <= j < |fills| ==> fills[i] <= fills[j]
    requires perSlab * THRESHOLD_MILLI < Pow2(32) && (1000 + THRESHOLD_MILLI) * Total(fills) < Pow2(bits)
    ensures MachineDefrag(bits, perSlab, usage, fills[i]) && !MachineDefrag(bits, perSlab, usage, perSlab)
  {
    hide MachineDefrag, ShouldDefrag, Pow2, Total;
    LeastTimesCount(fills, fills[i]);
    ShareBound(fills[i], |fills|, Total(fills), Pow2(bits));
    LeastFilledMoves(perSlab, usage, fills, i);
    MachineAgrees(bits, perSlab, usage, fills, fills[i]);
    FullStays(bits, perSlab, usage);
  }

  lemma ShareBound(least: nat, n: nat, total: nat, word: nat)
    requires least * n <= total && (1000 + THRESHOLD_MILLI) * total < word
    ensures 1000 * least * n < word
  {
    assert 1000 * least * n == 1000 * (least * n);
  }

  lemma FullStays(bits: nat, perSlab: nat, usage: Usage)
    ensures !MachineDefrag(bits, perSlab, usage, perSlab)
  {
    hide Pow2;
  }

  /** The decision of the machine, said of the slabs. */
  lemma MachineMeans(bits: nat, perSlab: nat, usage: Usage, fills: seq<nat>, i: nat)
    requires Consistent(perSlab, usage, fills) && usage.slabs < Pow2(bits) && usage.regions < Pow2(bits)
    requires i < |fills| && 1000 * fills[i] * |fills| < Pow2(bits)
    requires perSlab * THRESHOLD_MILLI < Pow2(32) && (1000 + THRESHOLD_MILLI) * Total(fills) < Pow2(bits)
    ensures MachineDefrag(bits, perSlab, usage, fills[i]) <==>
            |fills| >= 2 && (8 * fills[i] < perSlab || 8 * (fills[i] * |fills|) <= 9 * Total(fills))
  {
    hide MachineDefrag, ShouldDefrag, Pow2, Total;
    MachineAgrees(bits, perSlab, usage, fills, fills[i]);
    DecisionMeans(perSlab, usage, fills, i);
  }

  function Even(fill: nat, n: nat): seq<nat> { seq(n, _ => fill) }

  lemma {:induction false} EvenTotal(fill: nat, n: nat)
    ensures Total(Even(fill, n)) == fill * n
  {
    if n > 0 {
      EvenTotal(fill, n - 1);
      assert Even(fill, n)[..n - 1] == Even(fill, n - 1);
      assert fill * n == fill * (n - 1) + fill;
    }
  }

  /**
   The bound is needed: n slabs filled alike, to an eighth or more, are all least-filled. While the fill of
   one slab times n is inside its word, one of them is emptied exactly if the average is inside it too.
   */
  lemma EvenSlabsMove(bits: nat, perSlab: nat, usage: Usage, fill: nat)
    requires usage.nonFull >= 2 && Consistent(perSlab, usage, Even(fill, usage.nonFull))
    requires usage.slabs < Pow2(bits) && usage.regions < Pow2(bits) && perSlab * THRESHOLD_MILLI < Pow2(32)
    requires perSlab <= 8 * fill && 1000 * fill * usage.nonFull < Pow2(bits)
    ensures ShouldDefrag(perSlab, usage, fill)
    ensures MachineDefrag(bits, perSlab, usage, fill) <==>
            (1000 + THRESHOLD_MILLI) * (fill * usage.nonFull) < Pow2(bits)
  {
    hide Pow2, Total, ShouldDefrag, MachineDefrag;
    var n := usage.nonFull;
    var fills := Even(fill, n);
    assert fill == fills[0] < perSlab;
    EvenTotal(fill, n);
    LeastFilledMoves(perSlab, usage, fills, 0);
    MachineCounts(bits, perSlab, usage, fills, fill);
    hide Consistent, Even;
    ShareIs(fill, n, fill * n, Pow2(bits));
  }

  lemma ShareIs(fill: nat, n: nat, t: nat, word: nat)
    requires t == fill * n && fill > 0 && n > 0 && 1000 * fill * n < word
    ensures 1000 * fill * n <= (1000 + THRESHOLD_MILLI) * t % word <==> (1000 + THRESHOLD_MILLI) * t < word
  {
    assert 1000 * fill * n == 1000 * t;
    MulMono(1, fill, n);
    OneWrap(t, word);
  }

  lemma EvenConsistent(perSlab: nat, slabs: nat, n: nat, fill: nat)
    requires n <= slabs && fill < perSlab && 0 <= (slabs - n) * perSlab + fill * n
    ensures Consistent(perSlab, Usage(slabs, n, (slabs - n) * perSlab + fill * n), Even(fill, n))
  {
    EvenTotal(fill, n);
    hide Total;
  }

  lemma OneWrap(t: nat, word: nat)
    requires 1000 * t < word && t > 0
    ensures 1000 * t <= (1000 + THRESHOLD_MILLI) * t % word <==> (1000 + THRESHOLD_MILLI) * t < word
  {
    var a := 1125 * t;
    if a < word { Fits(a, word); } else { Quotient(a, word, 1, a - word); }
  }

  /** A bin of 512 regions with 8000 slabs that are full but for one region: 32-bit words refuse all of them. */
  lemma MachineRefusesLeast()
    ensures var usage, fills := Usage(8000, 8000, 4088000), Even(511, 8000);
            && Consistent(512, usage, fills) && ShouldDefrag(512, usage, 511) && !MachineDefrag(32, 512, usage, 511)
  {
    Pow2Word();
    hide Pow2, ShouldDefrag, MachineDefrag;
    EvenConsistent(512, 8000, 8000, 511);
    hide Consistent, Even;
    EvenSlabsMove(32, 512, Usage(8000, 8000, 4088000), 511);
  }
}
