/**
  The signed variable of the Rice encoder. A block that is split copies each of its differences to a signed 32-bit
  variable, and relies on its not being negative there.
 */
module RiceSigns {
  import opened Powers
  import opened Bits
  import opened Grids
  import opened RiceSpec
  import opened RiceBound

  // A difference as the encoder's signed 32-bit variable.
  function AsInt(v: nat): int
  {
    if v < 0x8000_0000 then v else v - 0x1_0000_0000
  }

  // No difference is negative there if the block is split.
  predicate BlockKeepsSigns(k: Coder, d: seq<nat>)
    requires d != []
  {
    Split(d) < k.fsmax ==> forall j :: 0 <= j < |d| ==> AsInt(d[j]) >= 0
  }

  predicate KeepsSigns(k: Coder, a: seq<int>, last: int, nblock: nat)
    requires nblock > 0 && k.bbits > 0
    decreases |a|
  {
    a == [] ||
    var n := Least(nblock, |a|);
    BlockKeepsSigns(k, Diffs(a[..n], last, k.bbits)) && KeepsSigns(k, a[n..], a[n - 1], nblock)
  }

  // ---- short blocks ----

  lemma SplitDiffsSmall(d: seq<nat>, i: nat)
    requires i < |d| <= 63 && Split(d) < 25
    ensures d[i] < 0x8000_0000
  {
    hide Sum;
    hide Split;
    SumBelow(d);
    ElementBelowSum(d, i);
    Pow2Monotone(Split(d), 24);
    Pow24();
    MulMonotone(2 * Pow2(Split(d)), 0x200_0000, |d|);
  }

  // The block sizes with which no line has a negative copy.
  predicate BlockSizeFits(k: Coder, nblock: nat)
  {
    nblock > 0 && (k == INTS ==> nblock <= 63)
  }

  lemma NarrowWidths()
    ensures Pow2(8) == 256 && Pow2(16) == 0x1_0000
  {
    BytePow();
    Pow2Add(8, 8);
  }

  lemma ShortBlock(k: Coder, a: seq<int>, last: int, nblock: nat)
    requires IsCoder(k) && BlockSizeFits(k, nblock) && 0 < |a| <= nblock
    ensures BlockKeepsSigns(k, Diffs(a, last, k.bbits))
  {
    hide Diff;
    hide Split;
    hide Pow2;
    NarrowWidths();
    var d := Diffs(a, last, k.bbits);
    forall j | 0 <= j < |d| && Split(d) < k.fsmax
      ensures AsInt(d[j]) >= 0
    {
      if k == INTS {
        SplitDiffsSmall(d, j);
      }
    }
  }

  lemma {:induction false} ShortBlocks(k: Coder, a: seq<int>, last: int, nblock: nat)
    requires IsCoder(k) && BlockSizeFits(k, nblock)
    ensures KeepsSigns(k, a, last, nblock)
    decreases |a|
  {
    hide BlockKeepsSigns;
    hide Diffs;
    if a != [] {
      var n := Least(nblock, |a|);
      ShortBlock(k, a[..n], last, nblock);
      ShortBlocks(k, a[n..], a[n - 1], nblock);
    }
  }

  // ---- long blocks ----

  // Zeros, and then 2^30.
  function Step(n: nat): (a: seq<int>)
    requires n > 0
    ensures |a| == n
  {
    seq(n, i requires 0 <= i < n => if i == n - 1 then 0x4000_0000 else 0)
  }

  lemma IntWidths()
    ensures Pow2(31) == 0x8000_0000 && Pow2(32) == 0x1_0000_0000
  {
    Pow24();
    assert Pow2(7) == 128;
    Pow2Add(24, 7);
    PowNext(32);
  }

  lemma StepDiff()
    ensures Diff(0, 0, 32) == 0 && Diff(0x4000_0000, 0, 32) == 0x8000_0000
  {
    hide Pow2;
    IntWidths();
    QuotientUnique(0x8000_0000, 0x1_0000_0000, 0, 0x8000_0000);
    QuotientUnique(0xC000_0000, 0x1_0000_0000, 0, 0xC000_0000);
  }

  lemma {:induction false} StepSum(d: seq<nat>, v: nat)
    requires d != [] && d[|d| - 1] == v && forall i :: 0 <= i < |d| - 1 ==> d[i] == 0
    ensures Sum(d) == v
    decreases |d|
  {
    var n := |d| - 1;
    if n > 0 {
      StepSum(d[..n], 0);
    }
  }

  // From 64 pixels on, a block of zeros that ends in 2^30 is split, and the last difference is -2^31 in the copy.
  lemma LongBlockLosesSign(n: nat)
    requires n >= 64
    ensures var d := Diffs(Step(n), 0, 32);
            Split(d) < 25 && d[n - 1] == 0x8000_0000 && AsInt(d[n - 1]) == -0x8000_0000
  {
    hide Diff;
    var a := Step(n);
    var d := Diffs(a, 0, 32);
    StepDiff();
    assert forall i :: 0 <= i < n ==> d[i] == Diff(a[i], if i == 0 then 0 else a[i - 1], 32);
    StepSum(d, 0x8000_0000);
    OneLargeIsSplit(d);
  }

  lemma OneLargeIsSplit(d: seq<nat>)
    requires |d| >= 64 && Sum(d) == 0x8000_0000
    ensures Split(d) < 25
  {
    hide Sum;
    hide Split;
    var n := |d|;
    Pow24();
    MulMonotone(64, n, 2 * Pow2(24));
    if n / 2 < Sum(d) {
      SplitLow(d, 24);
    } else {
      NoExcess(d);
    }
  }

  // For every line, with blocks of up to nblock pixels, no copy is negative.
  ghost predicate NeverNegative(k: Coder, nblock: nat)
    requires nblock > 0 && k.bbits > 0
  {
    forall a: seq<int> :: a != [] ==> KeepsSigns(k, a, a[0], nblock)
  }

  // That is so exactly for up to 63 pixels of 32 bits, and for any number of narrower ones.
  lemma NeverNegativeExactly(k: Coder, nblock: nat)
    requires IsCoder(k) && nblock > 0
    ensures NeverNegative(k, nblock) <==> BlockSizeFits(k, nblock)
  {
    hide KeepsSigns;
    if BlockSizeFits(k, nblock) {
      forall a: seq<int> | a != []
        ensures KeepsSigns(k, a, a[0], nblock)
      {
        ShortBlocks(k, a, a[0], nblock);
      }
    } else {
      LongBlock(nblock);
      assert |Step(nblock)| == nblock;
    }
  }

  lemma LongBlock(nblock: nat)
    requires nblock >= 64
    ensures !KeepsSigns(INTS, Step(nblock), Step(nblock)[0], nblock)
  {
    hide Split;
    hide Diffs;
    var a := Step(nblock);
    LongBlockLosesSign(nblock);
    assert a[..nblock] == a && a[0] == 0;
  }
}
