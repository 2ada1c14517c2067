/** How long the Rice code of a line can get, and how large the differences in a split block. */
module RiceBound {
  import opened Powers
  import opened Bits
  import opened Grids
  import opened RiceSpec

  // The unary parts of a block split at fs.
  function Tops(d: seq<nat>, fs: nat): nat
  {
    if d == [] then 0 else
    NotNegative(d[0], Pow2(fs));
    d[0] / Pow2(fs) + Tops(d[1..], fs)
  }

  lemma {:induction false} SumFront(d: seq<nat>)
    requires d != []
    ensures Sum(d) == d[0] + Sum(d[1..])
    decreases |d|
  {
    if |d| > 1 {
      var n := |d| - 1;
      SumFront(d[..n]);
      assert d[..n][1..] == d[1..][..n - 1];
    } else {
      assert d[..0] == [] && d[1..] == [];
    }
  }

  lemma {:induction false} ElementBelowSum(d: seq<nat>, i: nat)
    requires i < |d|
    ensures d[i] <= Sum(d)
    decreases |d|
  {
    if i < |d| - 1 {
      ElementBelowSum(d[..|d| - 1], i);
    }
  }

  lemma QuotientPart(v: nat, p: nat)
    requires p > 0
    ensures v / p * p <= v
  {
  }

  lemma {:induction false} TopsBelowSum(d: seq<nat>, fs: nat)
    ensures Tops(d, fs) * Pow2(fs) <= Sum(d)
    decreases |d|
  {
    hide Pow2;
    if d != [] {
      SumFront(d);
      TopsBelowSum(d[1..], fs);
      QuotientPart(d[0], Pow2(fs));
      var p := Pow2(fs);
      assert (d[0] / p + Tops(d[1..], fs)) * p == d[0] / p * p + Tops(d[1..], fs) * p;
    }
  }

  lemma {:induction false} CodesLength(k: Coder, fs: nat, d: seq<nat>)
    ensures |Codes(k, fs, d)| == if fs == k.fsmax then |d| * k.bbits else Tops(d, fs) + |d| * (fs + 1)
    decreases |d|
  {
    hide Pow2;
    hide Msb;
    hide RiceCode;
    if d != [] {
      CodesLength(k, fs, d[1..]);
      CodeLength(d[0], fs);
      NextProduct(|d[1..]|, k.bbits);
      NextProduct(|d[1..]|, fs + 1);
    }
  }

  lemma CodeLength(v: nat, fs: nat)
    ensures |RiceCode(v, fs)| == v / Pow2(fs) + 1 + fs
  {
    hide Pow2;
    hide Msb;
  }

  lemma NextProduct(n: nat, x: nat)
    ensures (n + 1) * x == n * x + x
  {
  }

  lemma QuotientBelow(x: nat, n: nat, q: nat)
    requires n > 0 && x / n < q
    ensures x < q * n
  {
    MulMonotone(x / n + 1, q, n);
  }

  // The split level is so high that the differences average less than twice its power.
  lemma SumBelow(d: seq<nat>)
    requires d != []
    ensures Sum(d) <= 2 * Pow2(Split(d)) * |d| + |d| / 2
  {
    var n, fs, excess := |d|, Split(d), Sum(d) - |d| / 2 - 1;
    hide Sum;
    hide Pow2;
    if excess >= 0 {
      NotNegative(excess, n);
      QuotientBelow(excess, n, 2 * Pow2(fs));
    } else {
      assert 2 * Pow2(fs) * n >= 0;
    }
  }

  lemma Pow24()
    ensures Pow2(24) == 0x100_0000 && Pow2(5) == 32
  {
    Pow2Add(12, 12);
    Pow2Add(6, 6);
    assert Pow2(6) == 64;
  }

  lemma FactorAtMost(t: nat, x: nat, p: nat)
    requires t * p < (x + 1) * p
    ensures t <= x
  {
    MulMonotone(x + 1, t, p);
  }

  lemma TopsSmall(t: nat, p: nat, n: nat)
    requires p > 0 && t * p <= 2 * p * n + n / 2
    ensures t <= 2 * n + n / 2
    ensures n / 2 < p ==> t <= 2 * n
    ensures t <= 3 * n
  {
    MulMonotone(1, p, n / 2);
    assert (2 * n + n / 2 + 1) * p == 2 * p * n + n / 2 * p + p;
    FactorAtMost(t, 2 * n + n / 2, p);
    if n / 2 < p {
      assert (2 * n + 1) * p == 2 * p * n + p;
      FactorAtMost(t, 2 * n, p);
    }
  }

  // ---- the longest blocks ----

  // Does the highest split level leave just three bits a pixel for the tops? It does for 8 and 16 bits.
  predicate Tight(k: Coder)
  {
    k.bbits == k.fsmax + 2
  }

  // How many bits more than its pixels stored directly a block of n pixels can take.
  function Extra(k: Coder, n: nat): (e: nat)
    requires IsCoder(k)
    ensures e <= n / 2 && e * Pow2(k.fsmax - 1) <= n / 2
  {
    FloorAtMost(n / 2, Pow2(k.fsmax - 1));
    if Tight(k) then n / 2 / Pow2(k.fsmax - 1) else 0
  }

  lemma FloorAtMost(a: nat, p: nat)
    requires p > 0
    ensures 0 <= a / p <= a && a / p * p <= a
  {
    assert a / p * p == a - a % p;
    if a / p > a {
      MulMonotone(1, p, a / p);
    }
  }

  lemma ExtraNone(k: Coder, n: nat)
    requires IsCoder(k)
    ensures Extra(k, n) == 0 <==> (k == BYTES ==> n <= 63) && (k == SHORTS ==> n <= 16383)
  {
    Pow24();
  }

  // Tops of which all but 2n fit n / 2 bits of weight p.
  lemma TopsNear(t: nat, p: nat, n: nat)
    requires p > 0 && t * p <= 2 * p * n + n / 2
    ensures t <= 2 * n + n / 2 / p
  {
    if t > 2 * n {
      assert (t - 2 * n) * p == t * p - 2 * p * n;
      QuotientMonotone((t - 2 * n) * p, n / 2, p);
      QuotientUnique((t - 2 * n) * p, p, t - 2 * n, 0);
    } else {
      NotNegative(n / 2, p);
    }
  }

  lemma QuotientMonotone(a: nat, b: nat, p: nat)
    requires a <= b && p > 0
    ensures a / p <= b / p
  {
    if a / p > b / p {
      MulMonotone(b / p + 1, a / p, p);
    }
  }

  lemma WidthEnough(k: Coder, fs: nat, t: nat, n: nat)
    requires IsCoder(k) && fs < k.fsmax && t <= 3 * n
    requires Tight(k) && fs == k.fsmax - 1 ==> t <= 2 * n + Extra(k, n)
    ensures t + n * (fs + 1) <= n * k.bbits + Extra(k, n)
  {
    hide Extra;
    var spare: nat := k.bbits - fs - 1;
    ProductSplits(n, fs + 1, spare);
    MulMonotone(if spare > 2 then 3 else 2, spare, n);
  }

  lemma ProductSplits(n: nat, a: nat, b: nat)
    ensures n * (a + b) == n * a + n * b && n * b == b * n
  {
  }

  // No block takes more than its split level, its pixels stored directly, and the extra bits.
  lemma BlockLength(k: Coder, d: seq<nat>)
    requires IsCoder(k) && d != []
    ensures |BlockBits(k, d)| <= k.fsbits + |d| * k.bbits + Extra(k, |d|)
  {
    hide Sum;
    hide Split;
    hide Codes;
    hide Pow2;
    hide Msb;
    var fs, n := Split(d), |d|;
    CodesLength(k, fs, d);
    CodesLength(k, k.fsmax, d);
    if fs < k.fsmax {
      SumBelow(d);
      TopsBelowSum(d, fs);
      TopsSmall(Tops(d, fs), Pow2(fs), n);
      TopsNear(Tops(d, fs), Pow2(fs), n);
      WidthEnough(k, fs, Tops(d, fs), n);
    }
  }

  // ---- blocks that are that long ----

  predicate Differences(k: Coder, d: seq<nat>)
  {
    forall i :: 0 <= i < |d| ==> d[i] < Pow2(k.bbits)
  }

  lemma PowNext(m: nat)
    requires m > 0
    ensures Pow2(m) == 2 * Pow2(m - 1)
  {
  }

  lemma QuotientAtLeast(x: nat, n: nat, lo: nat)
    requires n > 0 && lo * n <= x
    ensures x / n >= lo
  {
    if x / n < lo {
      QuotientBelow(x, n, lo);
    }
  }

  lemma QuotientAtMost(x: nat, n: nat, hi: nat)
    requires n > 0 && x < hi * n
    ensures 0 <= x / n < hi
  {
    if x / n >= hi {
      MulMonotone(hi, x / n, n);
    }
  }

  // The split level of a block is the bit length of half the mean excess q.
  lemma SplitOf(d: seq<nat>, q: nat)
    requires d != [] && Sum(d) > |d| / 2 && q == (Sum(d) - |d| / 2 - 1) / |d|
    ensures Split(d) == BitLength(q / 2)
  {
    hide Sum;
  }

  // The differences sum up so high that the split level is at least m.
  lemma SplitHigh(d: seq<nat>, m: nat)
    requires d != [] && m > 0 && Pow2(m) * |d| + |d| / 2 < Sum(d)
    ensures Split(d) >= m
  {
    hide Sum;
    hide Pow2;
    hide Split;
    var excess: nat := Sum(d) - |d| / 2 - 1;
    QuotientAtLeast(excess, |d|, Pow2(m));
    var q: nat := excess / |d|;
    SplitOf(d, q);
    PowNext(m);
    BitLengthAbove(q / 2, m - 1);
  }

  // They sum up so low that it is at most m.
  lemma SplitLow(d: seq<nat>, m: nat)
    requires d != [] && |d| / 2 < Sum(d) <= 2 * Pow2(m) * |d| + |d| / 2
    ensures Split(d) <= m
  {
    hide Sum;
    hide Pow2;
    hide Split;
    var excess: nat := Sum(d) - |d| / 2 - 1;
    QuotientAtMost(excess, |d|, 2 * Pow2(m));
    var q: nat := excess / |d|;
    SplitOf(d, q);
    BitLengthBelow(q / 2, m);
  }

  // The split level is the least m for which the differences average at most 2^(m+1), and half a unit more.
  lemma SplitIsLeast(d: seq<nat>, m: nat)
    requires d != []
    ensures Split(d) <= m <==> Sum(d) <= 2 * Pow2(m) * |d| + |d| / 2
  {
    hide Sum;
    hide Split;
    PowNext(m + 1);
    hide Pow2;
    if Sum(d) > 2 * Pow2(m) * |d| + |d| / 2 {
      SplitHigh(d, m + 1);
    } else if Sum(d) > |d| / 2 {
      SplitLow(d, m);
    } else {
      NoExcess(d);
    }
  }

  lemma NoExcess(d: seq<nat>)
    requires d != [] && Sum(d) <= |d| / 2
    ensures Split(d) == 0
  {
    hide Sum;
  }

  // n differences of 2p, but the first e of 3p.
  function Heavy(n: nat, e: nat, p: nat): (d: seq<nat>)
    ensures |d| == n && forall i :: 0 <= i < n ==> d[i] == if i < e then 3 * p else 2 * p
  {
    seq(n, i requires 0 <= i < n => if i < e then 3 * p else 2 * p)
  }

  lemma {:induction false} HeavySum(n: nat, e: nat, p: nat)
    requires e <= n
    ensures Sum(Heavy(n, e, p)) == (2 * n + e) * p
  {
    if n > 0 {
      var e' := if e == n then e - 1 else e;
      assert Heavy(n, e, p)[..n - 1] == Heavy(n - 1, e', p);
      HeavySum(n - 1, e', p);
      ProductPlus(2 * (n - 1) + e', p);
    }
  }

  lemma ProductPlus(x: nat, p: nat)
    ensures (x + 2) * p == x * p + 2 * p && (x + 3) * p == x * p + 3 * p
  {
  }

  lemma {:induction false} HeavyTops(n: nat, e: nat, fs: nat)
    requires e <= n
    ensures Tops(Heavy(n, e, Pow2(fs)), fs) == 2 * n + e
  {
    hide Pow2;
    var p := Pow2(fs);
    if n > 0 {
      var e' := if e > 0 then e - 1 else 0;
      assert Heavy(n, e, p)[1..] == Heavy(n - 1, e', p);
      QuotientUnique(3 * p, p, 3, 0);
      QuotientUnique(2 * p, p, 2, 0);
      HeavyTops(n - 1, e', fs);
    }
  }

  // The bound is reached at every number of pixels by differences at the highest split level.
  lemma TightReached(k: Coder, n: nat) returns (d: seq<nat>)
    requires IsCoder(k) && Tight(k) && n > 0
    ensures |d| == n && Differences(k, d)
    ensures |BlockBits(k, d)| == k.fsbits + n * k.bbits + Extra(k, n)
  {
    hide Sum;
    hide Split;
    hide Codes;
    hide Msb;
    hide Heavy;
    var fs, e := k.fsmax - 1, Extra(k, n);
    d := Heavy(n, e, Pow2(fs));
    HeavyFits(k, n, e);
    HeavySplit(n, e, fs);
    CodesLength(k, fs, d);
    HeavyTops(n, e, fs);
    assert n * k.bbits == 2 * n + n * (fs + 1);
  }

  lemma HeavyFits(k: Coder, n: nat, e: nat)
    requires IsCoder(k) && Tight(k)
    ensures Differences(k, Heavy(n, e, Pow2(k.fsmax - 1)))
  {
    PowNext(k.bbits);
    PowNext(k.bbits - 1);
    PowNext(k.fsmax);
    hide Pow2;
  }

  lemma HeavySplit(n: nat, e: nat, fs: nat)
    requires n > 0 && fs > 0 && e <= n && e * Pow2(fs) <= n / 2
    ensures Split(Heavy(n, e, Pow2(fs))) == fs && Sum(Heavy(n, e, Pow2(fs))) > 0
  {
    hide Sum;
    hide Split;
    hide Heavy;
    PowNext(fs);
    hide Pow2;
    var p: nat := Pow2(fs);
    HeavySum(n, e, p);
    assert 2 * p * n == p * n + p * n && p * n >= n by {
      MulMonotone(1, p, n);
    }
    assert (2 * n + e) * p == 2 * p * n + e * p;
    SplitHigh(Heavy(n, e, p), fs);
    SplitLow(Heavy(n, e, p), fs);
  }

  // The largest difference, at every place or everywhere but at the first.
  predicate Wild(k: Coder, d: seq<nat>)
    requires IsCoder(k)
  {
    d != [] && (forall i :: 1 <= i < |d| ==> d[i] == Pow2(k.bbits) - 1) && (|d| == 1 ==> d[0] == Pow2(k.bbits) - 1)
  }

  lemma {:induction false} SumAtLeast(d: seq<nat>, v: nat)
    requires d != [] && forall i :: 1 <= i < |d| ==> d[i] == v
    ensures Sum(d) >= (|d| - 1) * v + d[0]
    decreases |d|
  {
    var n := |d| - 1;
    if n > 0 {
      SumAtLeast(d[..n], v);
      assert n * v == (n - 1) * v + v;
    } else {
      assert d[..0] == [];
    }
  }

  lemma WildSum(n: nat, q: nat, v: nat)
    requires q >= 64 && v >= 4 * q - 1 && n >= 2
    ensures n * q + n / 2 < (n - 1) * v
  {
    MulMonotone(4 * q - 1, v, n - 1);
    assert (n - 1) * (4 * q - 1) == (n - 2) * (3 * q - 1) + n * q + 2 * q - 1;
    MulMonotone(1, 3 * q - 1, n - 2);
  }

  lemma Widths(k: Coder)
    requires IsCoder(k)
    ensures Pow2(k.fsmax) >= 64 && Pow2(k.bbits) >= 4 * Pow2(k.fsmax)
  {
    assert Pow2(6) == 64;
    Pow2Monotone(6, k.fsmax);
    Pow2Add(2, k.fsmax);
    Pow2Monotone(2 + k.fsmax, k.bbits);
  }

  // Such a block is stored directly.
  lemma WildLength(k: Coder, d: seq<nat>)
    requires IsCoder(k) && Wild(k, d)
    ensures |BlockBits(k, d)| == k.fsbits + |d| * k.bbits
  {
    var n, v: nat := |d|, Pow2(k.bbits) - 1;
    Widths(k);
    SumAtLeast(d, v);
    hide Pow2;
    hide Sum;
    hide Split;
    hide Codes;
    hide Msb;
    if n >= 2 {
      WildSum(n, Pow2(k.fsmax), v);
    }
    SplitHigh(d, k.fsmax);
    CodesLength(k, k.fsmax, d);
  }

  // The bound is the least one there is, for every number of pixels.
  lemma BlockLengthReached(k: Coder, n: nat) returns (d: seq<nat>)
    requires IsCoder(k) && n > 0
    ensures |d| == n && Differences(k, d)
    ensures |BlockBits(k, d)| == k.fsbits + n * k.bbits + Extra(k, n)
  {
    if Tight(k) {
      d := TightReached(k, n);
    } else {
      var v: nat := Pow2(k.bbits) - 1;
      d := seq(n, _ => v);
      WildLength(k, d);
    }
  }

  // Blocks of n pixels never take more than their pixels stored directly.
  ghost predicate DirectIsLongest(k: Coder, n: nat)
    requires n > 0
  {
    forall d: seq<nat> :: |d| == n && Differences(k, d) ==> |BlockBits(k, d)| <= k.fsbits + n * k.bbits
  }

  // That is so for up to 63 pixels of 8 bits, up to 16383 pixels of 16 bits, and any number of pixels of 32 bits.
  lemma DirectIsLongestExactly(k: Coder, n: nat)
    requires IsCoder(k) && n > 0
    ensures DirectIsLongest(k, n) <==> (k == BYTES ==> n <= 63) && (k == SHORTS ==> n <= 16383)
  {
    hide BlockBits;
    hide Differences;
    ExtraNone(k, n);
    hide Extra;
    if Extra(k, n) == 0 {
      forall d: seq<nat> | |d| == n && Differences(k, d)
        ensures |BlockBits(k, d)| <= k.fsbits + n * k.bbits
      {
        BlockLength(k, d);
      }
    } else {
      var d := BlockLengthReached(k, n);
    }
  }

  // ---- lines ----

  function BlockCount(nx: nat, nblock: nat): nat
    requires nblock > 0
  {
    (nx + nblock - 1) / nblock
  }

  lemma CountStep(nx: nat, nblock: nat)
    requires 0 < nx && nblock > 0
    ensures BlockCount(nx, nblock) == 1 + if nx > nblock then BlockCount(nx - nblock, nblock) else 0
  {
    if nx > nblock {
      var x := nx - 1;
      assert x == nblock * (x / nblock) + x % nblock;
      QuotientUnique(nx + nblock - 1, nblock, x / nblock + 1, x % nblock);
    } else {
      QuotientUnique(nx + nblock - 1, nblock, 1, nx - 1);
    }
  }

  lemma NoBlocks(nblock: nat, x: nat)
    requires nblock > 0
    ensures BlockCount(0, nblock) == 0 && BlockCount(0, nblock) * x == 0
  {
  }

  // The extra bits of all blocks.
  function Extras(k: Coder, nx: nat, nblock: nat): nat
    requires IsCoder(k) && nblock > 0
    decreases nx
  {
    if nx == 0 then 0 else
    var n := Least(nblock, nx);
    Extra(k, n) + Extras(k, nx - n, nblock)
  }

  lemma {:induction false} ExtrasNone(k: Coder, nx: nat, nblock: nat)
    requires IsCoder(k) && nblock > 0 && Extra(k, nblock) == 0
    ensures Extras(k, nx, nblock) == 0
    decreases nx
  {
    if nx > 0 {
      var n := Least(nblock, nx);
      ExtraNone(k, nblock);
      ExtraNone(k, n);
      hide Extra;
      ExtrasNone(k, nx - n, nblock);
    }
  }

  lemma {:induction false} BlocksLength(k: Coder, a: seq<int>, last: int, nblock: nat)
    requires IsCoder(k) && nblock > 0
    ensures |Blocks(k, a, last, nblock)| <= BlockCount(|a|, nblock) * k.fsbits + |a| * k.bbits + Extras(k, |a|, nblock)
    decreases |a|
  {
    hide BlockBits;
    hide Diffs;
    hide BlockCount;
    hide Extra;
    NoBlocks(nblock, k.fsbits);
    if a != [] {
      var n := Least(nblock, |a|);
      BlockLength(k, Diffs(a[..n], last, k.bbits));
      BlocksLength(k, a[n..], a[n - 1], nblock);
      CountStep(|a|, nblock);
      Tally(BlockCount(|a| - n, nblock), k.fsbits, n, |a|, k.bbits);
    }
  }

  lemma Tally(blocks: nat, fsbits: nat, n: nat, nx: nat, bbits: nat)
    requires n <= nx
    ensures (1 + blocks) * fsbits == fsbits + blocks * fsbits && nx * bbits == n * bbits + (nx - n) * bbits
  {
  }

  // The bits of a line whose blocks are all stored directly.
  function DirectBits(k: Coder, nx: nat, nblock: nat): nat
    requires nblock > 0
  {
    k.bbits + BlockCount(nx, nblock) * k.fsbits + nx * k.bbits
  }

  // A bound on the code of a line, in bits: barely more than the pixels themselves.
  function LineBound(k: Coder, nx: nat, nblock: nat): nat
    requires IsCoder(k) && nblock > 0
  {
    DirectBits(k, nx, nblock) + Extras(k, nx, nblock)
  }

  lemma LineLength(k: Coder, a: seq<int>, nblock: nat)
    requires IsCoder(k) && nblock > 0 && a != []
    ensures |LineBits(k, a, nblock)| <= LineBound(k, |a|, nblock)
  {
    hide Blocks;
    hide BlockCount;
    hide Extras;
    hide Msb;
    BlocksLength(k, a, a[0], nblock);
  }

  // ---- lines that are that long ----

  // The least pixel value at every other place.
  function Alternating(k: Coder, nx: nat): (a: seq<int>)
    requires IsCoder(k)
    ensures |a| == nx
  {
    seq(nx, i requires 0 <= i < nx => if i % 2 == 0 then 0 else -(Pow2(k.bbits - 1) as int))
  }

  // The difference to the pixel before is the largest, at every place from j on.
  predicate Jumps(k: Coder, a: seq<int>, last: int, j: nat)
    requires IsCoder(k)
  {
    forall i :: j <= i < |a| ==> Diffs(a, last, k.bbits)[i] == Pow2(k.bbits) - 1
  }

  lemma JumpBothWays(w: nat)
    requires w > 0
    ensures var low := -(Pow2(w - 1) as int); Diff(low, 0, w) == Pow2(w) - 1 && Diff(0, low, w) == Pow2(w) - 1
  {
    PowNext(w);
    var h: nat := Pow2(w - 1);
    QuotientUnique(0, 2 * h, 0, 0);
    QuotientUnique(2 * h, 2 * h, 1, 0);
  }

  lemma AlternatingJumps(k: Coder, nx: nat, last: int)
    requires IsCoder(k)
    ensures Jumps(k, Alternating(k, nx), last, 1)
  {
    hide Diff;
    hide Pow2;
    JumpBothWays(k.bbits);
    var a := Alternating(k, nx);
    forall i | 1 <= i < nx
      ensures Diffs(a, last, k.bbits)[i] == Pow2(k.bbits) - 1
    {
      assert (i - 1) % 2 == 0 <==> i % 2 != 0;
    }
  }

  // The differences of a line's front and of its rest.
  lemma DiffsOfParts(a: seq<int>, last: int, w: nat, n: nat)
    requires w > 0 && 0 < n <= |a|
    ensures Diffs(a[..n], last, w) == Diffs(a, last, w)[..n] && Diffs(a[n..], a[n - 1], w) == Diffs(a, last, w)[n..]
  {
    hide Diff;
  }

  lemma JumpsAreWild(k: Coder, a: seq<int>, last: int, n: nat, j: nat)
    requires IsCoder(k) && Jumps(k, a, last, j) && 0 < n <= |a| && (j == 0 || (j == 1 && n >= 2))
    ensures Wild(k, Diffs(a[..n], last, k.bbits)) && Jumps(k, a[n..], a[n - 1], 0)
  {
    hide Diffs;
    hide Pow2;
    DiffsOfParts(a, last, k.bbits, n);
  }

  lemma {:induction false} JumpingBlocks(k: Coder, a: seq<int>, last: int, nblock: nat, j: nat)
    requires IsCoder(k) && nblock > 0 && a != [] && Jumps(k, a, last, j)
    requires j == 0 || (j == 1 && nblock >= 2 && |a| >= 2)
    ensures |Blocks(k, a, last, nblock)| == BlockCount(|a|, nblock) * k.fsbits + |a| * k.bbits
    decreases |a|
  {
    hide BlockBits;
    hide Diffs;
    hide BlockCount;
    hide Jumps;
    hide Wild;
    NoBlocks(nblock, k.fsbits);
    var n := Least(nblock, |a|);
    JumpsAreWild(k, a, last, n, j);
    WildLength(k, Diffs(a[..n], last, k.bbits));
    CountStep(|a|, nblock);
    Tally(BlockCount(|a| - n, nblock), k.fsbits, n, |a|, k.bbits);
    if n < |a| {
      JumpingBlocks(k, a[n..], a[n - 1], nblock, 0);
    } else {
      NothingLeft(k, a[n..], a[n - 1], nblock);
    }
  }

  lemma NothingLeft(k: Coder, a: seq<int>, last: int, nblock: nat)
    requires nblock > 0 && k.bbits > 0 && a == []
    ensures Blocks(k, a, last, nblock) == []
  {
  }

  // From two pixels on, lines with jumps only are stored directly as a whole.
  lemma LineBoundAttained(k: Coder, nx: nat, nblock: nat)
    requires IsCoder(k) && nx >= 2 && nblock >= 2
    ensures |LineBits(k, Alternating(k, nx), nblock)| == DirectBits(k, nx, nblock)
    ensures Extra(k, nblock) == 0 ==> DirectBits(k, nx, nblock) == LineBound(k, nx, nblock)
  {
    hide Blocks;
    hide BlockCount;
    hide Extra;
    hide Jumps;
    hide Msb;
    var a := Alternating(k, nx);
    AlternatingJumps(k, nx, a[0]);
    JumpingBlocks(k, a, a[0], nblock, 1);
    if Extra(k, nblock) == 0 {
      ExtrasNone(k, nx, nblock);
    }
  }

  // ---- the rule of thumb ----

  // How many bytes a line takes.
  function LineBytes(k: Coder, a: seq<int>, nblock: nat): nat
    requires a != [] && nblock > 0 && k.bbits > 0
  {
    (|LineBits(k, a, nblock)| + 7) / 8
  }

  // A buffer that is 1% larger than the pixels is large enough for every line of nx pixels.
  ghost predicate OnePercentSuffices(k: Coder, nx: nat, nblock: nat)
    requires IsCoder(k) && nx > 0 && nblock > 0
  {
    forall a: seq<int> :: |a| == nx ==> 100 * LineBytes(k, a, nblock) <= 101 * (nx * (k.bbits / 8))
  }

  // It is exactly if it is for a line that is stored directly, where blocks have at least two pixels and no extra bits.
  lemma RuleOfThumb(k: Coder, nx: nat, nblock: nat)
    requires IsCoder(k) && nx > 0 && nblock >= 2 && Extra(k, nblock) == 0
    ensures OnePercentSuffices(k, nx, nblock) <==>
            100 * ((DirectBits(k, nx, nblock) + 7) / 8) <= 101 * (nx * (k.bbits / 8))
  {
    hide Blocks;
    hide BlockCount;
    hide Extra;
    hide Msb;
    hide LineBits;
    ExtrasNone(k, nx, nblock);
    forall a: seq<int> | |a| == nx
      ensures LineBytes(k, a, nblock) <= (DirectBits(k, nx, nblock) + 7) / 8
    {
      LineLength(k, a, nblock);
    }
    if nx >= 2 {
      LineBoundAttained(k, nx, nblock);
      assert |Alternating(k, nx)| == nx;
    } else {
      OnePixel(k, 0, nblock);
      CountStep(1, nblock);
      assert |[0]| == nx;
    }
  }

  // A single pixel takes a byte more, whatever it is.
  lemma OnePixel(k: Coder, v: int, nblock: nat)
    requires IsCoder(k) && nblock > 0
    ensures |LineBits(k, [v], nblock)| == k.bbits + k.fsbits && LineBytes(k, [v], nblock) == k.bbits / 8 + 1
  {
    hide BlockBits;
    hide Diffs;
    hide Msb;
    NothingLeft(k, [v][1..], v, nblock);
    ZeroBlock(k, v);
    assert [v][..1] == [v];
    assert Blocks(k, [v], v, nblock) == BlockBits(k, Diffs([v], v, k.bbits)) + [];
    assert (k.bbits + k.fsbits + 7) / 8 == k.bbits / 8 + 1;
  }

  lemma ZeroBlock(k: Coder, v: int)
    requires IsCoder(k)
    ensures |BlockBits(k, Diffs([v], v, k.bbits))| == k.fsbits
  {
    var d := Diffs([v], v, k.bbits);
    hide Diff;
    hide Msb;
    SameDiff(v, k.bbits);
    assert d == [0] && d[..0] == [];
    assert Sum(d) == 0;
    assert Split(d) == 0;
  }

  lemma SameDiff(v: int, w: nat)
    requires w > 0
    ensures Diff(v, v, w) == 0
  {
    PowNext(w);
    QuotientUnique(Pow2(w - 1), Pow2(w), 0, Pow2(w - 1));
  }

  // With blocks of 32 pixels the rule holds for 32-bit lines of 225 pixels and more, for 16-bit lines of 650 pixels and
  // more and some shorter ones, and for no 8-bit line.
  lemma RuleOfThumbFor32(k: Coder, nx: nat)
    requires IsCoder(k) && nx > 0
    ensures k == INTS ==> (OnePercentSuffices(k, nx, 32) <==> nx >= 225)
    ensures k == SHORTS ==> (OnePercentSuffices(k, nx, 32) <==> nx >= 100 + 50 * ((nx + 63) / 64))
    ensures k == SHORTS ==>
            (nx < 500 ==> !OnePercentSuffices(k, nx, 32)) && (nx >= 650 ==> OnePercentSuffices(k, nx, 32))
    ensures k == BYTES ==> !OnePercentSuffices(k, nx, 32)
  {
    hide Extra;
    hide OnePercentSuffices;
    hide DirectBits;
    ExtraNone(k, 32);
    RuleOfThumb(k, nx, 32);
    var c := (nx + 31) / 32;
    DirectOf32(k, nx, c);
    if k == INTS {
      IntsRule(nx, c);
    } else if k == SHORTS {
      ShortsRule(nx, c);
    } else {
      BytesRule(nx, c);
    }
  }

  lemma DirectOf32(k: Coder, nx: nat, c: nat)
    requires c == (nx + 31) / 32
    ensures DirectBits(k, nx, 32) == k.bbits + c * k.fsbits + nx * k.bbits
    ensures nx > 0 ==> 32 * c - 31 <= nx <= 32 * c
  {
  }

  lemma IntsRule(nx: nat, c: nat)
    requires nx > 0 && 32 * c - 31 <= nx <= 32 * c
    ensures 100 * ((32 + c * 5 + nx * 32 + 7) / 8) <= 101 * (nx * 4) <==> nx >= 225
  {
    assert (32 + c * 5 + nx * 32 + 7) / 8 == 4 + nx * 4 + (c * 5 + 7) / 8;
  }

  lemma ShortsRule(nx: nat, c: nat)
    requires nx > 0 && 32 * c - 31 <= nx <= 32 * c
    ensures 100 * ((16 + c * 4 + nx * 16 + 7) / 8) <= 101 * (nx * 2) <==> nx >= 100 + 50 * ((nx + 63) / 64)
    ensures nx < 500 ==> nx < 100 + 50 * ((nx + 63) / 64)
    ensures nx >= 650 ==> nx >= 100 + 50 * ((nx + 63) / 64)
  {
    assert (16 + c * 4 + nx * 16 + 7) / 8 == 2 + nx * 2 + (c * 4 + 7) / 8;
    assert (c * 4 + 7) / 8 == (nx + 63) / 64;
  }

  lemma BytesRule(nx: nat, c: nat)
    requires nx > 0 && 32 * c - 31 <= nx <= 32 * c
    ensures 100 * ((8 + c * 3 + nx * 8 + 7) / 8) > 101 * (nx * 1)
  {
  }
}
