/**
  The quadtree code of one bit plane. A plane is a flat row-major sequence of marks; each
  level packs the 2x2 blocks of the one below into nybbles, marking the blocks that hold
  anything at all.
 */
module HPlanes {
  import opened Powers
  import opened Bits
  import opened Grids
  import opened HStream
  import opened HBitIO
  import opened HHuffman
  import opened HTransform

  type mark = x: int | 0 <= x < 2

  function Cells(nx: nat, ny: nat): nat
  {
    nx * ny
  }

  function Half(n: nat): nat
  {
    (n + 1) / 2
  }

  // ---- packing and spreading ----

  // Marks beyond the edges are clear.
  function Cell(s: seq<mark>, nx: nat, ny: nat, i: nat, j: nat): mark
    requires |s| == Cells(nx, ny)
  {
    if i < nx && j < ny then (IndexBound(i, j, nx, ny); s[i * ny + j]) else 0
  }

  function Nybble(p00: mark, p01: mark, p10: mark, p11: mark): nybble
  {
    8 * p00 + 4 * p01 + 2 * p10 + p11
  }

  // The mark in row x, column y of a block.
  function Pick(v: nybble, x: nat, y: nat): mark
  {
    if x == 0 then if y == 0 then v / 8 % 2 else v / 4 % 2
    else if y == 0 then v / 2 % 2 else v % 2
  }

  lemma PickNybble(p00: mark, p01: mark, p10: mark, p11: mark)
    ensures var v := Nybble(p00, p01, p10, p11);
            Pick(v, 0, 0) == p00 && Pick(v, 0, 1) == p01 && Pick(v, 1, 0) == p10 && Pick(v, 1, 1) == p11
  {
  }

  function Block(s: seq<mark>, nx: nat, ny: nat, i: nat, j: nat): nybble
    requires |s| == Cells(nx, ny)
  {
    Nybble(Cell(s, nx, ny, 2 * i, 2 * j), Cell(s, nx, ny, 2 * i, 2 * j + 1),
           Cell(s, nx, ny, 2 * i + 1, 2 * j), Cell(s, nx, ny, 2 * i + 1, 2 * j + 1))
  }

  function Packed(s: seq<mark>, nx: nat, ny: nat): (r: seq<nybble>)
    requires |s| == Cells(nx, ny) && ny > 0
    ensures |r| == Cells(Half(nx), Half(ny))
  {
    seq(Cells(Half(nx), Half(ny)),
      x requires 0 <= x < Cells(Half(nx), Half(ny)) => Block(s, nx, ny, x / Half(ny), x % Half(ny)))
  }

  lemma PackedAt(s: seq<mark>, nx: nat, ny: nat, i: nat, j: nat)
    requires |s| == Cells(nx, ny) && i < Half(nx) && j < Half(ny) && ny > 0
    ensures 0 <= i * Half(ny) + j < |Packed(s, nx, ny)|
    ensures Packed(s, nx, ny)[i * Half(ny) + j] == Block(s, nx, ny, i, j)
  {
    IndexBound(i, j, Half(nx), Half(ny));
    hide Block;
    QuotientUnique(i * Half(ny) + j, Half(ny), i, j);
  }

  function Picked(g: seq<nybble>, nx: nat, ny: nat, i: nat, j: nat): mark
    requires |g| == Cells(Half(nx), Half(ny)) && i < nx && j < ny
  {
    IndexBound(i / 2, j / 2, Half(nx), Half(ny));
    Pick(g[i / 2 * Half(ny) + j / 2], i % 2, j % 2)
  }

  lemma RowBelow(x: nat, nx: nat, ny: nat)
    requires x < Cells(nx, ny)
    ensures ny > 0 && 0 <= x / ny < nx && 0 <= x % ny < ny && x == x / ny * ny + x % ny
  {
    MulMonotone(nx, x / ny, ny);
  }

  function PickedAt(g: seq<nybble>, nx: nat, ny: nat, x: nat): mark
    requires |g| == Cells(Half(nx), Half(ny)) && x < Cells(nx, ny)
  {
    RowBelow(x, nx, ny);
    Picked(g, nx, ny, x / ny, x % ny)
  }

  // One mark for each cell of the nx by ny plane below the nybbles g.
  function Spread(g: seq<nybble>, nx: nat, ny: nat): (r: seq<mark>)
    requires |g| == Cells(Half(nx), Half(ny))
    ensures |r| == Cells(nx, ny)
  {
    seq(Cells(nx, ny), x requires 0 <= x < Cells(nx, ny) => PickedAt(g, nx, ny, x))
  }

  lemma SpreadAt(g: seq<nybble>, nx: nat, ny: nat, i: nat, j: nat)
    requires |g| == Cells(Half(nx), Half(ny)) && i < nx && j < ny
    ensures 0 <= i * ny + j < nx * ny && Spread(g, nx, ny)[i * ny + j] == Picked(g, nx, ny, i, j)
  {
    IndexBound(i, j, nx, ny);
    hide Picked;
    QuotientUnique(i * ny + j, ny, i, j);
  }

  lemma PickedBlock(s: seq<mark>, nx: nat, ny: nat, i: nat, j: nat)
    requires |s| == Cells(nx, ny) && i < nx && j < ny
    ensures Picked(Packed(s, nx, ny), nx, ny, i, j) == Cell(s, nx, ny, i, j)
  {
    hide Packed;
    hide Cell;
    hide Cells;
    hide Pick;
    hide Nybble;
    var p, q := i / 2, j / 2;
    PackedAt(s, nx, ny, p, q);
    PickNybble(Cell(s, nx, ny, 2 * p, 2 * q), Cell(s, nx, ny, 2 * p, 2 * q + 1),
               Cell(s, nx, ny, 2 * p + 1, 2 * q), Cell(s, nx, ny, 2 * p + 1, 2 * q + 1));
  }

  // Spreading undoes packing, for odd sizes too.
  lemma SpreadPacked(s: seq<mark>, nx: nat, ny: nat)
    requires |s| == Cells(nx, ny) && ny > 0
    ensures Spread(Packed(s, nx, ny), nx, ny) == s
  {
    var r := Spread(Packed(s, nx, ny), nx, ny);
    hide Packed;
    hide Spread;
    hide Picked;
    forall x | 0 <= x < |s|
      ensures r[x] == s[x]
    {
      var i, j := IndexSplit(x, nx, ny);
      SpreadAt(Packed(s, nx, ny), nx, ny, i, j);
      PickedBlock(s, nx, ny, i, j);
    }
  }

  function NonZero(s: seq<nybble>): (r: seq<mark>)
    ensures |r| == |s|
  {
    seq(|s|, x requires 0 <= x < |s| => if s[x] != 0 then 1 else 0)
  }

  // ---- levels ----

  ghost predicate IsPlane(pl: seq<mark>, nqx: nat, nqy: nat)
  {
    nqx > 0 && nqy > 0 && |pl| == Cells(nqx, nqy)
  }

  // Level k of the quadtree, of Top(nqx, k) rows and Top(nqy, k) columns.
  ghost function Level(pl: seq<mark>, nqx: nat, nqy: nat, k: nat): (r: seq<nybble>)
    requires IsPlane(pl, nqx, nqy) && k > 0
    ensures |r| == Cells(Top(nqx, k), Top(nqy, k))
  {
    if k == 1 then Packed(pl, nqx, nqy)
    else Packed(NonZero(Level(pl, nqx, nqy, k - 1)), Top(nqx, k - 1), Top(nqy, k - 1))
  }

  // The codes of levels k down to 1.
  ghost function TreeBits(pl: seq<mark>, nqx: nat, nqy: nat, k: nat): (b: bits)
    requires IsPlane(pl, nqx, nqy)
  {
    if k == 0 then [] else CodesBack(Level(pl, nqx, nqy, k)) + TreeBits(pl, nqx, nqy, k - 1)
  }

  function Larger(a: nat, b: nat): nat
  {
    if a > b then a else b
  }

  // How many levels there are; the last has one nybble.
  function Depth(nqx: nat, nqy: nat): (k: nat)
    requires nqx > 0 && nqy > 0
    ensures k > 0
  {
    Larger(1, Log2Up(Larger(nqx, nqy)))
  }

  lemma DepthEndsAtOne(nqx: nat, nqy: nat)
    requires nqx > 0 && nqy > 0
    ensures Top(nqx, Depth(nqx, nqy)) == 1 && Top(nqy, Depth(nqx, nqy)) == 1
  {
    var k := Depth(nqx, nqy);
    Pow2Monotone(Log2Up(Larger(nqx, nqy)), k);
    hide Log2Up;
    TopEndsAtOne(nqx, k);
    TopEndsAtOne(nqy, k);
  }

  // The size of the encoder's buffer of codes.
  function BufferSize(nqx: nat, nqy: nat): nat
  {
    (Cells(Half(nqx), Half(nqy)) + 1) / 2
  }

  ghost function Stream(pl: seq<mark>, nqx: nat, nqy: nat): (b: bits)
    requires IsPlane(pl, nqx, nqy)
  {
    var t := TreeBits(pl, nqx, nqy, Depth(nqx, nqy));
    if t == [] then Huff(0) else t
  }

  // A plane's bits: the quadtree, or the bit map itself where the quadtree's codes would fill the buffer.
  ghost function PlaneBits(pl: seq<mark>, nqx: nat, nqy: nat): (b: bits)
    requires IsPlane(pl, nqx, nqy)
  {
    if |TreeBits(pl, nqx, nqy, Depth(nqx, nqy))| >= 8 * BufferSize(nqx, nqy)
    then Msb(0, 4) + Nybbles(Level(pl, nqx, nqy, 1))
    else Msb(15, 4) + Stream(pl, nqx, nqy)
  }

  // ---- decoding ----

  ghost function DecodeLevel(s: seq<byte>, p: nat, nqx: nat, nqy: nat, k: nat): (r: Reading)
    requires nqx > 0 && nqy > 0 && 0 < k <= Depth(nqx, nqy)
    ensures |r.values| == Cells(Top(nqx, k), Top(nqy, k))
    decreases Depth(nqx, nqy) - k
  {
    hide HuffAt;
    hide Depth;
    hide ReadBack;
    hide Spread;
    if k == Depth(nqx, nqy) then
      DepthEndsAtOne(nqx, nqy);
      assert Cells(1, 1) == 1;
      var c := HuffAt(s, p);
      Reading([c.value], c.next)
    else
      var up := DecodeLevel(s, p, nqx, nqy, k + 1);
      ReadBack(s, up.next, MarksFrom(up.values, nqx, nqy, k))
  }

  function NybblesAt(s: seq<byte>, p: nat, n: nat): (r: seq<nybble>)
    ensures |r| == n
  {
    seq(n, k requires 0 <= k < n => NybbleAt(s, p + 4 * k))
  }

  function NybbleAt(s: seq<byte>, p: nat): nybble
  {
    FourBits(BitsAt(s, p, 4));
    BitsAt(s, p, 4)
  }

  lemma TopOne(n: nat)
    ensures Top(n, 1) == Half(n)
  {
    assert Top(n, 0) == n;
  }

  datatype PlaneResult = BadPlane | GoodPlane(values: seq<nybble>, next: nat)

  // The nybbles of one plane; the format code must be 0 or 15.
  ghost function DecodePlane(s: seq<byte>, p: nat, nqx: nat, nqy: nat): (r: PlaneResult)
    requires nqx > 0 && nqy > 0
    ensures r.GoodPlane? ==> |r.values| == Cells(Half(nqx), Half(nqy))
  {
    TopOne(nqx);
    TopOne(nqy);
    hide NybbleAt;
    hide NybblesAt;
    hide DecodeLevel;
    hide Top;
    hide Depth;
    hide Cells;
    hide Half;
    var b, n := NybbleAt(s, p), Cells(Half(nqx), Half(nqy));
    if b == 0 then GoodPlane(NybblesAt(s, p + 4, n), p + 4 + 4 * n) else
    if b == 15 then var r := DecodeLevel(s, p + 4, nqx, nqy, 1); GoodPlane(r.values, r.next) else
    BadPlane
  }

  // ---- the round trip of a plane ----

  predicate AllClear(s: seq<nybble>)
  {
    forall x :: 0 <= x < |s| ==> s[x] == 0
  }

  lemma {:induction false} ClearHasNoCodes(s: seq<nybble>)
    requires AllClear(s)
    ensures CodesBack(s) == []
    decreases |s|
  {
    if s != [] {
      ClearHasNoCodes(s[..|s| - 1]);
    }
  }

  lemma MarkedByPacking(g: seq<nybble>, nx: nat, ny: nat)
    requires |g| == Cells(nx, ny) && ny > 0
    ensures Marked(Spread(Packed(NonZero(g), nx, ny), nx, ny), g)
  {
    SpreadPacked(NonZero(g), nx, ny);
  }

  // An empty level has only empty levels below it.
  lemma ClearBelow(g: seq<nybble>, nx: nat, ny: nat)
    requires |g| == Cells(nx, ny) && ny > 0 && AllClear(Packed(NonZero(g), nx, ny))
    ensures AllClear(g)
  {
    MarkedByPacking(g, nx, ny);
    var up := Packed(NonZero(g), nx, ny);
    forall x | 0 <= x < |g|
      ensures g[x] == 0
    {
      assert PickedAt(up, nx, ny, x) == 0 by {
        RowBelow(x, nx, ny);
        IndexBound(x / ny / 2, x % ny / 2, Half(nx), Half(ny));
      }
      assert Spread(up, nx, ny)[x] == 0;
    }
  }

  lemma {:induction false} ClearTree(pl: seq<mark>, nqx: nat, nqy: nat, k: nat)
    requires IsPlane(pl, nqx, nqy) && k > 0 && AllClear(Level(pl, nqx, nqy, k))
    ensures TreeBits(pl, nqx, nqy, k) == []
    decreases k
  {
    ClearHasNoCodes(Level(pl, nqx, nqy, k));
    if k > 1 {
      ClearBelow(Level(pl, nqx, nqy, k - 1), Top(nqx, k - 1), Top(nqy, k - 1));
      ClearTree(pl, nqx, nqy, k - 1);
    }
  }

  // The top nybble is clear exactly when there are no codes at all.
  lemma TopNybble(pl: seq<mark>, nqx: nat, nqy: nat, v: nybble)
    requires IsPlane(pl, nqx, nqy) && Level(pl, nqx, nqy, Depth(nqx, nqy)) == [v]
    ensures Stream(pl, nqx, nqy) == Huff(v) + TreeBits(pl, nqx, nqy, Depth(nqx, nqy) - 1)
  {
    var k := Depth(nqx, nqy);
    CodesSnoc([], v);
    assert [] + [v] == [v];
    hide Level;
    hide Huff;
    if v == 0 {
      ClearTree(pl, nqx, nqy, k);
      assert Huff(0) + [] == Huff(0);
    } else {
      assert Huff(v) + [] == Huff(v);
    }
  }

  // Levels come back from the top down; q is where the codes of the levels below k begin.
  lemma {:induction false} Descend(s: seq<byte>, p: nat, pl: seq<mark>, nqx: nat, nqy: nat, k: nat) returns (q: nat)
    requires IsPlane(pl, nqx, nqy) && 0 < k <= Depth(nqx, nqy) && At(s, p, Stream(pl, nqx, nqy))
    ensures DecodeLevel(s, p, nqx, nqy, k) == Reading(Level(pl, nqx, nqy, k), q)
    ensures q + |TreeBits(pl, nqx, nqy, k - 1)| == p + |Stream(pl, nqx, nqy)|
    ensures At(s, q, TreeBits(pl, nqx, nqy, k - 1))
    decreases Depth(nqx, nqy) - k
  {
    hide At;
    hide Level;
    hide Stream;
    hide TreeBits;
    hide DecodeLevel;
    hide Depth;
    hide Cells;
    if k == Depth(nqx, nqy) {
      q := TopLevel(s, p, pl, nqx, nqy);
    } else {
      q := Descend(s, p, pl, nqx, nqy, k + 1);
      q := NextLevel(s, p, q, pl, nqx, nqy, k);
    }
  }

  lemma TopLevel(s: seq<byte>, p: nat, pl: seq<mark>, nqx: nat, nqy: nat) returns (q: nat)
    requires IsPlane(pl, nqx, nqy) && At(s, p, Stream(pl, nqx, nqy))
    ensures var k := Depth(nqx, nqy);
            DecodeLevel(s, p, nqx, nqy, k) == Reading(Level(pl, nqx, nqy, k), q) &&
            q + |TreeBits(pl, nqx, nqy, k - 1)| == p + |Stream(pl, nqx, nqy)| &&
            At(s, q, TreeBits(pl, nqx, nqy, k - 1))
  {
    hide At;
    hide HuffAt;
    hide Huff;
    hide Level;
    hide Depth;
    hide Top;
    hide TreeBits;
    hide Stream;
    var k := Depth(nqx, nqy);
    DepthEndsAtOne(nqx, nqy);
    var v := Level(pl, nqx, nqy, k)[0];
    assert Level(pl, nqx, nqy, k) == [v];
    TopNybble(pl, nqx, nqy, v);
    AtSplit(s, p, Huff(v), TreeBits(pl, nqx, nqy, k - 1));
    HuffDecodes(s, p, v);
    q := p + |Huff(v)|;
  }

  lemma NextLevel(s: seq<byte>, p: nat, q0: nat, pl: seq<mark>, nqx: nat, nqy: nat, k: nat) returns (q: nat)
    requires IsPlane(pl, nqx, nqy) && 0 < k < Depth(nqx, nqy)
    requires DecodeLevel(s, p, nqx, nqy, k + 1) == Reading(Level(pl, nqx, nqy, k + 1), q0)
    requires At(s, q0, TreeBits(pl, nqx, nqy, k))
    ensures DecodeLevel(s, p, nqx, nqy, k) == Reading(Level(pl, nqx, nqy, k), q)
    ensures q + |TreeBits(pl, nqx, nqy, k - 1)| == q0 + |TreeBits(pl, nqx, nqy, k)|
    ensures At(s, q, TreeBits(pl, nqx, nqy, k - 1))
  {
    hide At;
    hide Level;
    hide Marked;
    hide MarksFrom;
    hide TreeBits;
    hide DecodeLevel;
    hide CodesBack;
    hide ReadBack;
    hide Depth;
    hide Top;
    hide Cells;
    var g, up := Level(pl, nqx, nqy, k), Level(pl, nqx, nqy, k + 1);
    MarksFromAbove(pl, nqx, nqy, k);
    DecodeStep(s, p, nqx, nqy, k);
    TreeStep(pl, nqx, nqy, k);
    AtSplit(s, q0, CodesBack(g), TreeBits(pl, nqx, nqy, k - 1));
    ReadsCodesBack(s, q0, MarksFrom(up, nqx, nqy, k), g);
    q := q0 + |CodesBack(g)|;
  }

  lemma TreeStep(pl: seq<mark>, nqx: nat, nqy: nat, k: nat)
    requires IsPlane(pl, nqx, nqy) && k > 0
    ensures TreeBits(pl, nqx, nqy, k) == CodesBack(Level(pl, nqx, nqy, k)) + TreeBits(pl, nqx, nqy, k - 1)
  {
  }

  // The marks of level k, taken from the nybbles of level k + 1.
  function MarksFrom(up: seq<nybble>, nqx: nat, nqy: nat, k: nat): (r: seq<mark>)
    requires |up| == Cells(Top(nqx, k + 1), Top(nqy, k + 1))
  {
    Spread(up, Top(nqx, k), Top(nqy, k))
  }

  lemma MarksFromAbove(pl: seq<mark>, nqx: nat, nqy: nat, k: nat)
    requires IsPlane(pl, nqx, nqy) && k > 0
    ensures Marked(MarksFrom(Level(pl, nqx, nqy, k + 1), nqx, nqy, k), Level(pl, nqx, nqy, k))
  {
    var g := Level(pl, nqx, nqy, k);
    hide Spread;
    hide Packed;
    hide Marked;
    MarkedByPacking(g, Top(nqx, k), Top(nqy, k));
  }

  lemma DecodeStep(s: seq<byte>, p: nat, nqx: nat, nqy: nat, k: nat)
    requires nqx > 0 && nqy > 0 && 0 < k < Depth(nqx, nqy)
    ensures DecodeLevel(s, p, nqx, nqy, k) ==
            var up := DecodeLevel(s, p, nqx, nqy, k + 1);
            ReadBack(s, up.next, MarksFrom(up.values, nqx, nqy, k))
  {
    hide ReadBack;
    hide Spread;
    hide Cells;
    hide Depth;
  }

  lemma NybbleThere(s: seq<byte>, p: nat, v: nybble)
    requires At(s, p, Msb(v, 4))
    ensures NybbleAt(s, p) == v
  {
    assert Pow2(4) == 16 && Pow2(0) == 1;
    hide BitsAt;
    hide At;
    hide Msb;
    ValueAt(s, p, v, 4, 4);
  }

  lemma {:induction false} NybblesThere(s: seq<byte>, p: nat, g: seq<nybble>)
    requires At(s, p, Nybbles(g))
    ensures NybblesAt(s, p, |g|) == g
    decreases |g|
  {
    hide At;
    hide Msb;
    hide NybbleAt;
    if g != [] {
      var n := |g| - 1;
      AtSplit(s, p, Nybbles(g[..n]), Msb(g[n], 4));
      NybblesThere(s, p, g[..n]);
      NybbleThere(s, p + 4 * n, g[n]);
      assert NybblesAt(s, p, n + 1) == NybblesAt(s, p, n) + [NybbleAt(s, p + 4 * n)];
    }
  }

  lemma DirectRoundTrip(s: seq<byte>, p: nat, g: seq<nybble>, nqx: nat, nqy: nat)
    requires nqx > 0 && nqy > 0 && |g| == Cells(Half(nqx), Half(nqy)) && At(s, p, Msb(0, 4) + Nybbles(g))
    ensures DecodePlane(s, p, nqx, nqy) == GoodPlane(g, p + 4 + 4 * |g|)
  {
    hide At;
    hide Msb;
    hide NybbleAt;
    hide NybblesAt;
    hide Cells;
    AtSplit(s, p, Msb(0, 4), Nybbles(g));
    NybbleThere(s, p, 0);
    NybblesThere(s, p + 4, g);
  }

  lemma TreeRoundTrip(s: seq<byte>, p: nat, pl: seq<mark>, nqx: nat, nqy: nat)
    requires IsPlane(pl, nqx, nqy) && At(s, p, Msb(15, 4) + Stream(pl, nqx, nqy))
    ensures DecodePlane(s, p, nqx, nqy) == GoodPlane(Level(pl, nqx, nqy, 1), p + 4 + |Stream(pl, nqx, nqy)|)
  {
    hide At;
    hide Msb;
    hide NybbleAt;
    hide NybblesAt;
    hide Level;
    hide Stream;
    hide DecodeLevel;
    hide Depth;
    hide TreeBits;
    hide Cells;
    AtSplit(s, p, Msb(15, 4), Stream(pl, nqx, nqy));
    NybbleThere(s, p, 15);
    var q := Descend(s, p + 4, pl, nqx, nqy, 1);
    NoLevels(pl, nqx, nqy);
  }

  lemma NoLevels(pl: seq<mark>, nqx: nat, nqy: nat)
    requires IsPlane(pl, nqx, nqy)
    ensures TreeBits(pl, nqx, nqy, 0) == []
  {
  }

  lemma FirstLevel(pl: seq<mark>, nqx: nat, nqy: nat)
    requires IsPlane(pl, nqx, nqy)
    ensures var g := Level(pl, nqx, nqy, 1);
            |g| == Cells(Half(nqx), Half(nqy)) && Spread(g, nqx, nqy) == pl
  {
    hide Packed;
    hide Spread;
    hide Cells;
    SpreadPacked(pl, nqx, nqy);
    TopOne(nqx);
    TopOne(nqy);
  }

  // Decoding undoes the coding of a plane, in either format, and stops right behind it.
  lemma PlaneRoundTrip(s: seq<byte>, p: nat, pl: seq<mark>, nqx: nat, nqy: nat)
    requires IsPlane(pl, nqx, nqy) && At(s, p, PlaneBits(pl, nqx, nqy))
    ensures DecodePlane(s, p, nqx, nqy) == GoodPlane(Level(pl, nqx, nqy, 1), p + |PlaneBits(pl, nqx, nqy)|)
    ensures |Level(pl, nqx, nqy, 1)| == Cells(Half(nqx), Half(nqy)) && Spread(Level(pl, nqx, nqy, 1), nqx, nqy) == pl
  {
    hide At;
    hide Msb;
    hide Top;
    hide Half;
    hide Depth;
    hide Cells;
    hide Spread;
    hide Level;
    hide Nybbles;
    hide Pow2;
    hide Stream;
    FirstLevel(pl, nqx, nqy);
    var g := Level(pl, nqx, nqy, 1);
    hide TreeBits;
    hide DecodePlane;
    hide BufferSize;
    if |TreeBits(pl, nqx, nqy, Depth(nqx, nqy))| >= 8 * BufferSize(nqx, nqy) {
      DirectRoundTrip(s, p, g, nqx, nqy);
    } else {
      TreeRoundTrip(s, p, pl, nqx, nqy);
    }
  }
}
