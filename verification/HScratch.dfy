/**
  The in-place loops over 2x2 blocks: reducing and expanding the scratch array, and moving one bit plane between it and
  the image.
 */
module HScratch {
  import opened Powers
  import opened Bits
  import opened Grids
  import opened HButterfly
  import opened HStream
  import opened HPlanes

  // ---- rectangles of a flat array ----

  function Row(x: int, off: int, n: nat): int
    requires n > 0
  {
    (x - off) / n
  }

  function Col(x: int, off: int, n: nat): int
    requires n > 0
  {
    (x - off) % n
  }

  function Place(off: int, n: nat, i: int, j: int): int
  {
    off + n * i + j
  }

  lemma PlaceOf(off: int, n: nat, i: int, j: int)
    requires 0 <= j < n
    ensures Row(Place(off, n, i, j), off, n) == i && Col(Place(off, n, i, j), off, n) == j
  {
    QuotientUnique(n * i + j, n, i, j);
  }

  lemma PlaceBack(x: int, off: int, n: nat)
    requires n > 0
    ensures x == Place(off, n, Row(x, off, n), Col(x, off, n)) && 0 <= Col(x, off, n) < n
  {
  }

  // The rectangle lies inside an array of length len whose rows have n elements.
  ghost predicate Fits(off: int, n: nat, nqx: nat, nqy: nat, len: nat)
  {
    0 <= off && 0 < nqy <= n && 0 < nqx && Place(off, n, nqx - 1, nqy) <= len
  }

  lemma FitsPlace(off: int, n: nat, nqx: nat, nqy: nat, len: nat, i: nat, j: nat)
    requires Fits(off, n, nqx, nqy, len) && i < nqx && j < nqy
    ensures 0 <= Place(off, n, i, j) < len
  {
    MulMonotone(i, nqx - 1, n);
  }

  // ---- updating a rectangle in place ----

  // The places in done hold r's values and all others still hold m's.
  ghost predicate Updating(a: seq<int>, m: seq<int>, r: seq<int>, off: int, n: nat, done: set<(int, int)>)
  {
    n > 0 && |a| == |m| == |r| &&
    forall x {:trigger a[x]} :: 0 <= x < |a| ==> a[x] == if (Row(x, off, n), Col(x, off, n)) in done then r[x] else m[x]
  }

  lemma SetOne(a: seq<int>, m: seq<int>, r: seq<int>, off: int, n: nat, done: set<(int, int)>, i: int, j: int)
    requires Updating(a, m, r, off, n, done) && 0 <= j < n && 0 <= Place(off, n, i, j) < |a|
    ensures var x := Place(off, n, i, j); Updating(a[x := r[x]], m, r, off, n, done + {(i, j)})
  {
    hide Place;
    hide Row;
    hide Col;
    var x := Place(off, n, i, j);
    PlaceOf(off, n, i, j);
    forall y | 0 <= y < |a| && y != x
      ensures (Row(y, off, n), Col(y, off, n)) != (i, j)
    {
      PlaceBack(y, off, n);
    }
  }

  lemma GetOne(a: seq<int>, m: seq<int>, r: seq<int>, off: int, n: nat, done: set<(int, int)>, i: int, j: int)
    requires Updating(a, m, r, off, n, done) && 0 <= j < n && 0 <= Place(off, n, i, j) < |a| && (i, j) !in done
    ensures a[Place(off, n, i, j)] == m[Place(off, n, i, j)]
  {
    hide Place;
    hide Row;
    hide Col;
    PlaceOf(off, n, i, j);
  }

  predicate InRect(x: int, off: int, n: nat, nqx: nat, nqy: nat)
    requires n > 0
  {
    0 <= Row(x, off, n) < nqx && Col(x, off, n) < nqy
  }

  // Outside the rectangle r and m agree.
  ghost predicate Framed(m: seq<int>, r: seq<int>, off: int, n: nat, nqx: nat, nqy: nat)
  {
    n > 0 && |m| == |r| &&
    forall x {:trigger r[x]} :: 0 <= x < |r| && !InRect(x, off, n, nqx, nqy) ==> r[x] == m[x]
  }

  lemma AllSet(a: seq<int>, m: seq<int>, r: seq<int>, off: int, n: nat, nqx: nat, nqy: nat, done: set<(int, int)>,
               i: int, h: nat)
    requires Updating(a, m, r, off, n, done) && Visited(done, nqx, nqy, i, h, 0) && i >= nqx &&
             Framed(m, r, off, n, nqx, nqy)
    ensures a == r
  {
    hide Row;
    forall x | 0 <= x < |a|
      ensures a[x] == r[x]
    {
      PlaceBack(x, off, n);
    }
  }

  // ---- reading one bit plane ----

  function Bit(v: int, bit: nat): mark
  {
    v / Pow2(bit) % 2
  }

  function PlaneCell(img: seq<int>, off: int, n: nat, nqx: nat, nqy: nat, bit: nat, x: nat): mark
    requires Fits(off, n, nqx, nqy, |img|) && x < Cells(nqx, nqy)
  {
    RowBelow(x, nqx, nqy);
    FitsPlace(off, n, nqx, nqy, |img|, x / nqy, x % nqy);
    Bit(img[Place(off, n, x / nqy, x % nqy)], bit)
  }

  // Bit plane bit of the rectangle.
  function Plane(img: seq<int>, off: int, n: nat, nqx: nat, nqy: nat, bit: nat): (r: seq<mark>)
    requires Fits(off, n, nqx, nqy, |img|)
    ensures IsPlane(r, nqx, nqy)
  {
    seq(Cells(nqx, nqy), x requires 0 <= x < Cells(nqx, nqy) => PlaneCell(img, off, n, nqx, nqy, bit, x))
  }

  lemma PlaneAt(img: seq<int>, off: int, n: nat, nqx: nat, nqy: nat, bit: nat, i: nat, j: nat)
    requires Fits(off, n, nqx, nqy, |img|) && i < nqx && j < nqy
    ensures 0 <= Place(off, n, i, j) < |img|
    ensures Cell(Plane(img, off, n, nqx, nqy, bit), nqx, nqy, i, j) == Bit(img[Place(off, n, i, j)], bit)
  {
    hide Bit;
    hide Place;
    FitsPlace(off, n, nqx, nqy, |img|, i, j);
    IndexBound(i, j, nqx, nqy);
    QuotientUnique(i * nqy + j, nqy, i, j);
  }

  method ReadBit(a: array<int>, s: int, bit: nat, ghost off: int, ghost n: nat, ghost nqx: nat, ghost nqy: nat,
                 ghost i: nat, ghost j: nat)
    returns (v: mark)
    requires Fits(off, n, nqx, nqy, a.Length) && i < nqx && j < nqy && s == Place(off, n, i, j)
    ensures v == Cell(Plane(a[..], off, n, nqx, nqy, bit), nqx, nqy, i, j)
  {
    PlaneAt(a[..], off, n, nqx, nqy, bit, i, j);
    v := Bit(a[s], bit);
  }

  // ---- packing block by block ----

  // The scratch index of block (ih, jh).
  function Slot(ny: nat, ih: nat, jh: nat): nat
  {
    ih * Half(ny) + jh
  }

  lemma SlotNext(ny: nat, ih: nat, jh: nat)
    ensures Slot(ny, ih, jh + 1) == Slot(ny, ih, jh) + 1
  {
  }

  lemma SlotRow(ny: nat, ih: nat, j: nat, jh: nat)
    requires jh == Half(ny)
    ensures Slot(ny, ih, jh) == Slot(ny, ih + 1, 0)
  {
  }

  lemma PlaceNext(off: int, n: nat, i: int, j: int)
    ensures Place(off, n, i, j + 1) == Place(off, n, i, j) + 1 && Place(off, n, i, j + 2) == Place(off, n, i, j) + 2
    ensures Place(off, n, i + 1, j) == Place(off, n, i, j) + n
  {
    assert n * (i + 1) == n * i + n;
  }

  // The first k blocks are packed.
  ghost predicate PackedUpTo(b: seq<nybble>, s: seq<mark>, nx: nat, ny: nat, k: nat)
  {
    ny > 0 && |s| == Cells(nx, ny) && k <= Cells(Half(nx), Half(ny)) <= |b| &&
    forall x :: 0 <= x < k ==> b[x] == Packed(s, nx, ny)[x]
  }

  lemma PackNext(b: seq<nybble>, s: seq<mark>, nx: nat, ny: nat, k: nat, ih: nat, jh: nat, v: nybble)
    requires PackedUpTo(b, s, nx, ny, k) && 2 * ih < nx && 2 * jh < ny && k == Slot(ny, ih, jh)
    requires v == Block(s, nx, ny, ih, jh)
    ensures k < |b| && PackedUpTo(b[k := v], s, nx, ny, k + 1) && k + 1 == Slot(ny, ih, jh + 1)
  {
    hide Packed;
    hide Block;
    PackedAt(s, nx, ny, ih, jh);
    IndexBound(ih, jh, Half(nx), Half(ny));
  }

  lemma AllPacked(b: seq<nybble>, s: seq<mark>, nx: nat, ny: nat, k: nat)
    requires PackedUpTo(b, s, nx, ny, k) && k == Slot(ny, Half(nx), 0)
    ensures k == |Packed(s, nx, ny)| && b[..k] == Packed(s, nx, ny)
  {
    hide Block;
  }

  lemma OffEdge(s: seq<mark>, nx: nat, ny: nat, i: nat, j: nat)
    requires |s| == Cells(nx, ny) && (i >= nx || j >= ny)
    ensures Cell(s, nx, ny, i, j) == 0
  {
  }

  // Store the nybble of block (ih, jh).
  method PutBlock(b: array<nybble>, ghost s: seq<mark>, ghost nx: nat, ghost ny: nat, k: nat, ghost ih: nat,
                  ghost jh: nat, p00: mark, p01: mark, p10: mark, p11: mark)
    requires PackedUpTo(b[..], s, nx, ny, k) && 2 * ih < nx && 2 * jh < ny && k == Slot(ny, ih, jh)
    requires |s| == Cells(nx, ny)
    requires p00 == Cell(s, nx, ny, 2 * ih, 2 * jh) && p01 == Cell(s, nx, ny, 2 * ih, 2 * jh + 1)
    requires p10 == Cell(s, nx, ny, 2 * ih + 1, 2 * jh) && p11 == Cell(s, nx, ny, 2 * ih + 1, 2 * jh + 1)
    modifies b
    ensures PackedUpTo(b[..], s, nx, ny, k + 1) && k + 1 == Slot(ny, ih, jh + 1)
    ensures k < b.Length && b[..] == old(b[..])[k := Nybble(p00, p01, p10, p11)]
  {
    hide PackedUpTo;
    hide Cell;
    hide Slot;
    hide Cells;
    hide Nybble;
    PackNext(b[..], s, nx, ny, k, ih, jh, Nybble(p00, p01, p10, p11));
    b[k] := Nybble(p00, p01, p10, p11);
    assert b[..] == old(b[..])[k := Nybble(p00, p01, p10, p11)];
  }

  // One row pair: rows i and i + 1.
  method OneBitBand(a: array<int>, ghost off: int, n: nat, ghost nx: nat, ny: nat, b: array<nybble>, bit: nat,
                    ghost i: nat, start: int, k0: nat, ghost ih: nat)
    returns (k: nat)
    requires Fits(off, n, nx, ny, a.Length) && i == 2 * ih && i + 1 < nx && start == Place(off, n, i, 0)
    requires PackedUpTo(b[..], Plane(a[..], off, n, nx, ny, bit), nx, ny, k0) && k0 == Slot(ny, ih, 0)
    modifies b
    ensures PackedUpTo(b[..], Plane(a[..], off, n, nx, ny, bit), nx, ny, k) && k == Slot(ny, ih + 1, 0)
  {
    hide PackedUpTo;
    hide Plane;
    hide Cell;
    hide Cells;
    hide Slot;
    hide Place;
    k := k0;
    ghost var s, jh := Plane(a[..], off, n, nx, ny, bit), 0;
    PlaceNext(off, n, i, 0);
    var s00, s10 := start, start + n;
    var j := 0;
    while j < ny - 1
      invariant j == 2 * jh && j <= ny && k == Slot(ny, ih, jh)
      invariant s00 == Place(off, n, i, j) && s10 == Place(off, n, i + 1, j)
      invariant PackedUpTo(b[..], s, nx, ny, k)
    {
      PlaceNext(off, n, i, j);
      PlaceNext(off, n, i + 1, j);
      var p11 := ReadBit(a, s10 + 1, bit, off, n, nx, ny, i + 1, j + 1);
      var p10 := ReadBit(a, s10, bit, off, n, nx, ny, i + 1, j);
      var p01 := ReadBit(a, s00 + 1, bit, off, n, nx, ny, i, j + 1);
      var p00 := ReadBit(a, s00, bit, off, n, nx, ny, i, j);
      PutBlock(b, s, nx, ny, k, ih, jh, p00, p01, p10, p11);
      k := k + 1;
      s00 := s00 + 2;
      s10 := s10 + 2;
      j := j + 2;
      jh := jh + 1;
    }
    if j < ny {
      var p10 := ReadBit(a, s10, bit, off, n, nx, ny, i + 1, j);
      var p00 := ReadBit(a, s00, bit, off, n, nx, ny, i, j);
      OffEdge(s, nx, ny, i, j + 1);
      OffEdge(s, nx, ny, i + 1, j + 1);
      PutBlock(b, s, nx, ny, k, ih, jh, p00, 0, p10, 0);
      k := k + 1;
      jh := jh + 1;
    }
    SlotRow(ny, ih, j, jh);
  }

  method OneBitLastRow(a: array<int>, ghost off: int, n: nat, ghost nx: nat, ny: nat, b: array<nybble>, bit: nat,
                       ghost i: nat, start: int, k0: nat, ghost ih: nat)
    returns (k: nat)
    requires Fits(off, n, nx, ny, a.Length) && i == 2 * ih && i + 1 == nx && start == Place(off, n, i, 0)
    requires PackedUpTo(b[..], Plane(a[..], off, n, nx, ny, bit), nx, ny, k0) && k0 == Slot(ny, ih, 0)
    modifies b
    ensures PackedUpTo(b[..], Plane(a[..], off, n, nx, ny, bit), nx, ny, k) && k == Slot(ny, ih + 1, 0)
  {
    hide PackedUpTo;
    hide Plane;
    hide Cell;
    hide Cells;
    hide Slot;
    hide Place;
    k := k0;
    ghost var s, jh := Plane(a[..], off, n, nx, ny, bit), 0;
    var s00 := start;
    var j := 0;
    while j < ny - 1
      invariant j == 2 * jh && j <= ny && k == Slot(ny, ih, jh)
      invariant s00 == Place(off, n, i, j)
      invariant PackedUpTo(b[..], s, nx, ny, k)
    {
      PlaceNext(off, n, i, j);
      var p01 := ReadBit(a, s00 + 1, bit, off, n, nx, ny, i, j + 1);
      var p00 := ReadBit(a, s00, bit, off, n, nx, ny, i, j);
      OffEdge(s, nx, ny, i + 1, j);
      OffEdge(s, nx, ny, i + 1, j + 1);
      PutBlock(b, s, nx, ny, k, ih, jh, p00, p01, 0, 0);
      k := k + 1;
      s00 := s00 + 2;
      j := j + 2;
      jh := jh + 1;
    }
    if j < ny {
      var p00 := ReadBit(a, s00, bit, off, n, nx, ny, i, j);
      OffEdge(s, nx, ny, i, j + 1);
      OffEdge(s, nx, ny, i + 1, j);
      OffEdge(s, nx, ny, i + 1, j + 1);
      PutBlock(b, s, nx, ny, k, ih, jh, p00, 0, 0, 0);
      k := k + 1;
      jh := jh + 1;
    }
    SlotRow(ny, ih, j, jh);
  }

  lemma NothingPacked(b: seq<nybble>, s: seq<mark>, nx: nat, ny: nat)
    requires nx > 0 && ny > 0 && |s| == Cells(nx, ny) && Cells(Half(nx), Half(ny)) <= |b|
    ensures PackedUpTo(b, s, nx, ny, 0) && Slot(ny, 0, 0) == 0
  {
  }

  // Pack bit plane bit of the rectangle of a that starts at off into the front of b.
  method OneBit(a: array<int>, off: int, n: nat, nx: nat, ny: nat, b: array<nybble>, bit: nat)
    requires Fits(off, n, nx, ny, a.Length) && b.Length >= Cells(Half(nx), Half(ny))
    modifies b
    ensures b[..Cells(Half(nx), Half(ny))] == Packed(Plane(a[..], off, n, nx, ny, bit), nx, ny)
  {
    hide PackedUpTo;
    hide Plane;
    hide Packed;
    hide Slot;
    hide Place;
    ghost var s, ih := Plane(a[..], off, n, nx, ny, bit), 0;
    NothingPacked(b[..], s, nx, ny);
    var k, i := 0, 0;
    while i < nx - 1
      invariant i == 2 * ih && i <= nx && k == Slot(ny, ih, 0) && PackedUpTo(b[..], s, nx, ny, k)
    {
      StartOfRow(off, n, i);
      k := OneBitBand(a, off, n, nx, ny, b, bit, i, off + n * i, k, ih);
      i := i + 2;
      ih := ih + 1;
    }
    if i < nx {
      StartOfRow(off, n, i);
      k := OneBitLastRow(a, off, n, nx, ny, b, bit, i, off + n * i, k, ih);
      ih := ih + 1;
    }
    AllPacked(b[..], s, nx, ny, k);
    assert b[..][..k] == b[..k];
  }

  lemma StartOfRow(off: int, n: nat, i: int)
    ensures Place(off, n, i, 0) == off + n * i
  {
  }

  // ---- one reduction step, in place ----

  // The cells from k on are still those of g.
  ghost predicate Kept(b: seq<nybble>, g: seq<nybble>, k: nat)
  {
    |g| <= |b| && forall x :: k <= x < |g| ==> b[x] == g[x]
  }

  // A block is read before its slot, or any later one, is written.
  lemma ReadAhead(ny: nat, i: nat, j: nat, ih: nat, jh: nat)
    requires ny > 0 && i >= 2 * ih && j >= 2 * jh
    ensures Place(0, ny, i, j) >= Slot(ny, ih, jh)
  {
    MulMonotone(Half(ny), ny, ih);
    MulMonotone(ih, i, ny);
  }

  lemma MarkCell(g: seq<nybble>, nx: nat, ny: nat, i: nat, j: nat)
    requires |g| == Cells(nx, ny) && i < nx && j < ny
    ensures 0 <= Place(0, ny, i, j) < |g|
    ensures Cell(NonZero(g), nx, ny, i, j) == if g[Place(0, ny, i, j)] != 0 then 1 else 0
  {
    IndexBound(i, j, nx, ny);
  }

  method ReadMark(b: array<nybble>, s: int, ghost g: seq<nybble>, ghost nx: nat, ghost ny: nat, ghost k: nat,
                  ghost i: nat, ghost j: nat, ghost ih: nat, ghost jh: nat)
    returns (v: mark)
    requires |g| == Cells(nx, ny) && i < nx && j < ny && s == Place(0, ny, i, j)
    requires Kept(b[..], g, k) && k == Slot(ny, ih, jh) && i >= 2 * ih && j >= 2 * jh
    ensures v == Cell(NonZero(g), nx, ny, i, j)
  {
    hide Place;
    hide Slot;
    hide Cell;
    hide Cells;
    MarkCell(g, nx, ny, i, j);
    ReadAhead(ny, i, j, ih, jh);
    v := if b[s] != 0 then 1 else 0;
  }

  // PutBlock, where the scratch array is also what is read.
  method PutReduced(b: array<nybble>, ghost g: seq<nybble>, ghost nx: nat, ghost ny: nat, k: nat, ghost ih: nat,
                    ghost jh: nat, p00: mark, p01: mark, p10: mark, p11: mark)
    requires |g| == Cells(nx, ny) && Kept(b[..], g, k)
    requires PackedUpTo(b[..], NonZero(g), nx, ny, k) && 2 * ih < nx && 2 * jh < ny && k == Slot(ny, ih, jh)
    requires p00 == Cell(NonZero(g), nx, ny, 2 * ih, 2 * jh) && p01 == Cell(NonZero(g), nx, ny, 2 * ih, 2 * jh + 1)
    requires p10 == Cell(NonZero(g), nx, ny, 2 * ih + 1, 2 * jh) &&
             p11 == Cell(NonZero(g), nx, ny, 2 * ih + 1, 2 * jh + 1)
    modifies b
    ensures PackedUpTo(b[..], NonZero(g), nx, ny, k + 1) && Kept(b[..], g, k + 1) && k + 1 == Slot(ny, ih, jh + 1)
  {
    hide PackedUpTo;
    hide Cell;
    hide Cells;
    hide Slot;
    hide NonZero;
    hide Nybble;
    PutBlock(b, NonZero(g), nx, ny, k, ih, jh, p00, p01, p10, p11);
  }

  method ReduceBand(b: array<nybble>, ghost g: seq<nybble>, ghost nx: nat, ny: nat, ghost i: nat, start: int, k0: nat,
                    ghost ih: nat)
    returns (k: nat)
    requires |g| == Cells(nx, ny) && ny > 0 && i == 2 * ih && i + 1 < nx && start == Place(0, ny, i, 0)
    requires PackedUpTo(b[..], NonZero(g), nx, ny, k0) && Kept(b[..], g, k0) && k0 == Slot(ny, ih, 0)
    modifies b
    ensures PackedUpTo(b[..], NonZero(g), nx, ny, k) && Kept(b[..], g, k) && k == Slot(ny, ih + 1, 0)
  {
    hide PackedUpTo;
    hide Kept;
    hide NonZero;
    hide Cell;
    hide Cells;
    hide Slot;
    hide Place;
    k := k0;
    ghost var s, jh := NonZero(g), 0;
    PlaceNext(0, ny, i, 0);
    var s00, s10 := start, start + ny;
    var j := 0;
    while j < ny - 1
      invariant j == 2 * jh && j <= ny && k == Slot(ny, ih, jh)
      invariant s00 == Place(0, ny, i, j) && s10 == Place(0, ny, i + 1, j)
      invariant PackedUpTo(b[..], s, nx, ny, k) && Kept(b[..], g, k)
    {
      PlaceNext(0, ny, i, j);
      PlaceNext(0, ny, i + 1, j);
      var p11 := ReadMark(b, s10 + 1, g, nx, ny, k, i + 1, j + 1, ih, jh);
      var p10 := ReadMark(b, s10, g, nx, ny, k, i + 1, j, ih, jh);
      var p01 := ReadMark(b, s00 + 1, g, nx, ny, k, i, j + 1, ih, jh);
      var p00 := ReadMark(b, s00, g, nx, ny, k, i, j, ih, jh);
      PutReduced(b, g, nx, ny, k, ih, jh, p00, p01, p10, p11);
      k := k + 1;
      s00 := s00 + 2;
      s10 := s10 + 2;
      j := j + 2;
      jh := jh + 1;
    }
    if j < ny {
      var p10 := ReadMark(b, s10, g, nx, ny, k, i + 1, j, ih, jh);
      var p00 := ReadMark(b, s00, g, nx, ny, k, i, j, ih, jh);
      OffEdge(s, nx, ny, i, j + 1);
      OffEdge(s, nx, ny, i + 1, j + 1);
      PutReduced(b, g, nx, ny, k, ih, jh, p00, 0, p10, 0);
      k := k + 1;
      jh := jh + 1;
    }
    SlotRow(ny, ih, j, jh);
  }

  method ReduceLastRow(b: array<nybble>, ghost g: seq<nybble>, ghost nx: nat, ny: nat, ghost i: nat, start: int,
                       k0: nat, ghost ih: nat)
    returns (k: nat)
    requires |g| == Cells(nx, ny) && ny > 0 && i == 2 * ih && i + 1 == nx && start == Place(0, ny, i, 0)
    requires PackedUpTo(b[..], NonZero(g), nx, ny, k0) && Kept(b[..], g, k0) && k0 == Slot(ny, ih, 0)
    modifies b
    ensures PackedUpTo(b[..], NonZero(g), nx, ny, k) && k == Slot(ny, ih + 1, 0)
  {
    hide PackedUpTo;
    hide Kept;
    hide NonZero;
    hide Cell;
    hide Cells;
    hide Slot;
    hide Place;
    k := k0;
    ghost var s, jh := NonZero(g), 0;
    var s00 := start;
    var j := 0;
    while j < ny - 1
      invariant j == 2 * jh && j <= ny && k == Slot(ny, ih, jh)
      invariant s00 == Place(0, ny, i, j)
      invariant PackedUpTo(b[..], s, nx, ny, k) && Kept(b[..], g, k)
    {
      PlaceNext(0, ny, i, j);
      var p01 := ReadMark(b, s00 + 1, g, nx, ny, k, i, j + 1, ih, jh);
      var p00 := ReadMark(b, s00, g, nx, ny, k, i, j, ih, jh);
      OffEdge(s, nx, ny, i + 1, j);
      OffEdge(s, nx, ny, i + 1, j + 1);
      PutReduced(b, g, nx, ny, k, ih, jh, p00, p01, 0, 0);
      k := k + 1;
      s00 := s00 + 2;
      j := j + 2;
      jh := jh + 1;
    }
    if j < ny {
      var p00 := ReadMark(b, s00, g, nx, ny, k, i, j, ih, jh);
      OffEdge(s, nx, ny, i, j + 1);
      OffEdge(s, nx, ny, i + 1, j);
      OffEdge(s, nx, ny, i + 1, j + 1);
      PutReduced(b, g, nx, ny, k, ih, jh, p00, 0, 0, 0);
      k := k + 1;
      jh := jh + 1;
    }
    SlotRow(ny, ih, j, jh);
  }

  lemma HalfCells(nx: nat, ny: nat)
    requires nx > 0 && ny > 0
    ensures 0 < Cells(Half(nx), Half(ny)) <= Cells(nx, ny)
  {
    MulMonotone(Half(nx), nx, Half(ny));
    MulMonotone(Half(ny), ny, nx);
    MulMonotone(1, Half(nx), Half(ny));
  }

  // The level above the one at the front of b takes its place.
  method Reduce(b: array<nybble>, nx: nat, ny: nat)
    requires nx > 0 && ny > 0 && Cells(nx, ny) <= b.Length
    modifies b
    ensures Cells(Half(nx), Half(ny)) <= b.Length
    ensures b[..Cells(Half(nx), Half(ny))] == Packed(NonZero(old(b[..Cells(nx, ny)])), nx, ny)
  {
    hide PackedUpTo;
    hide NonZero;
    hide Packed;
    hide Slot;
    hide Place;
    hide Half;
    ghost var g, ih := b[..Cells(nx, ny)], 0;
    HalfCells(nx, ny);
    NothingPacked(b[..], NonZero(g), nx, ny);
    var k, i := 0, 0;
    while i < nx - 1
      invariant i == 2 * ih && i <= nx && k == Slot(ny, ih, 0)
      invariant PackedUpTo(b[..], NonZero(g), nx, ny, k) && Kept(b[..], g, k)
    {
      StartOfRow(0, ny, i);
      k := ReduceBand(b, g, nx, ny, i, ny * i, k, ih);
      i := i + 2;
      ih := ih + 1;
    }
    if i < nx {
      StartOfRow(0, ny, i);
      k := ReduceLastRow(b, g, nx, ny, i, ny * i, k, ih);
      ih := ih + 1;
    }
    HalfIs(nx, ih);
    AllPacked(b[..], NonZero(g), nx, ny, k);
    assert b[..][..k] == b[..k];
  }

  lemma HalfIs(n: nat, h: nat)
    requires 2 * h == n || 2 * h == n + 1
    ensures h == Half(n)
  {
  }
}
