/** Inserting the marks of one bit plane into a rectangle of the image. */
module HInsert {
  import opened Powers
  import opened Bits
  import opened Grids
  import opened HButterfly
  import opened HStream
  import opened HPlanes
  import opened HScratch
  import opened HExpand

  // v with the given bit set.
  function OrBit(v: int, bit: nat): int
  {
    if Bit(v, bit) == 1 then v else v + Pow2(bit)
  }

  function OrMark(v: int, p: mark, bit: nat): int
  {
    if p == 1 then OrBit(v, bit) else v
  }

  function InsertedCell(img: seq<int>, pl: seq<mark>, off: int, n: nat, nx: nat, ny: nat, bit: nat, x: nat): int
    requires n > 0 && |pl| == Cells(nx, ny) && x < |img|
  {
    if InRect(x, off, n, nx, ny) then
      PlaceBack(x, off, n);
      OrMark(img[x], Cell(pl, nx, ny, Row(x, off, n), Col(x, off, n)), bit)
    else img[x]
  }

  // The image with the plane pl set in the rectangle's bit plane.
  ghost function Inserted(img: seq<int>, pl: seq<mark>, off: int, n: nat, nx: nat, ny: nat, bit: nat): (r: seq<int>)
    requires n > 0 && |pl| == Cells(nx, ny)
    ensures |r| == |img|
  {
    seq(|img|, x requires 0 <= x < |img| => InsertedCell(img, pl, off, n, nx, ny, bit, x))
  }

  ghost predicate Inserting(a: seq<int>, m: seq<int>, pl: seq<mark>, off: int, n: nat, nx: nat, ny: nat, bit: nat,
                            done: set<(int, int)>)
  {
    Fits(off, n, nx, ny, |m|) && |a| == |m| && |pl| == Cells(nx, ny) &&
    Updating(a, m, Inserted(m, pl, off, n, nx, ny, bit), off, n, done)
  }

  lemma InsertedAt(img: seq<int>, pl: seq<mark>, off: int, n: nat, nx: nat, ny: nat, bit: nat, i: nat, j: nat)
    requires Fits(off, n, nx, ny, |img|) && |pl| == Cells(nx, ny) && i < nx && j < ny
    ensures var s := Place(off, n, i, j);
            0 <= s < |img| && Inserted(img, pl, off, n, nx, ny, bit)[s] == OrMark(img[s], Cell(pl, nx, ny, i, j), bit)
  {
    hide Place;
    hide Row;
    hide Col;
    hide OrMark;
    hide Cell;
    hide Cells;
    FitsPlace(off, n, nx, ny, |img|, i, j);
    PlaceOf(off, n, i, j);
  }

  // The cell (2 ih + x, 2 jh + y) of a spread level.
  lemma SpreadCell(g: seq<nybble>, nx: nat, ny: nat, ih: nat, jh: nat, x: nat, y: nat)
    requires |g| == Cells(Half(nx), Half(ny)) && x < 2 && y < 2 && 2 * ih + x < nx && 2 * jh + y < ny
    ensures Slot(ny, ih, jh) < |g|
    ensures Cell(Spread(g, nx, ny), nx, ny, 2 * ih + x, 2 * jh + y) == Pick(g[Slot(ny, ih, jh)], x, y)
  {
    hide Pick;
    hide Spread;
    SlotBelow(nx, ny, ih, jh);
    SpreadAt(g, nx, ny, 2 * ih + x, 2 * jh + y);
  }

  method PutMark(a: array<int>, s: int, v: nybble, x: nat, y: nat, bit: nat, ghost m: seq<int>, ghost g: seq<nybble>,
                 ghost off: int, ghost n: nat, ghost nx: nat, ghost ny: nat, ghost done: set<(int, int)>, ghost ih: nat,
                 ghost jh: nat)
    requires |g| == Cells(Half(nx), Half(ny)) && x < 2 && y < 2 && 2 * ih + x < nx && 2 * jh + y < ny
    requires Inserting(a[..], m, Spread(g, nx, ny), off, n, nx, ny, bit, done) && (2 * ih + x, 2 * jh + y) !in done
    requires s == Place(off, n, 2 * ih + x, 2 * jh + y) && Slot(ny, ih, jh) < |g| && v == g[Slot(ny, ih, jh)]
    modifies a
    ensures Inserting(a[..], m, Spread(g, nx, ny), off, n, nx, ny, bit, done + {(2 * ih + x, 2 * jh + y)})
  {
    hide Updating;
    hide Inserted;
    hide Spread;
    hide Place;
    hide Slot;
    hide Cell;
    hide Cells;
    hide Half;
    hide Pick;
    hide OrBit;
    ghost var pl := Spread(g, nx, ny);
    ghost var i, j := 2 * ih + x, 2 * jh + y;
    ghost var r := Inserted(m, pl, off, n, nx, ny, bit);
    SpreadCell(g, nx, ny, ih, jh, x, y);
    InsertedAt(m, pl, off, n, nx, ny, bit, i, j);
    GetOne(a[..], m, r, off, n, done, i, j);
    SetOne(a[..], m, r, off, n, done, i, j);
    ghost var was := a[..];
    if Pick(v, x, y) == 1 {
      a[s] := OrBit(a[s], bit);
    }
    assert a[..] == was[s := r[s]];
  }

  method InsertBand(a: array<int>, ghost off: int, n: nat, ghost nx: nat, ny: nat, b: array<nybble>, bit: nat,
                    ghost m: seq<int>, ghost g: seq<nybble>, ghost i: nat, start: int, k0: nat, ghost ih: nat,
                    ghost before: set<(int, int)>)
    returns (k: nat, ghost done: set<(int, int)>)
    requires |g| == Cells(Half(nx), Half(ny)) <= b.Length && g == b[..|g|]
    requires Inserting(a[..], m, Spread(g, nx, ny), off, n, nx, ny, bit, before) && Visited(before, nx, ny, i, 2, 0)
    requires ny > 0 && i == 2 * ih && i + 1 < nx && start == Place(off, n, i, 0) && k0 == Slot(ny, ih, 0)
    modifies a
    ensures g == b[..|g|]
    ensures Inserting(a[..], m, Spread(g, nx, ny), off, n, nx, ny, bit, done) && Visited(done, nx, ny, i, 2, ny)
    ensures k == Slot(ny, ih + 1, 0)
  {
    hide Inserting;
    hide Spread;
    hide Visited;
    hide Place;
    hide Slot;
    hide Cells;
    done := before;
    k := k0;
    ghost var jh := 0;
    PlaceNext(off, n, i, 0);
    var s00 := start;
    var j := 0;
    while j < ny - 1
      invariant j == 2 * jh && j <= ny && k == Slot(ny, ih, jh) && g == b[..|g|]
      invariant s00 == Place(off, n, i, j)
      invariant Inserting(a[..], m, Spread(g, nx, ny), off, n, nx, ny, bit, done) && Visited(done, nx, ny, i, 2, j)
    {
      VisitFour(done, nx, ny, i, j);
      PlaceNext(off, n, i, j);
      PlaceNext(off, n, i + 1, j);
      SlotBelow(nx, ny, ih, jh);
      SlotNext(ny, ih, jh);
      var v := b[k];
      PutMark(a, s00 + n + 1, v, 1, 1, bit, m, g, off, n, nx, ny, done, ih, jh);
      done := done + {(i + 1, j + 1)};
      PutMark(a, s00 + n, v, 1, 0, bit, m, g, off, n, nx, ny, done, ih, jh);
      done := done + {(i + 1, j)};
      PutMark(a, s00 + 1, v, 0, 1, bit, m, g, off, n, nx, ny, done, ih, jh);
      done := done + {(i, j + 1)};
      PutMark(a, s00, v, 0, 0, bit, m, g, off, n, nx, ny, done, ih, jh);
      done := done + {(i, j)};
      s00 := s00 + 2;
      k := k + 1;
      j := j + 2;
      jh := jh + 1;
    }
    if j < ny {
      VisitX(done, nx, ny, i, j);
      PlaceNext(off, n, i, j);
      SlotBelow(nx, ny, ih, jh);
      SlotNext(ny, ih, jh);
      var v := b[k];
      PutMark(a, s00 + n, v, 1, 0, bit, m, g, off, n, nx, ny, done, ih, jh);
      done := done + {(i + 1, j)};
      PutMark(a, s00, v, 0, 0, bit, m, g, off, n, nx, ny, done, ih, jh);
      done := done + {(i, j)};
      k := k + 1;
      jh := jh + 1;
    }
    SlotRow(ny, ih, j, jh);
  }

  method InsertLastRow(a: array<int>, ghost off: int, ghost n: nat, ghost nx: nat, ny: nat, b: array<nybble>, bit: nat,
                       ghost m: seq<int>, ghost g: seq<nybble>, ghost i: nat, start: int, k0: nat, ghost ih: nat,
                       ghost before: set<(int, int)>)
    returns (k: nat, ghost done: set<(int, int)>)
    requires |g| == Cells(Half(nx), Half(ny)) <= b.Length && g == b[..|g|]
    requires Inserting(a[..], m, Spread(g, nx, ny), off, n, nx, ny, bit, before) && Visited(before, nx, ny, i, 1, 0)
    requires ny > 0 && i == 2 * ih && i + 1 == nx && start == Place(off, n, i, 0) && k0 == Slot(ny, ih, 0)
    modifies a
    ensures Inserting(a[..], m, Spread(g, nx, ny), off, n, nx, ny, bit, done) && Visited(done, nx, ny, i, 1, ny)
    ensures k == Slot(ny, ih + 1, 0)
  {
    hide Inserting;
    hide Spread;
    hide Visited;
    hide Place;
    hide Slot;
    hide Cells;
    done := before;
    k := k0;
    ghost var jh := 0;
    var s00 := start;
    var j := 0;
    while j < ny - 1
      invariant j == 2 * jh && j <= ny && k == Slot(ny, ih, jh) && g == b[..|g|]
      invariant s00 == Place(off, n, i, j)
      invariant Inserting(a[..], m, Spread(g, nx, ny), off, n, nx, ny, bit, done) && Visited(done, nx, ny, i, 1, j)
    {
      VisitY(done, nx, ny, i, j);
      PlaceNext(off, n, i, j);
      SlotBelow(nx, ny, ih, jh);
      SlotNext(ny, ih, jh);
      var v := b[k];
      PutMark(a, s00 + 1, v, 0, 1, bit, m, g, off, n, nx, ny, done, ih, jh);
      done := done + {(i, j + 1)};
      PutMark(a, s00, v, 0, 0, bit, m, g, off, n, nx, ny, done, ih, jh);
      done := done + {(i, j)};
      s00 := s00 + 2;
      k := k + 1;
      j := j + 2;
      jh := jh + 1;
    }
    if j < ny {
      VisitCorner(done, nx, ny, i, j);
      SlotBelow(nx, ny, ih, jh);
      SlotNext(ny, ih, jh);
      var v := b[k];
      PutMark(a, s00, v, 0, 0, bit, m, g, off, n, nx, ny, done, ih, jh);
      done := done + {(i, j)};
      k := k + 1;
      jh := jh + 1;
    }
    SlotRow(ny, ih, j, jh);
  }

  lemma StartInserting(m: seq<int>, pl: seq<mark>, off: int, n: nat, nx: nat, ny: nat, bit: nat)
    requires Fits(off, n, nx, ny, |m|) && |pl| == Cells(nx, ny)
    ensures Inserting(m, m, pl, off, n, nx, ny, bit, {})
    ensures Slot(ny, 0, 0) == 0
  {
    hide Row;
    hide Col;
    hide Cells;
    hide InsertedCell;
  }

  lemma FinishInserting(a: seq<int>, m: seq<int>, pl: seq<mark>, off: int, n: nat, nx: nat, ny: nat, bit: nat,
                        done: set<(int, int)>, i: nat)
    requires Inserting(a, m, pl, off, n, nx, ny, bit, done) && Visited(done, nx, ny, i, 2, 0) && i >= nx
    ensures a == Inserted(m, pl, off, n, nx, ny, bit)
  {
    hide Updating;
    hide Visited;
    hide InRect;
    hide OrMark;
    hide Cells;
    AllSet(a, m, Inserted(m, pl, off, n, nx, ny, bit), off, n, nx, ny, done, i, 2);
  }

  // Set the marks of the nybbles at the front of b in bit plane bit of the rectangle.
  method BitIns(b: array<nybble>, nx: nat, ny: nat, a: array<int>, off: int, n: nat, bit: nat)
    requires Fits(off, n, nx, ny, a.Length) && Cells(Half(nx), Half(ny)) <= b.Length
    modifies a
    ensures a[..] == Inserted(old(a[..]), Spread(b[..Cells(Half(nx), Half(ny))], nx, ny), off, n, nx, ny, bit)
  {
    hide Inserting;
    hide Inserted;
    hide Visited;
    hide Spread;
    hide Slot;
    hide Cells;
    ghost var g, m, ih := b[..Cells(Half(nx), Half(ny))], a[..], 0;
    ghost var done: set<(int, int)> := {};
    StartInserting(m, Spread(g, nx, ny), off, n, nx, ny, bit);
    NothingVisited(nx, ny);
    var k, i := 0, 0;
    while i < nx - 1
      invariant i == 2 * ih && i <= nx && k == Slot(ny, ih, 0)
      invariant Inserting(a[..], m, Spread(g, nx, ny), off, n, nx, ny, bit, done) && Visited(done, nx, ny, i, 2, 0)
      invariant g == b[..|g|]
    {
      StartOfRow(off, n, i);
      k, done := InsertBand(a, off, n, nx, ny, b, bit, m, g, i, off + n * i, k, ih, done);
      VisitedBand(done, nx, ny, i, 2, ny, 2);
      i := i + 2;
      ih := ih + 1;
    }
    if i < nx {
      StartOfRow(off, n, i);
      OneRowBand(done, nx, ny, i);
      k, done := InsertLastRow(a, off, n, nx, ny, b, bit, m, g, i, off + n * i, k, ih, done);
      VisitedBand(done, nx, ny, i, 1, ny, 2);
      i := i + 1;
    }
    FinishInserting(a[..], m, Spread(g, nx, ny), off, n, nx, ny, bit, done, i);
  }
}
