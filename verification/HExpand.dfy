/** The decoder's in-place expansion of one quadtree level into the next. */
module HExpand {
  import opened Powers
  import opened Bits
  import opened Grids
  import opened HButterfly
  import opened HStream
  import opened HPlanes
  import opened HScratch

  // ---- moving the nybbles to the corners of their blocks, from the end ----

  // Where the nybble of block (ih, jh) goes.
  function Corner(ny: nat, ih: nat, jh: nat): nat
  {
    2 * (ny * ih + jh)
  }

  function Dest(ny: nat, x: nat): nat
    requires ny > 0
  {
    Corner(ny, x / Half(ny), x % Half(ny))
  }

  lemma DestOf(ny: nat, ih: nat, jh: nat)
    requires jh < Half(ny)
    ensures ny > 0 && Dest(ny, Slot(ny, ih, jh)) == Corner(ny, ih, jh)
  {
    QuotientUnique(Slot(ny, ih, jh), Half(ny), ih, jh);
  }

  lemma SlotOf(ny: nat, x: nat) returns (ih: nat, jh: nat)
    requires ny > 0
    ensures jh < Half(ny) && x == Slot(ny, ih, jh) && Dest(ny, x) == Corner(ny, ih, jh)
  {
    ih, jh := x / Half(ny), x % Half(ny);
  }

  // A nybble never moves towards the front.
  lemma DestAhead(ny: nat, ih: nat, jh: nat)
    requires ny > 0
    ensures Slot(ny, ih, jh) <= Corner(ny, ih, jh)
  {
    MulMonotone(Half(ny), ny, ih);
  }

  lemma CornerDistinct(ny: nat, ih: nat, jh: nat, p: nat, q: nat)
    requires jh < Half(ny) && q < Half(ny) && Corner(ny, ih, jh) == Corner(ny, p, q)
    ensures ih == p && jh == q
  {
    IndexUnique(ih, jh, p, q, ny);
  }

  lemma CornerBelow(nx: nat, ny: nat, ih: nat, jh: nat)
    requires ih < Half(nx) && jh < Half(ny)
    ensures Corner(ny, ih, jh) < Cells(nx, ny)
    ensures Corner(ny, ih, jh) == Place(0, ny, 2 * ih, 2 * jh)
  {
    IndexBound(2 * ih, 2 * jh, nx, ny);
    assert Corner(ny, ih, jh) == (2 * ih) * ny + 2 * jh;
  }

  ghost predicate HeldAt(b: seq<nybble>, g: seq<nybble>, x: nat, y: nat)
  {
    x < |g| && y < |b| && b[y] == g[x]
  }

  // The nybbles behind index k are in their places and the others have not moved.
  ghost predicate Moved(b: seq<nybble>, g: seq<nybble>, ny: nat, k: int)
  {
    ny > 0 && (forall x :: 0 <= x <= k && x < |g| ==> HeldAt(b, g, x, x)) &&
      (forall x :: x > k && 0 <= x < |g| ==> HeldAt(b, g, x, Dest(ny, x)))
  }

  lemma MoveOne(b: seq<nybble>, g: seq<nybble>, nx: nat, ny: nat, ih: nat, jh: nat)
    requires ih < Half(nx) && jh < Half(ny) && |g| == Cells(Half(nx), Half(ny)) && Cells(nx, ny) <= |b|
    requires Moved(b, g, ny, Slot(ny, ih, jh))
    ensures var k, d := Slot(ny, ih, jh), Corner(ny, ih, jh);
            k < |g| && d < |b| && k < |b| && b[k] == g[k] && Moved(b[d := g[k]], g, ny, k - 1)
  {
    hide Slot;
    hide Corner;
    hide Cells;
    hide Half;
    hide Dest;
    var k, d := Slot(ny, ih, jh), Corner(ny, ih, jh);
    SlotBelow(nx, ny, ih, jh);
    DestAhead(ny, ih, jh);
    CornerBelow(nx, ny, ih, jh);
    DestOf(ny, ih, jh);
    assert HeldAt(b, g, k, k);
    var after := b[d := g[k]];
    forall x | 0 <= x <= k - 1 && x < |g|
      ensures HeldAt(after, g, x, x)
    {
      assert HeldAt(b, g, x, x);
    }
    forall x | x > k - 1 && 0 <= x < |g|
      ensures HeldAt(after, g, x, Dest(ny, x))
    {
      if x != k {
        assert HeldAt(b, g, x, Dest(ny, x));
        var p, q := SlotOf(ny, x);
        if Corner(ny, p, q) == d {
          CornerDistinct(ny, ih, jh, p, q);
        }
      }
    }
  }

  lemma SlotBelow(nx: nat, ny: nat, ih: nat, jh: nat)
    requires ih < Half(nx) && jh < Half(ny)
    ensures Slot(ny, ih, jh) < Cells(Half(nx), Half(ny))
  {
    IndexBound(ih, jh, Half(nx), Half(ny));
  }

  lemma CornerNext(ny: nat, ih: nat, jh: nat)
    ensures Corner(ny, ih, jh + 1) == Corner(ny, ih, jh) + 2
  {
  }

  lemma NothingMoved(b: seq<nybble>, g: seq<nybble>, ny: nat, k: int)
    requires ny > 0 && |g| <= |b| && g == b[..|g|] && k == |g| - 1
    ensures Moved(b, g, ny, k)
  {
    hide Dest;
  }

  method MoveRow(b: array<nybble>, ghost g: seq<nybble>, ghost nx: nat, ny: nat, ghost i: nat, last: int, k0: int)
    returns (k: int)
    requires i < Half(nx) && ny > 0 && |g| == Cells(Half(nx), Half(ny)) && Cells(nx, ny) <= b.Length
    requires last == Corner(ny, i, Half(ny) - 1) && k0 == Slot(ny, i + 1, 0) - 1 && Moved(b[..], g, ny, k0)
    modifies b
    ensures k == Slot(ny, i, 0) - 1 && Moved(b[..], g, ny, k)
  {
    hide Slot;
    hide Corner;
    hide Cells;
    hide Moved;
    k := k0;
    SlotRow(ny, i, ny, Half(ny));
    var s00, j := last, Half(ny) - 1;
    while j >= 0
      invariant -1 <= j < Half(ny) && k == Slot(ny, i, j + 1) - 1 && (j >= 0 ==> s00 == Corner(ny, i, j))
      invariant Moved(b[..], g, ny, k)
    {
      SlotNext(ny, i, j);
      MoveOne(b[..], g, nx, ny, i, j);
      ghost var was := b[..];
      b[s00] := b[k];
      assert b[..] == was[s00 := g[k]];
      if j > 0 {
        CornerNext(ny, i, j - 1);
      }
      k := k - 1;
      s00 := s00 - 2;
      j := j - 1;
    }
  }

  // Every nybble of the level at the front of b moves to the corner of its block.
  method MoveApart(b: array<nybble>, nx: nat, ny: nat)
    requires nx > 0 && ny > 0 && Cells(Half(nx), Half(ny)) <= Cells(nx, ny) <= b.Length
    modifies b
    ensures Moved(b[..], old(b[..Cells(Half(nx), Half(ny))]), ny, -1)
  {
    hide Moved;
    hide Dest;
    ghost var g := b[..Cells(Half(nx), Half(ny))];
    var nx2, ny2 := Half(nx), Half(ny);
    LastSlot(nx2, ny);
    var k: int := ny2 * (nx2 - 1) + ny2 - 1;
    NothingMoved(b[..], g, ny, k);
    var i: int := nx2 - 1;
    while i >= 0
      invariant -1 <= i < nx2 && k == Slot(ny, i + 1, 0) - 1 && Moved(b[..], g, ny, k)
    {
      k := MoveRow(b, g, nx, ny, i, 2 * (ny * i + ny2 - 1), k);
      i := i - 1;
    }
  }

  lemma LastSlot(nx2: nat, ny: nat)
    requires nx2 > 0
    ensures Half(ny) * (nx2 - 1) + Half(ny) - 1 == Slot(ny, nx2, 0) - 1 == Cells(nx2, Half(ny)) - 1
    ensures Slot(ny, 0, 0) == 0
  {
  }

  // ---- expanding each nybble over its block ----

  // The cells of nx by ny spread out, and what lies behind them.
  ghost function Expanded(g: seq<nybble>, m: seq<int>, nx: nat, ny: nat): (r: seq<int>)
    requires |g| == Cells(Half(nx), Half(ny)) && Cells(nx, ny) <= |m|
    ensures |r| == |m|
  {
    Spread(g, nx, ny) + m[Cells(nx, ny)..]
  }

  // m is the scratch array after the move.
  ghost predicate Apart(m: seq<nybble>, g: seq<nybble>, nx: nat, ny: nat)
  {
    nx > 0 && ny > 0 && |g| == Cells(Half(nx), Half(ny)) && Cells(nx, ny) <= |m| && Moved(m, g, ny, -1)
  }

  ghost predicate Expanding(b: seq<nybble>, m: seq<nybble>, g: seq<nybble>, nx: nat, ny: nat, done: set<(int, int)>)
  {
    Apart(m, g, nx, ny) && |b| == |m| && Updating(b, m, Expanded(g, m, nx, ny), 0, ny, done)
  }

  lemma PlaceBelow(nx: nat, ny: nat, i: nat, j: nat)
    requires i < nx && j < ny
    ensures 0 <= Place(0, ny, i, j) < Cells(nx, ny) && Place(0, ny, i, j) == i * ny + j
  {
    IndexBound(i, j, nx, ny);
  }

  lemma ExpandedAt(g: seq<nybble>, m: seq<int>, nx: nat, ny: nat, ih: nat, jh: nat, x: nat, y: nat)
    requires |g| == Cells(Half(nx), Half(ny)) && Cells(nx, ny) <= |m| && x < 2 && y < 2 && 2 * ih + x < nx &&
             2 * jh + y < ny
    ensures Slot(ny, ih, jh) < |g| && 0 <= Place(0, ny, 2 * ih + x, 2 * jh + y) < |m|
    ensures Expanded(g, m, nx, ny)[Place(0, ny, 2 * ih + x, 2 * jh + y)] == Pick(g[Slot(ny, ih, jh)], x, y)
  {
    hide Pick;
    hide Spread;
    SlotBelow(nx, ny, ih, jh);
    PlaceBelow(nx, ny, 2 * ih + x, 2 * jh + y);
    SpreadAt(g, nx, ny, 2 * ih + x, 2 * jh + y);
  }

  method ReadCorner(b: array<nybble>, s: int, ghost m: seq<nybble>, ghost g: seq<nybble>, ghost nx: nat, ghost ny: nat,
                    ghost done: set<(int, int)>, ghost ih: nat, ghost jh: nat)
    returns (v: nybble)
    requires Expanding(b[..], m, g, nx, ny, done) && 2 * ih < nx && 2 * jh < ny && (2 * ih, 2 * jh) !in done
    requires s == Place(0, ny, 2 * ih, 2 * jh)
    ensures Slot(ny, ih, jh) < |g| && v == g[Slot(ny, ih, jh)]
  {
    hide Updating;
    hide Expanded;
    hide Place;
    hide Slot;
    hide Corner;
    hide Dest;
    hide Cells;
    SlotBelow(nx, ny, ih, jh);
    DestOf(ny, ih, jh);
    CornerBelow(nx, ny, ih, jh);
    GetOne(b[..], m, Expanded(g, m, nx, ny), 0, ny, done, 2 * ih, 2 * jh);
    assert HeldAt(m, g, Slot(ny, ih, jh), Dest(ny, Slot(ny, ih, jh)));
    v := b[s];
  }

  // Write one cell of the block of nybble v.
  method PutCell(b: array<nybble>, s: int, v: nybble, x: nat, y: nat, ghost m: seq<nybble>, ghost g: seq<nybble>,
                 ghost nx: nat, ghost ny: nat, ghost done: set<(int, int)>, ghost ih: nat, ghost jh: nat)
    requires Expanding(b[..], m, g, nx, ny, done) && x < 2 && y < 2 && 2 * ih + x < nx && 2 * jh + y < ny
    requires s == Place(0, ny, 2 * ih + x, 2 * jh + y) && Slot(ny, ih, jh) < |g| && v == g[Slot(ny, ih, jh)]
    modifies b
    ensures Expanding(b[..], m, g, nx, ny, done + {(2 * ih + x, 2 * jh + y)})
  {
    hide Updating;
    hide Moved;
    hide Expanded;
    hide Place;
    hide Slot;
    hide Cells;
    hide Half;
    hide Pick;
    ghost var r := Expanded(g, m, nx, ny);
    ExpandedAt(g, m, nx, ny, ih, jh, x, y);
    SetOne(b[..], m, r, 0, ny, done, 2 * ih + x, 2 * jh + y);
    ghost var was: seq<int> := b[..];
    b[s] := Pick(v, x, y);
    assert b[..] == was[s := Pick(v, x, y)];
  }

  method ExpandBand(b: array<nybble>, ghost m: seq<nybble>, ghost g: seq<nybble>, ghost nx: nat, ny: nat, ghost i: nat,
                    start: int, ghost ih: nat, ghost before: set<(int, int)>)
    returns (ghost done: set<(int, int)>)
    requires Expanding(b[..], m, g, nx, ny, before) && i == 2 * ih && i + 1 < nx && start == Place(0, ny, i, 0)
    requires Visited(before, nx, ny, i, 2, 0)
    modifies b
    ensures Expanding(b[..], m, g, nx, ny, done) && Visited(done, nx, ny, i, 2, ny)
  {
    hide Expanding;
    hide Visited;
    hide Place;
    hide Slot;
    hide Pick;
    done := before;
    ghost var jh := 0;
    PlaceNext(0, ny, i, 0);
    var s00, s10 := start, start + ny;
    var j := 0;
    while j < ny - 1
      invariant j == 2 * jh && j <= ny
      invariant s00 == Place(0, ny, i, j) && s10 == Place(0, ny, i + 1, j)
      invariant Expanding(b[..], m, g, nx, ny, done) && Visited(done, nx, ny, i, 2, j)
    {
      VisitFour(done, nx, ny, i, j);
      PlaceNext(0, ny, i, j);
      PlaceNext(0, ny, i + 1, j);
      var v := ReadCorner(b, s00, m, g, nx, ny, done, ih, jh);
      PutCell(b, s10 + 1, v, 1, 1, m, g, nx, ny, done, ih, jh);
      done := done + {(i + 1, j + 1)};
      PutCell(b, s10, v, 1, 0, m, g, nx, ny, done, ih, jh);
      done := done + {(i + 1, j)};
      PutCell(b, s00 + 1, v, 0, 1, m, g, nx, ny, done, ih, jh);
      done := done + {(i, j + 1)};
      PutCell(b, s00, v, 0, 0, m, g, nx, ny, done, ih, jh);
      done := done + {(i, j)};
      s00 := s00 + 2;
      s10 := s10 + 2;
      j := j + 2;
      jh := jh + 1;
    }
    if j < ny {
      VisitX(done, nx, ny, i, j);
      var v := ReadCorner(b, s00, m, g, nx, ny, done, ih, jh);
      PutCell(b, s10, v, 1, 0, m, g, nx, ny, done, ih, jh);
      done := done + {(i + 1, j)};
      PutCell(b, s00, v, 0, 0, m, g, nx, ny, done, ih, jh);
      done := done + {(i, j)};
    }
  }

  method ExpandLastRow(b: array<nybble>, ghost m: seq<nybble>, ghost g: seq<nybble>, ghost nx: nat, ny: nat,
                       ghost i: nat, start: int, ghost ih: nat, ghost before: set<(int, int)>)
    returns (ghost done: set<(int, int)>)
    requires Expanding(b[..], m, g, nx, ny, before) && i == 2 * ih && i + 1 == nx && start == Place(0, ny, i, 0)
    requires Visited(before, nx, ny, i, 1, 0)
    modifies b
    ensures Expanding(b[..], m, g, nx, ny, done) && Visited(done, nx, ny, i, 1, ny)
  {
    hide Expanding;
    hide Visited;
    hide Place;
    hide Slot;
    hide Pick;
    done := before;
    ghost var jh := 0;
    var s00 := start;
    var j := 0;
    while j < ny - 1
      invariant j == 2 * jh && j <= ny
      invariant s00 == Place(0, ny, i, j)
      invariant Expanding(b[..], m, g, nx, ny, done) && Visited(done, nx, ny, i, 1, j)
    {
      VisitY(done, nx, ny, i, j);
      PlaceNext(0, ny, i, j);
      var v := ReadCorner(b, s00, m, g, nx, ny, done, ih, jh);
      PutCell(b, s00 + 1, v, 0, 1, m, g, nx, ny, done, ih, jh);
      done := done + {(i, j + 1)};
      PutCell(b, s00, v, 0, 0, m, g, nx, ny, done, ih, jh);
      done := done + {(i, j)};
      s00 := s00 + 2;
      j := j + 2;
      jh := jh + 1;
    }
    if j < ny {
      VisitCorner(done, nx, ny, i, j);
      var v := ReadCorner(b, s00, m, g, nx, ny, done, ih, jh);
      PutCell(b, s00, v, 0, 0, m, g, nx, ny, done, ih, jh);
      done := done + {(i, j)};
    }
  }

  lemma NothingVisited(nx: nat, ny: nat)
    ensures Visited({}, nx, ny, 0, 2, 0)
  {
  }

  lemma OneRowBand(done: set<(int, int)>, nx: nat, ny: nat, i: nat)
    requires Visited(done, nx, ny, i, 2, 0)
    ensures Visited(done, nx, ny, i, 1, 0)
  {
  }

  lemma StartExpanding(m: seq<nybble>, g: seq<nybble>, nx: nat, ny: nat)
    requires Apart(m, g, nx, ny)
    ensures Expanding(m, m, g, nx, ny, {})
  {
    hide Row;
    hide Col;
    hide Moved;
  }

  lemma ExpandedFrame(g: seq<nybble>, m: seq<int>, nx: nat, ny: nat)
    requires |g| == Cells(Half(nx), Half(ny)) && Cells(nx, ny) <= |m| && ny > 0
    ensures Framed(m, Expanded(g, m, nx, ny), 0, ny, nx, ny)
  {
    hide Spread;
    var r := Expanded(g, m, nx, ny);
    forall x | 0 <= x < |r| && !InRect(x, 0, ny, nx, ny)
      ensures r[x] == m[x]
    {
      if x < Cells(nx, ny) {
        RowBelow(x, nx, ny);
      }
    }
  }

  lemma FinishExpanding(b: seq<nybble>, m: seq<nybble>, g: seq<nybble>, nx: nat, ny: nat, done: set<(int, int)>, i: nat)
    requires Expanding(b, m, g, nx, ny, done) && Visited(done, nx, ny, i, 2, 0) && i >= nx
    ensures Cells(nx, ny) <= |b| && b[..Cells(nx, ny)] == Spread(g, nx, ny)
  {
    hide Updating;
    hide Moved;
    hide Visited;
    hide Framed;
    hide Spread;
    var r := Expanded(g, m, nx, ny);
    ExpandedFrame(g, m, nx, ny);
    AllSet(b, m, r, 0, ny, nx, ny, done, i, 2);
    var c := Cells(nx, ny);
    assert b[..c] == r[..c];
  }

  // The level at the front of b, spread over the cells of the next one, takes its place.
  method QtreeCopy(b: array<nybble>, nx: nat, ny: nat)
    requires nx > 0 && ny > 0 && Cells(nx, ny) <= b.Length
    modifies b
    ensures Cells(Half(nx), Half(ny)) <= b.Length
    ensures b[..Cells(nx, ny)] == Spread(old(b[..Cells(Half(nx), Half(ny))]), nx, ny)
  {
    hide Expanding;
    hide Visited;
    hide Moved;
    hide Cells;
    hide Half;
    hide Spread;
    HalfCells(nx, ny);
    ghost var g := b[..Cells(Half(nx), Half(ny))];
    MoveApart(b, nx, ny);
    ghost var m, ih := b[..], 0;
    ghost var done: set<(int, int)> := {};
    StartExpanding(m, g, nx, ny);
    NothingVisited(nx, ny);
    var i := 0;
    while i < nx - 1
      invariant i == 2 * ih && i <= nx && Expanding(b[..], m, g, nx, ny, done) && Visited(done, nx, ny, i, 2, 0)
    {
      StartOfRow(0, ny, i);
      done := ExpandBand(b, m, g, nx, ny, i, ny * i, ih, done);
      VisitedBand(done, nx, ny, i, 2, ny, 2);
      i := i + 2;
      ih := ih + 1;
    }
    if i < nx {
      StartOfRow(0, ny, i);
      OneRowBand(done, nx, ny, i);
      done := ExpandLastRow(b, m, g, nx, ny, i, ny * i, ih, done);
      VisitedBand(done, nx, ny, i, 1, ny, 2);
      i := i + 1;
    }
    FinishExpanding(b[..], m, g, nx, ny, done, i);
    assert b[..][..Cells(nx, ny)] == b[..Cells(nx, ny)];
  }
}
