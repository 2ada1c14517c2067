/** The in-place butterfly loops of the H-transform and of its inverse. */
module HButterfly {
  import opened Powers
  import opened Grids
  import opened HQuad
  import opened HBlock
  import opened HLevel

  // The cells in done hold r's values and all others still hold m's.
  ghost predicate Mixed(w: Grid, m: Grid, r: Grid, nx: nat, ny: nat, done: set<(int, int)>)
  {
    IsGrid(w, nx, ny) && IsGrid(m, nx, ny) && IsGrid(r, nx, ny) &&
    forall p, q {:trigger w[p][q]} :: 0 <= p < nx && 0 <= q < ny ==>
      w[p][q] == if (p, q) in done then r[p][q] else m[p][q]
  }

  ghost predicate Holds(a: array<int>, m: Grid, r: Grid, nx: nat, ny: nat, done: set<(int, int)>)
    reads a
  {
    a.Length == nx * ny && Mixed(View(a[..], nx, ny), m, r, nx, ny, done)
  }

  method Get(a: array<int>, s: int, ghost m: Grid, ghost r: Grid, ghost nx: nat, ghost ny: nat,
             ghost done: set<(int, int)>, ghost i: nat, ghost j: nat)
    returns (v: int)
    requires Holds(a, m, r, nx, ny, done) && i < nx && j < ny && s == i * ny + j && (i, j) !in done
    ensures v == m[i][j]
  {
    ViewGet(a[..], nx, ny, i, j);
    v := a[s];
  }

  method Put(a: array<int>, s: int, v: int, ghost m: Grid, ghost r: Grid, ghost nx: nat, ghost ny: nat,
             ghost done: set<(int, int)>, ghost i: nat, ghost j: nat)
    requires Holds(a, m, r, nx, ny, done) && i < nx && j < ny && s == i * ny + j && v == r[i][j]
    modifies a
    ensures Holds(a, m, r, nx, ny, done + {(i, j)})
  {
    ViewSet(a[..], nx, ny, i, j, v);
    a[s] := v;
    assert a[..] == old(a[..])[s := v];
  }

  // The places visited before row i, column j, where rows are taken in bands of h.
  ghost predicate Visited(done: set<(int, int)>, nxt: nat, nyt: nat, i: int, h: nat, j: int)
  {
    forall p, q :: (p, q) in done <==> 0 <= p < nxt && 0 <= q < nyt && (p < i || (p < i + h && q < j))
  }

  // A finished band leaves its rows behind.
  lemma VisitedBand(done: set<(int, int)>, nxt: nat, nyt: nat, i: int, h: nat, j: int, next: nat)
    requires Visited(done, nxt, nyt, i, h, j) && j >= nyt
    ensures Visited(done, nxt, nyt, i + h, next, 0)
  {
  }

  lemma VisitFour(done: set<(int, int)>, nxt: nat, nyt: nat, i: nat, j: nat)
    requires Visited(done, nxt, nyt, i, 2, j) && i + 1 < nxt && j + 1 < nyt
    ensures (i + 1, j + 1) !in done && (i + 1, j) !in done && (i, j + 1) !in done && (i, j) !in done
    ensures Visited(done + {(i + 1, j + 1)} + {(i + 1, j)} + {(i, j + 1)} + {(i, j)}, nxt, nyt, i, 2, j + 2)
  {
  }

  lemma VisitX(done: set<(int, int)>, nxt: nat, nyt: nat, i: nat, j: nat)
    requires Visited(done, nxt, nyt, i, 2, j) && i + 1 < nxt && j < nyt
    ensures (i + 1, j) !in done && (i, j) !in done
    ensures Visited(done + {(i + 1, j)} + {(i, j)}, nxt, nyt, i, 2, j + 1)
  {
  }

  lemma VisitY(done: set<(int, int)>, nxt: nat, nyt: nat, i: nat, j: nat)
    requires Visited(done, nxt, nyt, i, 1, j) && i < nxt && j + 1 < nyt
    ensures (i, j + 1) !in done && (i, j) !in done
    ensures Visited(done + {(i, j + 1)} + {(i, j)}, nxt, nyt, i, 1, j + 2)
  {
  }

  lemma VisitCorner(done: set<(int, int)>, nxt: nat, nyt: nat, i: nat, j: nat)
    requires Visited(done, nxt, nyt, i, 1, j) && i < nxt && j < nyt
    ensures (i, j) !in done
    ensures Visited(done + {(i, j)}, nxt, nyt, i, 1, j + 1)
  {
  }

  lemma AllVisited(w: Grid, m: Grid, r: Grid, nx: nat, ny: nat, nxt: nat, nyt: nat, done: set<(int, int)>, i: int,
                   h: nat)
    requires Mixed(w, m, r, nx, ny, done) && Visited(done, nxt, nyt, i, h, 0) && i >= nxt
    requires nxt <= nx && nyt <= ny
    requires forall p, q :: 0 <= p < nx && 0 <= q < ny && !(p < nxt && q < nyt) ==> r[p][q] == m[p][q]
    ensures w == r
  {
    GridsEqual(w, r, nx, ny);
  }

  // One whole 2x2 block.
  method ForwardStepFour(a: array<int>, s00: int, s10: int, d: nat, u: nat, ghost m: Grid, ghost nx: nat, ghost ny: nat,
                         ghost nxt: nat, ghost nyt: nat, ghost done: set<(int, int)>, ghost i: nat, ghost j: nat)
    requires Block(m, nx, ny, nxt, nyt) && u > 0 && (d == 1 || d == 2)
    requires Holds(a, m, Forward(m, nx, ny, nxt, nyt, u, d), nx, ny, done)
    requires i + 1 < nxt && j + 1 < nyt && i % 2 == j % 2 == 0
    requires (i + 1, j + 1) !in done && (i + 1, j) !in done && (i, j + 1) !in done && (i, j) !in done
    requires s00 == i * ny + j && s10 == (i + 1) * ny + j
    modifies a
    ensures Holds(a, m, Forward(m, nx, ny, nxt, nyt, u, d), nx, ny,
                  done + {(i + 1, j + 1)} + {(i + 1, j)} + {(i, j + 1)} + {(i, j)})
  {
    ghost var r := Forward(m, nx, ny, nxt, nyt, u, d);
    ForwardCoefficients(m, nx, ny, nxt, nyt, u, d, i, j);
    hide Forward;
    hide ForwardCell;
    hide Holds;
    hide RoundSum;
    hide RoundSide;
    var p11 := Get(a, s10 + 1, m, r, nx, ny, done, i + 1, j + 1);
    var p10 := Get(a, s10, m, r, nx, ny, done, i + 1, j);
    var p01 := Get(a, s00 + 1, m, r, nx, ny, done, i, j + 1);
    var p00 := Get(a, s00, m, r, nx, ny, done, i, j);
    var h0 := (p11 + p10 + p01 + p00) / d;
    var hx := (p11 + p10 - p01 - p00) / d;
    var hy := (p11 - p10 + p01 - p00) / d;
    var hc := (p11 - p10 - p01 + p00) / d;
    ghost var dn := done;
    Put(a, s10 + 1, hc, m, r, nx, ny, dn, i + 1, j + 1);
    dn := dn + {(i + 1, j + 1)};
    Put(a, s10, RoundSide(hx, u), m, r, nx, ny, dn, i + 1, j);
    dn := dn + {(i + 1, j)};
    Put(a, s00 + 1, RoundSide(hy, u), m, r, nx, ny, dn, i, j + 1);
    dn := dn + {(i, j + 1)};
    Put(a, s00, RoundSum(h0, u), m, r, nx, ny, dn, i, j);
  }

  // The last element of a row pair when the row length is odd.
  method ForwardStepEdgeX(a: array<int>, s00: int, s10: int, d: nat, u: nat, ghost m: Grid, ghost nx: nat,
                          ghost ny: nat, ghost nxt: nat, ghost nyt: nat, ghost done: set<(int, int)>, ghost i: nat,
                          ghost j: nat)
    requires Block(m, nx, ny, nxt, nyt) && u > 0 && (d == 1 || d == 2)
    requires Holds(a, m, Forward(m, nx, ny, nxt, nyt, u, d), nx, ny, done)
    requires i + 1 < nxt && j + 1 == nyt && i % 2 == j % 2 == 0
    requires (i + 1, j) !in done && (i, j) !in done
    requires s00 == i * ny + j && s10 == (i + 1) * ny + j
    modifies a
    ensures Holds(a, m, Forward(m, nx, ny, nxt, nyt, u, d), nx, ny,
                  done + {(i + 1, j)} + {(i, j)})
  {
    ghost var r := Forward(m, nx, ny, nxt, nyt, u, d);
    ForwardCoefficients(m, nx, ny, nxt, nyt, u, d, i, j);
    hide Forward;
    hide ForwardCell;
    hide Holds;
    hide RoundSum;
    hide RoundSide;
    var p1 := Get(a, s10, m, r, nx, ny, done, i + 1, j);
    var p0 := Get(a, s00, m, r, nx, ny, done, i, j);
    var h0 := Widen(p1 + p0, d);
    var hx := Widen(p1 - p0, d);
    ghost var dn := done;
    Put(a, s10, RoundSide(hx, u), m, r, nx, ny, dn, i + 1, j);
    dn := dn + {(i + 1, j)};
    Put(a, s00, RoundSum(h0, u), m, r, nx, ny, dn, i, j);
  }

  // Two elements of the last row when the column length is odd.
  method ForwardStepEdgeY(a: array<int>, s00: int, d: nat, u: nat, ghost m: Grid, ghost nx: nat, ghost ny: nat,
                          ghost nxt: nat, ghost nyt: nat, ghost done: set<(int, int)>, ghost i: nat, ghost j: nat)
    requires Block(m, nx, ny, nxt, nyt) && u > 0 && (d == 1 || d == 2)
    requires Holds(a, m, Forward(m, nx, ny, nxt, nyt, u, d), nx, ny, done)
    requires i + 1 == nxt && j + 1 < nyt && i % 2 == j % 2 == 0
    requires (i, j + 1) !in done && (i, j) !in done
    requires s00 == i * ny + j
    modifies a
    ensures Holds(a, m, Forward(m, nx, ny, nxt, nyt, u, d), nx, ny,
                  done + {(i, j + 1)} + {(i, j)})
  {
    ghost var r := Forward(m, nx, ny, nxt, nyt, u, d);
    ForwardCoefficients(m, nx, ny, nxt, nyt, u, d, i, j);
    hide Forward;
    hide ForwardCell;
    hide Holds;
    hide RoundSum;
    hide RoundSide;
    var p1 := Get(a, s00 + 1, m, r, nx, ny, done, i, j + 1);
    var p0 := Get(a, s00, m, r, nx, ny, done, i, j);
    var h0 := Widen(p1 + p0, d);
    var hy := Widen(p1 - p0, d);
    ghost var dn := done;
    Put(a, s00 + 1, RoundSide(hy, u), m, r, nx, ny, dn, i, j + 1);
    dn := dn + {(i, j + 1)};
    Put(a, s00, RoundSum(h0, u), m, r, nx, ny, dn, i, j);
  }

  // The corner element when both lengths are odd.
  method ForwardStepCorner(a: array<int>, s00: int, d: nat, u: nat, ghost m: Grid, ghost nx: nat, ghost ny: nat,
                           ghost nxt: nat, ghost nyt: nat, ghost done: set<(int, int)>, ghost i: nat, ghost j: nat)
    requires Block(m, nx, ny, nxt, nyt) && u > 0 && (d == 1 || d == 2)
    requires Holds(a, m, Forward(m, nx, ny, nxt, nyt, u, d), nx, ny, done)
    requires i + 1 == nxt && j + 1 == nyt && i % 2 == j % 2 == 0
    requires (i, j) !in done
    requires s00 == i * ny + j
    modifies a
    ensures Holds(a, m, Forward(m, nx, ny, nxt, nyt, u, d), nx, ny,
                  done + {(i, j)})
  {
    ghost var r := Forward(m, nx, ny, nxt, nyt, u, d);
    ForwardCoefficients(m, nx, ny, nxt, nyt, u, d, i, j);
    hide Forward;
    hide ForwardCell;
    hide Holds;
    hide RoundSum;
    hide RoundSide;
    var p := Get(a, s00, m, r, nx, ny, done, i, j);
    ghost var dn := done;
    Put(a, s00, RoundSum(2 * Widen(p, d), u), m, r, nx, ny, dn, i, j);
  }

  // The pixels that the inverse step leaves in the block whose first cell is (p, q).
  lemma InversePlaces(m: Grid, nx: nat, ny: nat, nxt: nat, nyt: nat, u: nat, e: nat, p: nat, q: nat)
    requires Block(m, nx, ny, nxt, nyt) && p < nxt && q < nyt && p % 2 == q % 2 == 0 && u > 0 && e > 0
    ensures var r := Inverse(m, nx, ny, nxt, nyt, u, e);
            if p + 1 < nxt && q + 1 < nyt then
              (r[p][q], r[p][q + 1], r[p + 1][q], r[p + 1][q + 1])
                == InversePixels(Quad(m[p][q], m[p + 1][q], m[p][q + 1], m[p + 1][q + 1]), u, e)
            else if p + 1 < nxt then
              (r[p][q], r[p + 1][q]) == InversePair(m[p][q], m[p + 1][q], u, e)
            else if q + 1 < nyt then
              (r[p][q], r[p][q + 1]) == InversePair(m[p][q], m[p][q + 1], u, e)
            else
              r[p][q] == InverseCorner(m[p][q], e)
  {
    hide InversePixels;
    hide InversePair;
    hide InverseCorner;
    assert (p + 1) % 2 == (q + 1) % 2 == 1;
  }

  // One whole 2x2 block.
  method InverseStepFour(a: array<int>, s00: int, s10: int, e: nat, u: nat, ghost m: Grid, ghost nx: nat, ghost ny: nat,
                         ghost nxt: nat, ghost nyt: nat, ghost done: set<(int, int)>, ghost i: nat, ghost j: nat)
    requires Block(m, nx, ny, nxt, nyt) && u > 0 && e > 0
    requires Holds(a, m, Inverse(m, nx, ny, nxt, nyt, u, e), nx, ny, done)
    requires i + 1 < nxt && j + 1 < nyt && i % 2 == j % 2 == 0
    requires (i + 1, j + 1) !in done && (i + 1, j) !in done && (i, j + 1) !in done && (i, j) !in done
    requires s00 == i * ny + j && s10 == (i + 1) * ny + j
    modifies a
    ensures Holds(a, m, Inverse(m, nx, ny, nxt, nyt, u, e), nx, ny,
                  done + {(i + 1, j + 1)} + {(i + 1, j)} + {(i, j + 1)} + {(i, j)})
  {
    ghost var r := Inverse(m, nx, ny, nxt, nyt, u, e);
    InversePlaces(m, nx, ny, nxt, nyt, u, e, i, j);
    hide Inverse;
    hide InverseCell;
    hide Holds;
    hide Restore;
    hide SnapSide;
    var h0 := Get(a, s00, m, r, nx, ny, done, i, j);
    var hx := Get(a, s10, m, r, nx, ny, done, i + 1, j);
    var hy := Get(a, s00 + 1, m, r, nx, ny, done, i, j + 1);
    var hc := Get(a, s10 + 1, m, r, nx, ny, done, i + 1, j + 1);
    var q := Restore(Quad(h0, hx, hy, hc), u);
    ghost var dn := done;
    Put(a, s10 + 1, (q.h0 + q.hx + q.hy + q.hc) / e, m, r, nx, ny, dn, i + 1, j + 1);
    dn := dn + {(i + 1, j + 1)};
    Put(a, s10, (q.h0 + q.hx - q.hy - q.hc) / e, m, r, nx, ny, dn, i + 1, j);
    dn := dn + {(i + 1, j)};
    Put(a, s00 + 1, (q.h0 - q.hx + q.hy - q.hc) / e, m, r, nx, ny, dn, i, j + 1);
    dn := dn + {(i, j + 1)};
    Put(a, s00, (q.h0 - q.hx - q.hy + q.hc) / e, m, r, nx, ny, dn, i, j);
  }

  // The last element of a row pair when the row length is odd.
  method InverseStepEdgeX(a: array<int>, s00: int, s10: int, e: nat, u: nat, ghost m: Grid, ghost nx: nat,
                          ghost ny: nat, ghost nxt: nat, ghost nyt: nat, ghost done: set<(int, int)>, ghost i: nat,
                          ghost j: nat)
    requires Block(m, nx, ny, nxt, nyt) && u > 0 && e > 0
    requires Holds(a, m, Inverse(m, nx, ny, nxt, nyt, u, e), nx, ny, done)
    requires i + 1 < nxt && j + 1 == nyt && i % 2 == j % 2 == 0
    requires (i + 1, j) !in done && (i, j) !in done
    requires s00 == i * ny + j && s10 == (i + 1) * ny + j
    modifies a
    ensures Holds(a, m, Inverse(m, nx, ny, nxt, nyt, u, e), nx, ny,
                  done + {(i + 1, j)} + {(i, j)})
  {
    ghost var r := Inverse(m, nx, ny, nxt, nyt, u, e);
    InversePlaces(m, nx, ny, nxt, nyt, u, e, i, j);
    hide Inverse;
    hide InverseCell;
    hide Holds;
    hide Restore;
    hide SnapSide;
    var h0 := Get(a, s00, m, r, nx, ny, done, i, j);
    var hx := Get(a, s10, m, r, nx, ny, done, i + 1, j);
    hx := SnapSide(hx, u);
    h0 := Toward(h0, LowBit(hx, 2 * u));
    ghost var dn := done;
    Put(a, s10, (h0 + hx) / e, m, r, nx, ny, dn, i + 1, j);
    dn := dn + {(i + 1, j)};
    Put(a, s00, (h0 - hx) / e, m, r, nx, ny, dn, i, j);
  }

  // Two elements of the last row when the column length is odd.
  method InverseStepEdgeY(a: array<int>, s00: int, e: nat, u: nat, ghost m: Grid, ghost nx: nat, ghost ny: nat,
                          ghost nxt: nat, ghost nyt: nat, ghost done: set<(int, int)>, ghost i: nat, ghost j: nat)
    requires Block(m, nx, ny, nxt, nyt) && u > 0 && e > 0
    requires Holds(a, m, Inverse(m, nx, ny, nxt, nyt, u, e), nx, ny, done)
    requires i + 1 == nxt && j + 1 < nyt && i % 2 == j % 2 == 0
    requires (i, j + 1) !in done && (i, j) !in done
    requires s00 == i * ny + j
    modifies a
    ensures Holds(a, m, Inverse(m, nx, ny, nxt, nyt, u, e), nx, ny,
                  done + {(i, j + 1)} + {(i, j)})
  {
    ghost var r := Inverse(m, nx, ny, nxt, nyt, u, e);
    InversePlaces(m, nx, ny, nxt, nyt, u, e, i, j);
    hide Inverse;
    hide InverseCell;
    hide Holds;
    hide Restore;
    hide SnapSide;
    var h0 := Get(a, s00, m, r, nx, ny, done, i, j);
    var hy := Get(a, s00 + 1, m, r, nx, ny, done, i, j + 1);
    hy := SnapSide(hy, u);
    h0 := Toward(h0, LowBit(hy, 2 * u));
    ghost var dn := done;
    Put(a, s00 + 1, (h0 + hy) / e, m, r, nx, ny, dn, i, j + 1);
    dn := dn + {(i, j + 1)};
    Put(a, s00, (h0 - hy) / e, m, r, nx, ny, dn, i, j);
  }

  // The corner element when both lengths are odd.
  method InverseStepCorner(a: array<int>, s00: int, e: nat, u: nat, ghost m: Grid, ghost nx: nat, ghost ny: nat,
                           ghost nxt: nat, ghost nyt: nat, ghost done: set<(int, int)>, ghost i: nat, ghost j: nat)
    requires Block(m, nx, ny, nxt, nyt) && u > 0 && e > 0
    requires Holds(a, m, Inverse(m, nx, ny, nxt, nyt, u, e), nx, ny, done)
    requires i + 1 == nxt && j + 1 == nyt && i % 2 == j % 2 == 0
    requires (i, j) !in done
    requires s00 == i * ny + j
    modifies a
    ensures Holds(a, m, Inverse(m, nx, ny, nxt, nyt, u, e), nx, ny,
                  done + {(i, j)})
  {
    ghost var r := Inverse(m, nx, ny, nxt, nyt, u, e);
    InversePlaces(m, nx, ny, nxt, nyt, u, e, i, j);
    hide Inverse;
    hide InverseCell;
    hide Holds;
    hide Restore;
    hide SnapSide;
    var h0 := Get(a, s00, m, r, nx, ny, done, i, j);
    ghost var dn := done;
    Put(a, s00, h0 / e, m, r, nx, ny, dn, i, j);
  }

  // Rows i and i + 1.
  method ForwardBand(a: array<int>, ghost nx: nat, ny: nat, ghost nxtop: nat, nytop: nat, d: nat, u: nat, i: nat,
                     ghost m: Grid, ghost before: set<(int, int)>)
    returns (ghost done: set<(int, int)>)
    requires Block(m, nx, ny, nxtop, nytop) && u > 0 && (d == 1 || d == 2) && i + 1 < nxtop && i % 2 == 0
    requires Holds(a, m, Forward(m, nx, ny, nxtop, nytop, u, d), nx, ny, before)
    requires Visited(before, nxtop, nytop, i, 2, 0)
    modifies a
    ensures Holds(a, m, Forward(m, nx, ny, nxtop, nytop, u, d), nx, ny, done)
    ensures Visited(done, nxtop, nytop, i, 2, nytop)
  {
    done := before;
    var oddy := nytop % 2;
    var s00 := i * ny;
    var s10 := s00 + ny;
    assert s10 == (i + 1) * ny;
    var j := 0;
    hide Forward;
    hide ForwardCell;
    hide Holds;
    hide Visited;
    while j < nytop - oddy
      invariant 0 <= j <= nytop - oddy && j % 2 == 0 && (nytop - oddy) % 2 == 0
      invariant s00 == i * ny + j && s10 == (i + 1) * ny + j
      invariant Holds(a, m, Forward(m, nx, ny, nxtop, nytop, u, d), nx, ny, done)
      invariant Visited(done, nxtop, nytop, i, 2, j)
    {
      VisitFour(done, nxtop, nytop, i, j);
      ForwardStepFour(a, s00, s10, d, u, m, nx, ny, nxtop, nytop, done, i, j);
      done := done + {(i + 1, j + 1)} + {(i + 1, j)} + {(i, j + 1)} + {(i, j)};
      s00 := s00 + 2;
      s10 := s10 + 2;
      j := j + 2;
    }
    if oddy != 0 {
      VisitX(done, nxtop, nytop, i, j);
      ForwardStepEdgeX(a, s00, s10, d, u, m, nx, ny, nxtop, nytop, done, i, j);
      done := done + {(i + 1, j)} + {(i, j)};
    }
  }

  // The last row when the column length is odd.
  method ForwardLastRow(a: array<int>, ghost nx: nat, ny: nat, ghost nxtop: nat, nytop: nat, d: nat, u: nat, i: nat,
                        ghost m: Grid, ghost before: set<(int, int)>)
    returns (ghost done: set<(int, int)>)
    requires Block(m, nx, ny, nxtop, nytop) && u > 0 && (d == 1 || d == 2) && i + 1 == nxtop && i % 2 == 0
    requires Holds(a, m, Forward(m, nx, ny, nxtop, nytop, u, d), nx, ny, before)
    requires Visited(before, nxtop, nytop, i, 1, 0)
    modifies a
    ensures Holds(a, m, Forward(m, nx, ny, nxtop, nytop, u, d), nx, ny, done)
    ensures Visited(done, nxtop, nytop, i, 1, nytop)
  {
    done := before;
    var oddy := nytop % 2;
    var s00 := i * ny;
    var j := 0;
    hide Forward;
    hide ForwardCell;
    hide Holds;
    hide Visited;
    while j < nytop - oddy
      invariant 0 <= j <= nytop - oddy && j % 2 == 0 && (nytop - oddy) % 2 == 0
      invariant s00 == i * ny + j
      invariant Holds(a, m, Forward(m, nx, ny, nxtop, nytop, u, d), nx, ny, done)
      invariant Visited(done, nxtop, nytop, i, 1, j)
    {
      VisitY(done, nxtop, nytop, i, j);
      ForwardStepEdgeY(a, s00, d, u, m, nx, ny, nxtop, nytop, done, i, j);
      done := done + {(i, j + 1)} + {(i, j)};
      s00 := s00 + 2;
      j := j + 2;
    }
    if oddy != 0 {
      VisitCorner(done, nxtop, nytop, i, j);
      ForwardStepCorner(a, s00, d, u, m, nx, ny, nxtop, nytop, done, i, j);
      done := done + {(i, j)};
    }
  }

  method ForwardBlock(a: array<int>, ghost nx: nat, ny: nat, nxtop: nat, nytop: nat, d: nat, u: nat)
    requires a.Length == nx * ny && nxtop <= nx && nytop <= ny && u > 0 && (d == 1 || d == 2)
    modifies a
    ensures View(a[..], nx, ny) == Forward(View(old(a[..]), nx, ny), nx, ny, nxtop, nytop, u, d)
  {
    ghost var m := View(a[..], nx, ny);
    ghost var r := Forward(m, nx, ny, nxtop, nytop, u, d);
    ghost var done: set<(int, int)> := {};
    var oddx := nxtop % 2;
    var i := 0;
    hide Forward;
    hide ForwardCell;
    while i < nxtop - oddx
      invariant 0 <= i <= nxtop - oddx && i % 2 == 0 && (nxtop - oddx) % 2 == 0
      invariant Holds(a, m, r, nx, ny, done)
      invariant Visited(done, nxtop, nytop, i, 2, 0)
    {
      done := ForwardBand(a, nx, ny, nxtop, nytop, d, u, i, m, done);
      VisitedBand(done, nxtop, nytop, i, 2, nytop, 2);
      i := i + 2;
    }
    if oddx != 0 {
      done := ForwardLastRow(a, nx, ny, nxtop, nytop, d, u, i, m, done);
      VisitedBand(done, nxtop, nytop, i, 1, nytop, 2);
      i := i + 1;
    }
    AllVisited(View(a[..], nx, ny), m, r, nx, ny, nxtop, nytop, done, i, 2);
  }

  // Rows i and i + 1.
  method InverseBand(a: array<int>, ghost nx: nat, ny: nat, ghost nxtop: nat, nytop: nat, e: nat, u: nat, i: nat,
                     ghost m: Grid, ghost before: set<(int, int)>)
    returns (ghost done: set<(int, int)>)
    requires Block(m, nx, ny, nxtop, nytop) && u > 0 && e > 0 && i + 1 < nxtop && i % 2 == 0
    requires Holds(a, m, Inverse(m, nx, ny, nxtop, nytop, u, e), nx, ny, before)
    requires Visited(before, nxtop, nytop, i, 2, 0)
    modifies a
    ensures Holds(a, m, Inverse(m, nx, ny, nxtop, nytop, u, e), nx, ny, done)
    ensures Visited(done, nxtop, nytop, i, 2, nytop)
  {
    done := before;
    var oddy := nytop % 2;
    var s00 := i * ny;
    var s10 := s00 + ny;
    assert s10 == (i + 1) * ny;
    var j := 0;
    hide Inverse;
    hide InverseCell;
    hide Holds;
    hide Visited;
    while j < nytop - oddy
      invariant 0 <= j <= nytop - oddy && j % 2 == 0 && (nytop - oddy) % 2 == 0
      invariant s00 == i * ny + j && s10 == (i + 1) * ny + j
      invariant Holds(a, m, Inverse(m, nx, ny, nxtop, nytop, u, e), nx, ny, done)
      invariant Visited(done, nxtop, nytop, i, 2, j)
    {
      VisitFour(done, nxtop, nytop, i, j);
      InverseStepFour(a, s00, s10, e, u, m, nx, ny, nxtop, nytop, done, i, j);
      done := done + {(i + 1, j + 1)} + {(i + 1, j)} + {(i, j + 1)} + {(i, j)};
      s00 := s00 + 2;
      s10 := s10 + 2;
      j := j + 2;
    }
    if oddy != 0 {
      VisitX(done, nxtop, nytop, i, j);
      InverseStepEdgeX(a, s00, s10, e, u, m, nx, ny, nxtop, nytop, done, i, j);
      done := done + {(i + 1, j)} + {(i, j)};
    }
  }

  // The last row when the column length is odd.
  method InverseLastRow(a: array<int>, ghost nx: nat, ny: nat, ghost nxtop: nat, nytop: nat, e: nat, u: nat, i: nat,
                        ghost m: Grid, ghost before: set<(int, int)>)
    returns (ghost done: set<(int, int)>)
    requires Block(m, nx, ny, nxtop, nytop) && u > 0 && e > 0 && i + 1 == nxtop && i % 2 == 0
    requires Holds(a, m, Inverse(m, nx, ny, nxtop, nytop, u, e), nx, ny, before)
    requires Visited(before, nxtop, nytop, i, 1, 0)
    modifies a
    ensures Holds(a, m, Inverse(m, nx, ny, nxtop, nytop, u, e), nx, ny, done)
    ensures Visited(done, nxtop, nytop, i, 1, nytop)
  {
    done := before;
    var oddy := nytop % 2;
    var s00 := i * ny;
    var j := 0;
    hide Inverse;
    hide InverseCell;
    hide Holds;
    hide Visited;
    while j < nytop - oddy
      invariant 0 <= j <= nytop - oddy && j % 2 == 0 && (nytop - oddy) % 2 == 0
      invariant s00 == i * ny + j
      invariant Holds(a, m, Inverse(m, nx, ny, nxtop, nytop, u, e), nx, ny, done)
      invariant Visited(done, nxtop, nytop, i, 1, j)
    {
      VisitY(done, nxtop, nytop, i, j);
      InverseStepEdgeY(a, s00, e, u, m, nx, ny, nxtop, nytop, done, i, j);
      done := done + {(i, j + 1)} + {(i, j)};
      s00 := s00 + 2;
      j := j + 2;
    }
    if oddy != 0 {
      VisitCorner(done, nxtop, nytop, i, j);
      InverseStepCorner(a, s00, e, u, m, nx, ny, nxtop, nytop, done, i, j);
      done := done + {(i, j)};
    }
  }

  method InverseBlock(a: array<int>, ghost nx: nat, ny: nat, nxtop: nat, nytop: nat, e: nat, u: nat)
    requires a.Length == nx * ny && nxtop <= nx && nytop <= ny && u > 0 && e > 0
    modifies a
    ensures View(a[..], nx, ny) == Inverse(View(old(a[..]), nx, ny), nx, ny, nxtop, nytop, u, e)
  {
    ghost var m := View(a[..], nx, ny);
    ghost var r := Inverse(m, nx, ny, nxtop, nytop, u, e);
    ghost var done: set<(int, int)> := {};
    var oddx := nxtop % 2;
    var i := 0;
    hide Inverse;
    hide InverseCell;
    while i < nxtop - oddx
      invariant 0 <= i <= nxtop - oddx && i % 2 == 0 && (nxtop - oddx) % 2 == 0
      invariant Holds(a, m, r, nx, ny, done)
      invariant Visited(done, nxtop, nytop, i, 2, 0)
    {
      done := InverseBand(a, nx, ny, nxtop, nytop, e, u, i, m, done);
      VisitedBand(done, nxtop, nytop, i, 2, nytop, 2);
      i := i + 2;
    }
    if oddx != 0 {
      done := InverseLastRow(a, nx, ny, nxtop, nytop, e, u, i, m, done);
      VisitedBand(done, nxtop, nytop, i, 1, nytop, 2);
      i := i + 1;
    }
    AllVisited(View(a[..], nx, ny), m, r, nx, ny, nxtop, nytop, done, i, 2);
  }
}
