/** One level of the H-transform: the butterflies over a block, on grids. */
module HLevel {
  import opened Powers
  import opened Grids
  import opened HQuad
  import opened HBlock

  ghost predicate Block(m: Grid, nx: nat, ny: nat, nxt: nat, nyt: nat)
  {
    IsGrid(m, nx, ny) && nxt <= nx && nyt <= ny
  }

  // What the forward step leaves at (i, j): its 2x2 block's coefficient of that place.
  ghost function ForwardCell(m: Grid, nx: nat, ny: nat, nxt: nat, nyt: nat, u: nat, d: nat, i: nat, j: nat): int
    requires Block(m, nx, ny, nxt, nyt) && i < nxt && j < nyt && u > 0 && (d == 1 || d == 2)
  {
    var p, q := i - i % 2, j - j % 2;
    if p + 1 < nxt && q + 1 < nyt then
      var h := ForwardQuad(m[p][q], m[p][q + 1], m[p + 1][q], m[p + 1][q + 1], u, d);
      if i == p then (if j == q then h.h0 else h.hy) else (if j == q then h.hx else h.hc)
    else if p + 1 < nxt then
      var h := ForwardPair(m[p][q], m[p + 1][q], u, d);
      if i == p then h.0 else h.1
    else if q + 1 < nyt then
      var h := ForwardPair(m[p][q], m[p][q + 1], u, d);
      if j == q then h.0 else h.1
    else
      ForwardCorner(m[p][q], u, d)
  }

  ghost function InverseCell(m: Grid, nx: nat, ny: nat, nxt: nat, nyt: nat, u: nat, e: nat, i: nat, j: nat): int
    requires Block(m, nx, ny, nxt, nyt) && i < nxt && j < nyt && u > 0 && e > 0
  {
    var p, q := i - i % 2, j - j % 2;
    if p + 1 < nxt && q + 1 < nyt then
      var r := InversePixels(Quad(m[p][q], m[p + 1][q], m[p][q + 1], m[p + 1][q + 1]), u, e);
      if i == p then (if j == q then r.0 else r.1) else (if j == q then r.2 else r.3)
    else if p + 1 < nxt then
      var r := InversePair(m[p][q], m[p + 1][q], u, e);
      if i == p then r.0 else r.1
    else if q + 1 < nyt then
      var r := InversePair(m[p][q], m[p][q + 1], u, e);
      if j == q then r.0 else r.1
    else
      InverseCorner(m[p][q], e)
  }

  ghost function Forward(m: Grid, nx: nat, ny: nat, nxt: nat, nyt: nat, u: nat, d: nat): (r: Grid)
    requires Block(m, nx, ny, nxt, nyt) && u > 0 && (d == 1 || d == 2)
    ensures IsGrid(r, nx, ny)
    ensures forall i, j {:trigger r[i][j]} :: 0 <= i < nx && 0 <= j < ny ==>
              r[i][j] == if i < nxt && j < nyt then ForwardCell(m, nx, ny, nxt, nyt, u, d, i, j) else m[i][j]
  {
    seq(nx, i requires 0 <= i < nx => seq(ny, j requires 0 <= j < ny =>
      if i < nxt && j < nyt then ForwardCell(m, nx, ny, nxt, nyt, u, d, i, j) else m[i][j]))
  }

  ghost function Inverse(m: Grid, nx: nat, ny: nat, nxt: nat, nyt: nat, u: nat, e: nat): (r: Grid)
    requires Block(m, nx, ny, nxt, nyt) && u > 0 && e > 0
    ensures IsGrid(r, nx, ny)
    ensures forall i, j {:trigger r[i][j]} :: 0 <= i < nx && 0 <= j < ny ==>
              r[i][j] == if i < nxt && j < nyt then InverseCell(m, nx, ny, nxt, nyt, u, e, i, j) else m[i][j]
  {
    seq(nx, i requires 0 <= i < nx => seq(ny, j requires 0 <= j < ny =>
      if i < nxt && j < nyt then InverseCell(m, nx, ny, nxt, nyt, u, e, i, j) else m[i][j]))
  }

  ghost predicate Multiple(x: int, g: nat)
    requires g > 0
  {
    x % g == 0
  }

  // Every cell of the block is a multiple of g.
  ghost predicate Multiples(m: Grid, nx: nat, ny: nat, nxt: nat, nyt: nat, g: nat)
    requires Block(m, nx, ny, nxt, nyt) && g > 0
  {
    forall i, j :: 0 <= i < nxt && 0 <= j < nyt ==> Multiple(m[i][j], g)
  }

  lemma AsMultiple(x: int, g: nat)
    requires g > 0 && x % g == 0
    ensures x == g * (x / g)
  {
  }

  lemma QuadExact(x00: int, x01: int, x10: int, x11: int, u: nat, d: nat, g: nat)
    requires Unit(u, d, g) && Multiple(x00, g) && Multiple(x01, g) && Multiple(x10, g) && Multiple(x11, g)
    ensures InversePixels(ForwardQuad(x00, x01, x10, x11, u, d), u, Final(d)) == (x00, x01, x10, x11)
  {
    AsMultiple(x00, g);
    AsMultiple(x01, g);
    AsMultiple(x10, g);
    AsMultiple(x11, g);
    QuadRoundTrip(x00 / g, x01 / g, x10 / g, x11 / g, u, d, g);
  }

  lemma PairExact(x0: int, x1: int, u: nat, d: nat, g: nat)
    requires Unit(u, d, g) && Multiple(x0, g) && Multiple(x1, g)
    ensures var q := ForwardPair(x0, x1, u, d);
            InversePair(q.0, q.1, u, Final(d)) == (x0, x1)
  {
    AsMultiple(x0, g);
    AsMultiple(x1, g);
    PairRoundTrip(x0 / g, x1 / g, u, d, g);
  }

  lemma CornerExact(x: int, u: nat, d: nat, g: nat)
    requires Unit(u, d, g) && Multiple(x, g)
    ensures InverseCorner(ForwardCorner(x, u, d), Final(d)) == x
  {
    AsMultiple(x, g);
    CornerRoundTrip(x / g, u, d, g);
  }

  // f holds, at the places of the block whose first cell is (p, q), its coefficients.
  ghost predicate Coefficients(f: Grid, m: Grid, nx: nat, ny: nat, nxt: nat, nyt: nat, u: nat, d: nat, p: nat, q: nat)
    requires Block(m, nx, ny, nxt, nyt) && Block(f, nx, ny, nxt, nyt) && u > 0 && p < nxt && q < nyt
    requires d == 1 || d == 2
  {
    if p + 1 < nxt && q + 1 < nyt then
      Quad(f[p][q], f[p + 1][q], f[p][q + 1], f[p + 1][q + 1])
        == ForwardQuad(m[p][q], m[p][q + 1], m[p + 1][q], m[p + 1][q + 1], u, d)
    else if p + 1 < nxt then
      (f[p][q], f[p + 1][q]) == ForwardPair(m[p][q], m[p + 1][q], u, d)
    else if q + 1 < nyt then
      (f[p][q], f[p][q + 1]) == ForwardPair(m[p][q], m[p][q + 1], u, d)
    else
      f[p][q] == ForwardCorner(m[p][q], u, d)
  }

  lemma ForwardCoefficients(m: Grid, nx: nat, ny: nat, nxt: nat, nyt: nat, u: nat, d: nat, p: nat, q: nat)
    requires Block(m, nx, ny, nxt, nyt) && p < nxt && q < nyt && p % 2 == q % 2 == 0
    requires u > 0 && (d == 1 || d == 2)
    ensures Coefficients(Forward(m, nx, ny, nxt, nyt, u, d), m, nx, ny, nxt, nyt, u, d, p, q)
  {
    hide ForwardQuad;
    hide ForwardPair;
    hide ForwardCorner;
    assert (p + 1) % 2 == (q + 1) % 2 == 1;
  }

  lemma InverseCoefficients(f: Grid, m: Grid, nx: nat, ny: nat, nxt: nat, nyt: nat, u: nat, d: nat, g: nat, i: nat,
                            j: nat)
    requires Block(m, nx, ny, nxt, nyt) && Block(f, nx, ny, nxt, nyt) && Unit(u, d, g) && i < nxt && j < nyt
    requires Coefficients(f, m, nx, ny, nxt, nyt, u, d, i - i % 2, j - j % 2)
    requires Multiples(m, nx, ny, nxt, nyt, g)
    ensures InverseCell(f, nx, ny, nxt, nyt, u, Final(d), i, j) == m[i][j]
  {
    var p, q := i - i % 2, j - j % 2;
    hide Multiple;
    hide Unit;
    hide Final;
    hide ForwardQuad;
    hide ForwardPair;
    hide ForwardCorner;
    hide InversePixels;
    hide InversePair;
    hide InverseCorner;
    if p + 1 < nxt {
      if q + 1 < nyt {
        QuadExact(m[p][q], m[p][q + 1], m[p + 1][q], m[p + 1][q + 1], u, d, g);
      } else {
        PairExact(m[p][q], m[p + 1][q], u, d, g);
      }
    } else {
      if q + 1 < nyt {
        PairExact(m[p][q], m[p][q + 1], u, d, g);
      } else {
        CornerExact(m[p][q], u, d, g);
      }
    }
  }

  lemma InverseForwardCell(m: Grid, nx: nat, ny: nat, nxt: nat, nyt: nat, u: nat, d: nat, g: nat, i: nat, j: nat)
    requires Block(m, nx, ny, nxt, nyt) && i < nxt && j < nyt && Unit(u, d, g)
    requires Multiples(m, nx, ny, nxt, nyt, g)
    ensures InverseCell(Forward(m, nx, ny, nxt, nyt, u, d), nx, ny, nxt, nyt, u, Final(d), i, j) == m[i][j]
  {
    hide ForwardCell;
    hide InverseCell;
    hide Coefficients;
    hide Multiples;
    hide Final;
    ForwardCoefficients(m, nx, ny, nxt, nyt, u, d, i - i % 2, j - j % 2);
    InverseCoefficients(Forward(m, nx, ny, nxt, nyt, u, d), m, nx, ny, nxt, nyt, u, d, g, i, j);
  }

  lemma InverseForward(m: Grid, nx: nat, ny: nat, nxt: nat, nyt: nat, u: nat, d: nat, g: nat)
    requires Block(m, nx, ny, nxt, nyt) && Unit(u, d, g)
    requires Multiples(m, nx, ny, nxt, nyt, g)
    ensures Inverse(Forward(m, nx, ny, nxt, nyt, u, d), nx, ny, nxt, nyt, u, Final(d)) == m
  {
    var f := Forward(m, nx, ny, nxt, nyt, u, d);
    var w := Inverse(f, nx, ny, nxt, nyt, u, Final(d));
    assert u > 0 && g > 0 && (d == 1 || d == 2);
    hide ForwardCell;
    hide InverseCell;
    hide Multiples;
    hide Unit;
    hide Final;
    forall i, j | 0 <= i < nx && 0 <= j < ny
      ensures w[i][j] == m[i][j]
    {
      if i < nxt && j < nyt {
        InverseForwardCell(m, nx, ny, nxt, nyt, u, d, g, i, j);
      }
    }
    GridsEqual(w, m, nx, ny);
  }

  // The sums, at even places, have lost their two bottom bits.
  lemma SumsAreMultiples(m: Grid, nx: nat, ny: nat, nxt: nat, nyt: nat, u: nat, d: nat, i: nat, j: nat)
    requires Block(m, nx, ny, nxt, nyt) && i < nxt && j < nyt && u > 0 && (d == 1 || d == 2)
    requires i % 2 == 0 && j % 2 == 0
    ensures Multiple(ForwardCell(m, nx, ny, nxt, nyt, u, d, i, j), 4 * u)
  {
    hide FloorTo;
    forall x: int
      ensures RoundSum(x, u) % (4 * u) == 0
    {
      FloorToMultiple(if x >= 0 then x + 2 * u else x + 2 * u - 1, 4 * u);
    }
  }
}
