/**
  The inverse H-transform of coefficients that are not quite those of an image: how far they may be off without any
  effect, and how far off the pixels can get.
 */
module HError {
  import opened Powers
  import opened Grids
  import opened HQuad
  import opened HShuffle
  import opened HBlock
  import opened HLevel
  import opened HTransform

  // ---- rounding to the nearest multiple ----

  lemma FloorNear(x: int, r: int, g: nat)
    requires g > 0 && Multiple(r, g) && r <= x < r + g
    ensures FloorTo(x, g) == r
  {
    AsMultiple(r, g);
    QuotientUnique(x, g, r / g, x - r);
  }

  // The sum of all pixels goes to the nearest multiple of 4u, ties away from zero.
  lemma SnapSumNearest(x: int, u: nat)
    requires u > 0
    ensures var r := SnapSum(x, u);
            Multiple(r, 4 * u) && Abs(x - r) <= 2 * u && (Abs(x - r) == 2 * u ==> Abs(r) > Abs(x))
  {
    Floored(x + (if x >= 0 then 2 * u else 2 * u - 1), 4 * u);
    hide FloorTo;
  }

  // A side coefficient goes to the nearest multiple of 2u, ties away from zero.
  lemma SnapSideNearest(x: int, u: nat)
    requires u > 0
    ensures var r := SnapSide(x, u);
            Multiple(r, 2 * u) && Abs(x - r) <= u && (Abs(x - r) == u ==> Abs(r) > Abs(x))
  {
    Floored(x + (if x >= 0 then u else u - 1), 2 * u);
    hide FloorTo;
  }

  // The diagonal coefficient goes to the nearest multiple of u, ties away from zero.
  lemma SnapDiagonalNearest(x: int, u: nat)
    requires u == 1 || (u > 0 && u % 2 == 0)
    ensures var r := SnapDiagonal(x, u);
            Multiple(r, u) && 2 * Abs(x - r) <= u && (2 * Abs(x - r) == u ==> Abs(r) > Abs(x))
  {
    Floored(x + (if x >= 0 || u == 1 then u / 2 else u / 2 - 1), u);
    hide FloorTo;
  }

  lemma Floored(x: int, g: nat)
    requires g > 0
    ensures Multiple(FloorTo(x, g), g) && x - g < FloorTo(x, g) <= x
  {
    ModuloRange(x, g);
    FloorToMultiple(x, g);
  }

  lemma SnapSumNear(x: int, r: int, u: nat)
    requires u > 0 && Multiple(r, 4 * u) && Abs(x - r) < 2 * u
    ensures SnapSum(x, u) == r
  {
    FloorNear(x + (if x >= 0 then 2 * u else 2 * u - 1), r, 4 * u);
  }

  lemma SnapSideNear(x: int, r: int, u: nat)
    requires u > 0 && Multiple(r, 2 * u) && Abs(x - r) < u
    ensures SnapSide(x, u) == r
  {
    FloorNear(x + (if x >= 0 then u else u - 1), r, 2 * u);
  }

  lemma SnapDiagonalNear(x: int, r: int, u: nat)
    requires u == 1 || (u > 0 && u % 2 == 0)
    requires Multiple(r, u) && 2 * Abs(x - r) < u
    ensures SnapDiagonal(x, u) == r
  {
    FloorNear(x + (if x >= 0 || u == 1 then u / 2 else u / 2 - 1), r, u);
  }

  // ---- one level, off by less than half a unit ----

  // What the inverse step makes of a coefficient before it puts back the discarded bits.
  function Snapped(x: int, u: nat, i: nat, j: nat): int
    requires u > 0
  {
    if i % 2 == 0 && j % 2 == 0 then x else if i % 2 == 1 && j % 2 == 1 then SnapDiagonal(x, u) else SnapSide(x, u)
  }

  // Twice the distance that a coefficient at an odd row or column stays below.
  function Room(u: nat, i: nat, j: nat): nat
  {
    if i % 2 == 0 && j % 2 == 0 then 1 else if i % 2 == 1 && j % 2 == 1 then u else 2 * u
  }

  ghost predicate SameSnapped(f: Grid, w: Grid, nx: nat, ny: nat, nxt: nat, nyt: nat, u: nat)
    requires Block(f, nx, ny, nxt, nyt) && Block(w, nx, ny, nxt, nyt) && u > 0
  {
    forall i, j {:trigger f[i][j]} {:trigger w[i][j]} ::
      0 <= i < nxt && 0 <= j < nyt ==> Snapped(f[i][j], u, i, j) == Snapped(w[i][j], u, i, j)
  }

  lemma PixelsFromSnapped(a: Quad, b: Quad, u: nat, e: nat)
    requires u > 0 && e > 0 && a.h0 == b.h0 && SnapSide(a.hx, u) == SnapSide(b.hx, u)
    requires SnapSide(a.hy, u) == SnapSide(b.hy, u) && SnapDiagonal(a.hc, u) == SnapDiagonal(b.hc, u)
    ensures InversePixels(a, u, e) == InversePixels(b, u, e)
  {
    hide SnapSide;
    hide SnapDiagonal;
    hide XorBit;
    hide LowBit;
    hide Spread;
  }

  lemma PairFromSnapped(h0: int, a: int, b: int, u: nat, e: nat)
    requires u > 0 && e > 0 && SnapSide(a, u) == SnapSide(b, u)
    ensures InversePair(h0, a, u, e) == InversePair(h0, b, u, e)
  {
    hide SnapSide;
  }

  lemma CellFromSnapped(f: Grid, w: Grid, nx: nat, ny: nat, nxt: nat, nyt: nat, u: nat, e: nat, i: nat, j: nat)
    requires Block(f, nx, ny, nxt, nyt) && Block(w, nx, ny, nxt, nyt) && u > 0 && e > 0 && i < nxt && j < nyt
    requires SameSnapped(f, w, nx, ny, nxt, nyt, u)
    ensures InverseCell(f, nx, ny, nxt, nyt, u, e, i, j) == InverseCell(w, nx, ny, nxt, nyt, u, e, i, j)
  {
    hide SnapSide;
    hide SnapDiagonal;
    hide InversePixels;
    hide InversePair;
    hide InverseCorner;
    var p, q := i - i % 2, j - j % 2;
    assert p % 2 == 0 && q % 2 == 0 && (p + 1) % 2 == 1 && (q + 1) % 2 == 1;
    assert f[p][q] == w[p][q];
    if p + 1 < nxt {
      assert SnapSide(f[p + 1][q], u) == SnapSide(w[p + 1][q], u);
      if q + 1 < nyt {
        assert SnapSide(f[p][q + 1], u) == SnapSide(w[p][q + 1], u);
        PixelsFromSnapped(Quad(f[p][q], f[p + 1][q], f[p][q + 1], f[p + 1][q + 1]),
                          Quad(w[p][q], w[p + 1][q], w[p][q + 1], w[p + 1][q + 1]), u, e);
      } else {
        PairFromSnapped(f[p][q], f[p + 1][q], w[p + 1][q], u, e);
      }
    } else if q + 1 < nyt {
      assert SnapSide(f[p][q + 1], u) == SnapSide(w[p][q + 1], u);
      PairFromSnapped(f[p][q], f[p][q + 1], w[p][q + 1], u, e);
    }
  }

  // The side coefficients of the forward step are multiples of 2u, the diagonal ones of u.
  lemma CoefficientMultiple(m: Grid, nx: nat, ny: nat, nxt: nat, nyt: nat, u: nat, d: nat, g: nat, i: nat, j: nat)
    requires Block(m, nx, ny, nxt, nyt) && i < nxt && j < nyt && Unit(u, d, g) && Multiples(m, nx, ny, nxt, nyt, g)
    ensures i % 2 != j % 2 ==> Multiple(ForwardCell(m, nx, ny, nxt, nyt, u, d, i, j), 2 * u)
    ensures i % 2 == 1 && j % 2 == 1 ==> Multiple(ForwardCell(m, nx, ny, nxt, nyt, u, d, i, j), u)
  {
    hide Multiples;
    hide RoundSum;
    hide RoundSide;
    hide Unit;
    UnitRange(u, d, g);
    SidesMultiple(u);
    if i % 2 == 1 && j % 2 == 1 {
      DiagonalMultiple(m, nx, ny, nxt, nyt, u, d, g, i - 1, j - 1);
    }
  }

  lemma UnitRange(u: nat, d: nat, g: nat)
    requires Unit(u, d, g)
    ensures g > 0 && (u == 1 || (u > 0 && u % 2 == 0)) && (d == 1 || d == 2)
  {
  }

  lemma SidesMultiple(u: nat)
    requires u > 0
    ensures forall h: int :: Multiple(RoundSide(h, u), 2 * u)
  {
    hide FloorTo;
    forall h: int
      ensures Multiple(RoundSide(h, u), 2 * u)
    {
      FloorToMultiple(if h >= 0 then h + u else h, 2 * u);
    }
  }

  lemma DiagonalMultiple(m: Grid, nx: nat, ny: nat, nxt: nat, nyt: nat, u: nat, d: nat, g: nat, p: nat, q: nat)
    requires Block(m, nx, ny, nxt, nyt) && p + 1 < nxt && q + 1 < nyt && Unit(u, d, g) && g > 0 && u > 0 && d > 0
    requires Multiples(m, nx, ny, nxt, nyt, g)
    ensures Multiple((m[p + 1][q + 1] - m[p + 1][q] - m[p][q + 1] + m[p][q]) / d, u)
  {
    var x00, x01, x10, x11 := m[p][q], m[p][q + 1], m[p + 1][q], m[p + 1][q + 1];
    assert Multiple(x00, g) && Multiple(x01, g) && Multiple(x10, g) && Multiple(x11, g);
    AsMultiple(x00, g);
    AsMultiple(x01, g);
    AsMultiple(x10, g);
    AsMultiple(x11, g);
    hide Unit;
    hide Multiples;
    hide Multiple;
    DivideSums(x11 / g, x10 / g, x01 / g, x00 / g, u, d, g);
    TimesIsMultiple(u, x11 / g - x10 / g - x01 / g + x00 / g);
  }

  lemma TimesIsMultiple(u: nat, x: int)
    requires u > 0
    ensures Multiple(u * x, u)
  {
    QuotientUnique(u * x, u, x, 0);
  }

  lemma NearSnapped(x: int, r: int, u: nat, i: nat, j: nat)
    requires u == 1 || (u > 0 && u % 2 == 0)
    requires 2 * Abs(x - r) < Room(u, i, j)
    requires i % 2 != j % 2 ==> Multiple(r, 2 * u)
    requires i % 2 == 1 && j % 2 == 1 ==> Multiple(r, u)
    ensures Snapped(x, u, i, j) == Snapped(r, u, i, j)
  {
    hide SnapSide;
    hide SnapDiagonal;
    hide Multiple;
    if i % 2 != j % 2 {
      SnapSideNear(x, r, u);
      SnapSideNear(r, r, u);
    } else if i % 2 == 1 {
      SnapDiagonalNear(x, r, u);
      SnapDiagonalNear(r, r, u);
    }
  }

  // Twice the distance that a coefficient of level k stays below, and 1 for the sums of that level.
  function Allowance(nx: nat, ny: nat, k: nat, i: nat, j: nat): (r: nat)
    ensures r > 0
  {
    if i < Top(nx, k + 1) && j < Top(ny, k + 1) then 1
    else if i >= Top(nx, k + 1) && j >= Top(ny, k + 1) then Pow2(k) else 2 * Pow2(k)
  }

  lemma RoomIsAllowance(nx: nat, ny: nat, k: nat, p: nat, q: nat)
    requires p < Top(nx, k) && q < Top(ny, k)
    ensures Allowance(nx, ny, k, Shuffled(Top(nx, k), p), Shuffled(Top(ny, k), q)) == Room(Pow2(k), p, q)
  {
    HalvesApart(nx, k, p);
    HalvesApart(ny, k, q);
  }

  lemma HalvesApart(n: nat, k: nat, p: nat)
    requires p < Top(n, k)
    ensures Shuffled(Top(n, k), p) < Top(n, k + 1) <==> p % 2 == 0
  {
    assert Top(n, k + 1) == (Top(n, k) + 1) / 2;
  }

  ghost predicate LevelNear(f: Grid, t: Grid, nx: nat, ny: nat, k: nat)
    requires IsGrid(f, nx, ny) && IsGrid(t, nx, ny)
  {
    forall i, j {:trigger f[i][j]} :: 0 <= i < Top(nx, k) && 0 <= j < Top(ny, k) ==>
      2 * Abs(f[i][j] - t[i][j]) < Allowance(nx, ny, k, i, j)
  }

  // Coefficients of a level that are off by less than half their unit make no difference.
  lemma LevelTolerance(f: Grid, m: Grid, nx: nat, ny: nat, k: nat)
    requires IsGrid(f, nx, ny) && IsGrid(m, nx, ny)
    requires Multiples(m, nx, ny, Top(nx, k), Top(ny, k), Grain(k))
    requires LevelNear(f, ForwardLevel(m, nx, ny, k), nx, ny, k)
    ensures forall i, j :: 0 <= i < Top(nx, k) && 0 <= j < Top(ny, k) ==> InverseLevel(f, nx, ny, k)[i][j] == m[i][j]
  {
    var nxt, nyt, u, d := Top(nx, k), Top(ny, k), Pow2(k), Divisor(k);
    GrainIsUnit(k);
    var w, r := Forward(m, nx, ny, nxt, nyt, u, d), Regroup(f, nx, ny, nxt, nyt, true);
    LevelSnapped(f, m, nx, ny, k);
    hide Multiples;
    hide SameSnapped;
    hide Unit;
    hide InverseCell;
    hide ForwardCell;
    hide LevelNear;
    forall i, j | 0 <= i < nxt && 0 <= j < nyt
      ensures InverseLevel(f, nx, ny, k)[i][j] == m[i][j]
    {
      CellFromSnapped(r, w, nx, ny, nxt, nyt, u, Final(d), i, j);
      InverseForwardCell(m, nx, ny, nxt, nyt, u, d, Grain(k), i, j);
    }
  }

  // Where the two grids of a level meet before it is undone.
  lemma Regrouped(f: Grid, m: Grid, nx: nat, ny: nat, k: nat, p: nat, q: nat)
    requires IsGrid(f, nx, ny) && IsGrid(m, nx, ny) && p < Top(nx, k) && q < Top(ny, k)
    ensures var nxt, nyt := Top(nx, k), Top(ny, k);
            var i, j := Shuffled(nxt, p), Shuffled(nyt, q);
            Regroup(f, nx, ny, nxt, nyt, true)[p][q] == f[i][j] &&
            Forward(m, nx, ny, nxt, nyt, Pow2(k), Divisor(k))[p][q] == ForwardLevel(m, nx, ny, k)[i][j]
  {
    hide ForwardCell;
    hide Pow2;
    hide Top;
    hide Divisor;
    DivisorOneOrTwo(k);
    var nxt, nyt, u, d := Top(nx, k), Top(ny, k), Pow2(k), Divisor(k);
    var w := Forward(m, nx, ny, nxt, nyt, u, d);
    RegroupUndone(w, nx, ny, nxt, nyt);
    var i, j := Shuffled(nxt, p), Shuffled(nyt, q);
    assert Regroup(f, nx, ny, nxt, nyt, true)[p][q] == RegroupCell(f, nx, ny, nxt, nyt, true, p, q) == f[i][j];
    var t := ForwardLevel(m, nx, ny, k);
    assert w[p][q] == Regroup(t, nx, ny, nxt, nyt, true)[p][q] == RegroupCell(t, nx, ny, nxt, nyt, true, p, q)
        == t[i][j];
  }

  lemma DivisorOneOrTwo(k: nat)
    ensures Divisor(k) == 1 || Divisor(k) == 2
  {
  }

  lemma LevelSnapped(f: Grid, m: Grid, nx: nat, ny: nat, k: nat)
    requires IsGrid(f, nx, ny) && IsGrid(m, nx, ny)
    requires Multiples(m, nx, ny, Top(nx, k), Top(ny, k), Grain(k))
    requires LevelNear(f, ForwardLevel(m, nx, ny, k), nx, ny, k)
    ensures var nxt, nyt, u := Top(nx, k), Top(ny, k), Pow2(k);
            var w := Forward(m, nx, ny, nxt, nyt, u, Divisor(k));
            SameSnapped(Regroup(f, nx, ny, nxt, nyt, true), w, nx, ny, nxt, nyt, u)
  {
    var nxt, nyt, u, d := Top(nx, k), Top(ny, k), Pow2(k), Divisor(k);
    var w, r := Forward(m, nx, ny, nxt, nyt, u, d), Regroup(f, nx, ny, nxt, nyt, true);
    hide Multiples;
    hide Snapped;
    hide LevelNear;
    hide ForwardLevel;
    hide ForwardCell;
    hide Pow2;
    hide Top;
    hide Divisor;
    hide Grain;
    forall p, q | 0 <= p < nxt && 0 <= q < nyt
      ensures Snapped(r[p][q], u, p, q) == Snapped(w[p][q], u, p, q)
    {
      SnappedCell(f, m, nx, ny, k, p, q);
    }
  }

  lemma SnappedCell(f: Grid, m: Grid, nx: nat, ny: nat, k: nat, p: nat, q: nat)
    requires IsGrid(f, nx, ny) && IsGrid(m, nx, ny) && p < Top(nx, k) && q < Top(ny, k)
    requires Multiples(m, nx, ny, Top(nx, k), Top(ny, k), Grain(k))
    requires LevelNear(f, ForwardLevel(m, nx, ny, k), nx, ny, k)
    ensures var nxt, nyt, u := Top(nx, k), Top(ny, k), Pow2(k);
            var w := Forward(m, nx, ny, nxt, nyt, u, Divisor(k));
            Snapped(Regroup(f, nx, ny, nxt, nyt, true)[p][q], u, p, q) == Snapped(w[p][q], u, p, q)
  {
    hide Multiples;
    hide Snapped;
    hide ForwardCell;
    hide Pow2;
    hide Top;
    hide Divisor;
    hide Grain;
    hide Room;
    hide Allowance;
    var nxt, nyt, u, d := Top(nx, k), Top(ny, k), Pow2(k), Divisor(k);
    GrainIsUnit(k);
    UnitRange(u, d, Grain(k));
    hide Unit;
    hide Regroup;
    hide ForwardLevel;
    var w := Forward(m, nx, ny, nxt, nyt, u, d);
    var i, j := Shuffled(nxt, p), Shuffled(nyt, q);
    Regrouped(f, m, nx, ny, k, p, q);
    RoomIsAllowance(nx, ny, k, p, q);
    CoefficientMultiple(m, nx, ny, nxt, nyt, u, d, Grain(k), p, q);
    NearSnapped(f[i][j], w[p][q], u, p, q);
  }

  // ---- all levels ----

  // Twice the distance that a coefficient of the first n levels stays below.
  function Slack(nx: nat, ny: nat, n: nat, i: nat, j: nat): (r: nat)
    ensures r > 0
  {
    if n == 0 then 1
    else if i < Top(nx, n - 1) && j < Top(ny, n - 1) then Allowance(nx, ny, n - 1, i, j)
    else Slack(nx, ny, n - 1, i, j)
  }

  ghost predicate Near(f: Grid, t: Grid, nx: nat, ny: nat, n: nat)
  {
    IsGrid(f, nx, ny) && IsGrid(t, nx, ny) &&
    forall i, j {:trigger f[i][j]} :: 0 <= i < nx && 0 <= j < ny ==>
      2 * Abs(f[i][j] - t[i][j]) < Slack(nx, ny, n, i, j)
  }

  // Undoing a level leaves everything behind it near, too.
  lemma NearBelow(f: Grid, m: Grid, nx: nat, ny: nat, k: nat)
    requires IsGrid(m, nx, ny) && Near(f, ForwardLevel(m, nx, ny, k), nx, ny, k + 1)
    requires Multiples(m, nx, ny, Top(nx, k), Top(ny, k), Grain(k))
    ensures Near(InverseLevel(f, nx, ny, k), m, nx, ny, k)
  {
    hide Multiples;
    hide Allowance;
    hide Forward;
    hide Inverse;
    hide Regroup;
    hide Top;
    hide Pow2;
    hide Grain;
    LevelTolerance(f, m, nx, ny, k);
    Beyond(f, m, nx, ny, k);
  }

  // A level leaves the cells outside its block alone, in both directions.
  lemma Beyond(f: Grid, m: Grid, nx: nat, ny: nat, k: nat)
    requires IsGrid(m, nx, ny) && IsGrid(f, nx, ny)
    ensures forall i, j :: 0 <= i < nx && 0 <= j < ny && !(i < Top(nx, k) && j < Top(ny, k)) ==>
              InverseLevel(f, nx, ny, k)[i][j] == f[i][j] && ForwardLevel(m, nx, ny, k)[i][j] == m[i][j]
  {
    var nxt, nyt, u, d := Top(nx, k), Top(ny, k), Pow2(k), Divisor(k);
    var w, r := Forward(m, nx, ny, nxt, nyt, u, d), Regroup(f, nx, ny, nxt, nyt, true);
    hide Top;
    hide Pow2;
    forall i, j | 0 <= i < nx && 0 <= j < ny && !(i < nxt && j < nyt)
      ensures InverseLevel(f, nx, ny, k)[i][j] == f[i][j] && ForwardLevel(m, nx, ny, k)[i][j] == m[i][j]
    {
      assert r[i][j] == RegroupCell(f, nx, ny, nxt, nyt, true, i, j);
      assert ForwardLevel(m, nx, ny, k)[i][j] == RegroupCell(w, nx, ny, nxt, nyt, false, i, j);
    }
  }

  lemma NearNone(f: Grid, m: Grid, nx: nat, ny: nat)
    requires Near(f, m, nx, ny, 0)
    ensures f == m
  {
    GridsEqual(f, m, nx, ny);
  }

  lemma {:induction false} UntransformNear(f: Grid, m: Grid, nx: nat, ny: nat, n: nat)
    requires IsGrid(m, nx, ny) && Near(f, Transform(m, nx, ny, n), nx, ny, n)
    ensures Untransform(f, nx, ny, n) == m
    decreases n
  {
    hide Near;
    hide Multiples;
    hide ForwardLevel;
    hide InverseLevel;
    NearGrid(f, Transform(m, nx, ny, n), nx, ny, n);
    if n == 0 {
      NearNone(f, m, nx, ny);
    } else {
      TransformMultiples(m, nx, ny, n - 1);
      NearBelow(f, Transform(m, nx, ny, n - 1), nx, ny, n - 1);
      UntransformNear(InverseLevel(f, nx, ny, n - 1), m, nx, ny, n - 1);
    }
  }

  lemma NearGrid(f: Grid, t: Grid, nx: nat, ny: nat, n: nat)
    requires Near(f, t, nx, ny, n)
    ensures IsGrid(f, nx, ny)
  {
  }

  // Every coefficient is off by less than half of what it is a multiple of.
  ghost predicate AlmostThere(f: Grid, t: Grid, nx: nat, ny: nat, n: nat)
    requires n > 0
  {
    IsGrid(f, nx, ny) && IsGrid(t, nx, ny) &&
    forall i, j {:trigger f[i][j]} :: 0 <= i < nx && 0 <= j < ny ==>
      2 * Abs(f[i][j] - t[i][j]) < if i == 0 && j == 0 then 4 * Pow2(n - 1) else Slack(nx, ny, n, i, j)
  }

  // The image comes back from any coefficients that are almost there.
  lemma Tolerance(f: Grid, m: Grid, nx: nat, ny: nat, n: nat)
    requires IsGrid(m, nx, ny) && nx > 0 && ny > 0 && n > 0
    requires AlmostThere(f, Transform(m, nx, ny, n), nx, ny, n)
    ensures IsGrid(f, nx, ny) && InverseTransform(f, nx, ny, n) == m
  {
    hide Multiples;
    hide Near;
    hide Slack;
    hide Transform;
    hide Untransform;
    var t := Transform(m, nx, ny, n);
    SnapsThere(f, m, nx, ny, n);
    SumSet(f, t, nx, ny, n);
    UntransformNear(f[0 := f[0][0 := t[0][0]]], m, nx, ny, n);
  }

  lemma SnapsThere(f: Grid, m: Grid, nx: nat, ny: nat, n: nat)
    requires IsGrid(m, nx, ny) && nx > 0 && ny > 0 && n > 0
    requires AlmostThere(f, Transform(m, nx, ny, n), nx, ny, n)
    ensures SnapSum(f[0][0], Pow2(n - 1)) == Transform(m, nx, ny, n)[0][0]
  {
    var t, u := Transform(m, nx, ny, n), Pow2(n - 1);
    TransformMultiples(m, nx, ny, n);
    assert Multiple(t[0][0], Grain(n)) && Grain(n) == 4 * u;
    hide Multiples;
    hide Multiple;
    hide Slack;
    hide Transform;
    hide SnapSum;
    assert 2 * Abs(f[0][0] - t[0][0]) < 4 * u;
    SnapSumNear(f[0][0], t[0][0], u);
  }

  lemma SumSet(f: Grid, t: Grid, nx: nat, ny: nat, n: nat)
    requires nx > 0 && ny > 0 && n > 0 && AlmostThere(f, t, nx, ny, n)
    ensures Near(f[0 := f[0][0 := t[0][0]]], t, nx, ny, n)
  {
    hide Slack;
    hide Pow2;
    var w := f[0 := f[0][0 := t[0][0]]];
    forall i, j | 0 <= i < nx && 0 <= j < ny
      ensures 2 * Abs(w[i][j] - t[i][j]) < Slack(nx, ny, n, i, j)
    {
      assert w[i][j] == if i == 0 && j == 0 then t[0][0] else f[i][j];
    }
  }

  // So the sum of all pixels may be off by anything below twice its unit.
  lemma SumTolerance(m: Grid, nx: nat, ny: nat, n: nat, c: int)
    requires IsGrid(m, nx, ny) && nx > 0 && ny > 0 && n > 0
    requires Abs(c - Transform(m, nx, ny, n)[0][0]) < 2 * Pow2(n - 1)
    ensures var t := Transform(m, nx, ny, n); InverseTransform(t[0 := t[0][0 := c]], nx, ny, n) == m
  {
    hide Transform;
    hide InverseTransform;
    hide Slack;
    hide Pow2;
    var t := Transform(m, nx, ny, n);
    Tolerance(t[0 := t[0][0 := c]], m, nx, ny, n);
  }

  // ---- how far off the pixels get ----

  lemma SumMoves(x: int, u: nat)
    requires u > 0
    ensures Abs(SnapSum(x, u) - x) <= 2 * u
  {
    SnapSumNearest(x, u);
  }

  // Putting the discarded bits back moves the coefficients by at most a few units.
  lemma RestoreMoves(q: Quad, u: nat)
    requires u == 1 || (u > 0 && u % 2 == 0)
    ensures var r := Restore(q, u);
            Abs(r.h0 - q.h0) <= 2 * u && Abs(r.hx - SnapSide(q.hx, u)) <= u && Abs(r.hy - SnapSide(q.hy, u)) <= u &&
            r.hc == SnapDiagonal(q.hc, u)
  {
    hide SnapSide;
    hide SnapDiagonal;
    var hc := SnapDiagonal(q.hc, u);
    LowBitOneOf(hc, u);
    var low0 := LowBit(hc, u);
    hide LowBit;
    XorBitOneOf(hc, Toward(SnapSide(q.hx, u), low0), Toward(SnapSide(q.hy, u), low0), 2 * u);
    hide XorBit;
  }

  lemma LowBitOneOf(x: int, b: nat)
    requires b > 0
    ensures LowBit(x, b) == 0 || LowBit(x, b) == b
  {
    assert x / b % 2 == 0 || x / b % 2 == 1;
  }

  lemma XorBitOneOf(x: int, y: int, z: int, b: nat)
    requires b > 0
    ensures XorBit(x, y, z, b) == 0 || XorBit(x, y, z, b) == b
  {
    var s := x / b + y / b + z / b;
    assert s % 2 == 0 || s % 2 == 1;
  }

  // How far off the pixels of level k get when their sum is off by a and the other coefficients by b.
  function Drift(a: nat, b: nat, u: nat, e: nat): nat
    requires e > 0
  {
    Share(a + 3 * b + 11 * u, e)
  }

  function Share(w: nat, e: nat): nat
    requires e > 0
  {
    (w + e - 1) / e
  }

  // a is e*x up to w, so a/e is x up to w/e.
  lemma QuotientClose(a: int, e: nat, x: int, w: nat)
    requires (e == 2 || e == 4) && Abs(a - e * x) <= w
    ensures Abs(a / e - x) <= Share(w, e)
  {
    if e == 2 {
      assert Abs(a - 2 * x) <= w;
    } else {
      assert Abs(a - 4 * x) <= w;
    }
  }

  lemma ForwardSnapped(p00: int, p01: int, p10: int, p11: int, u: nat, d: nat, g: nat)
    requires Unit(u, d, g)
    ensures var t := ForwardQuad(g * p00, g * p01, g * p10, g * p11, u, d);
            SnapSide(t.hx, u) == t.hx && SnapSide(t.hy, u) == t.hy && SnapDiagonal(t.hc, u) == t.hc
  {
    hide ForwardQuad;
    hide SnapSide;
    hide SnapDiagonal;
    UnitRange(u, d, g);
    var q := ForwardQuad(p00, p01, p10, p11, 1, 1);
    ForwardQuadScale(p00, p01, p10, p11, u, d, g);
    SidesAreEven(p00, p01, p10, p11);
    SnapSideExact(q.hx, u);
    SnapSideExact(q.hy, u);
    SnapDiagonalExact(q.hc, u);
  }

  lemma RestoreClose(q: Quad, t: Quad, u: nat, a: nat, b: nat)
    requires u == 1 || (u > 0 && u % 2 == 0)
    requires SnapSide(t.hx, u) == t.hx && SnapSide(t.hy, u) == t.hy && SnapDiagonal(t.hc, u) == t.hc
    requires Abs(q.h0 - t.h0) <= a && Abs(q.hx - t.hx) <= b && Abs(q.hy - t.hy) <= b && Abs(q.hc - t.hc) <= b
    ensures var r, s := Restore(q, u), Restore(t, u);
            Abs(r.h0 - s.h0) <= a + 4 * u && Abs(r.hx - s.hx) <= b + 3 * u && Abs(r.hy - s.hy) <= b + 3 * u &&
            Abs(r.hc - s.hc) <= b + u
  {
    hide SnapSide;
    hide SnapDiagonal;
    hide Restore;
    RestoreMoves(q, u);
    RestoreMoves(t, u);
    SnapSideNearest(q.hx, u);
    SnapSideNearest(q.hy, u);
    SnapDiagonalNearest(q.hc, u);
  }

  lemma QuadError(q: Quad, p00: int, p01: int, p10: int, p11: int, u: nat, d: nat, g: nat, a: nat, b: nat)
    requires Unit(u, d, g)
    requires var t := ForwardQuad(g * p00, g * p01, g * p10, g * p11, u, d);
             Abs(q.h0 - t.h0) <= a && Abs(q.hx - t.hx) <= b && Abs(q.hy - t.hy) <= b && Abs(q.hc - t.hc) <= b
    ensures var r, w := InversePixels(q, u, Final(d)), Drift(a, b, u, Final(d));
            Abs(r.0 - g * p00) <= w && Abs(r.1 - g * p01) <= w && Abs(r.2 - g * p10) <= w && Abs(r.3 - g * p11) <= w
  {
    hide ForwardQuad;
    hide Restore;
    hide SnapSide;
    hide SnapDiagonal;
    hide Sums;
    hide Scale;
    hide Share;
    hide Spread;
    hide Final;
    UnitRange(u, d, g);
    hide Unit;
    ForwardSnapped(p00, p01, p10, p11, u, d, g);
    RestoreClose(q, ForwardQuad(g * p00, g * p01, g * p10, g * p11, u, d), u, a, b);
    RestoreForward(p00, p01, p10, p11, u, d, g);
    Combine(u, p00, p01, p10, p11);
    SpreadClose(Restore(q, u), Scale(Sums(p00, p01, p10, p11), u), u, d, g, p00, p01, p10, p11, a + 3 * b + 11 * u);
  }

  lemma SpreadClose(r: Quad, s: Quad, u: nat, d: nat, g: nat, p00: int, p01: int, p10: int, p11: int, w: nat)
    requires Unit(u, d, g) && Abs(r.h0 - s.h0) + Abs(r.hx - s.hx) + Abs(r.hy - s.hy) + Abs(r.hc - s.hc) <= w
    requires s.h0 - s.hx - s.hy + s.hc == 4 * (u * p00) && s.h0 - s.hx + s.hy - s.hc == 4 * (u * p01)
    requires s.h0 + s.hx - s.hy - s.hc == 4 * (u * p10) && s.h0 + s.hx + s.hy + s.hc == 4 * (u * p11)
    ensures var v, e := Spread(r, Final(d)), Share(w, Final(d));
            Abs(v.0 - g * p00) <= e && Abs(v.1 - g * p01) <= e && Abs(v.2 - g * p10) <= e && Abs(v.3 - g * p11) <= e
  {
    hide Unit;
    hide Share;
    hide Final;
    QuarterClose(r.h0 - r.hx - r.hy + r.hc, p00, u, d, g, w);
    QuarterClose(r.h0 - r.hx + r.hy - r.hc, p01, u, d, g, w);
    QuarterClose(r.h0 + r.hx - r.hy - r.hc, p10, u, d, g, w);
    QuarterClose(r.h0 + r.hx + r.hy + r.hc, p11, u, d, g, w);
  }

  lemma QuarterClose(v: int, p: int, u: nat, d: nat, g: nat, w: nat)
    requires Unit(u, d, g) && Abs(v - 4 * (u * p)) <= w
    ensures Abs(v / Final(d) - g * p) <= Share(w, Final(d))
  {
    FinalShare(p, u, d, g);
    QuotientClose(v, Final(d), g * p, w);
  }

  lemma FinalShare(p: int, u: nat, d: nat, g: nat)
    requires Unit(u, d, g)
    ensures Final(d) * (g * p) == 4 * (u * p)
  {
    assert d == 2 ==> g * p == 2 * (u * p);
  }

  lemma PairError(h0: int, h1: int, p0: int, p1: int, u: nat, d: nat, g: nat, a: nat, b: nat)
    requires Unit(u, d, g)
    requires var t := ForwardPair(g * p0, g * p1, u, d); Abs(h0 - t.0) <= a && Abs(h1 - t.1) <= b
    ensures var r, w := InversePair(h0, h1, u, Final(d)), Drift(a, b, u, Final(d));
            Abs(r.0 - g * p0) <= w && Abs(r.1 - g * p1) <= w
  {
    hide ForwardPair;
    hide RoundSum;
    hide SnapSide;
    hide LowBit;
    hide Toward;
    hide Share;
    hide Final;
    UnitRange(u, d, g);
    hide Unit;
    var s, t, side := p1 + p0, p1 - p0, SnapSide(h1, u);
    ForwardPairScale(p0, p1, u, d, g);
    PairRestored(s, t, u);
    CombinePair(u, p0, p1);
    PairClose(h0, h1, u * RoundSum(2 * s, 1), u * (2 * t), u * (2 * s), u, a, b);
    var sum := Toward(h0, LowBit(side, 2 * u));
    QuarterClose(sum - side, p0, u, d, g, a + 3 * b + 11 * u);
    QuarterClose(sum + side, p1, u, d, g, a + 3 * b + 11 * u);
  }

  lemma PairClose(h0: int, h1: int, x0: int, x1: int, s: int, u: nat, a: nat, b: nat)
    requires u > 0 && SnapSide(x1, u) == x1 && Toward(x0, LowBit(x1, 2 * u)) == s
    requires Abs(h0 - x0) <= a && Abs(h1 - x1) <= b
    ensures var side := SnapSide(h1, u);
            var sum := Toward(h0, LowBit(side, 2 * u));
            Abs(sum - side - (s - x1)) <= a + 3 * b + 11 * u && Abs(sum + side - (s + x1)) <= a + 3 * b + 11 * u
  {
    hide SnapSide;
    hide LowBit;
    hide Toward;
    var side := SnapSide(h1, u);
    LowBitOneOf(x1, 2 * u);
    LowBitOneOf(side, 2 * u);
    SnapSideNearest(h1, u);
    TowardClose(h0, x0, LowBit(side, 2 * u), LowBit(x1, 2 * u), u, a);
  }

  lemma TowardClose(h: int, t: int, b: int, c: int, u: nat, a: nat)
    requires (b == 0 || b == 2 * u) && (c == 0 || c == 2 * u) && Abs(h - t) <= a
    ensures Abs(Toward(h, b) - Toward(t, c)) <= a + 4 * u
  {
  }

  lemma CornerError(h0: int, p: int, u: nat, d: nat, g: nat, a: nat, b: nat)
    requires Unit(u, d, g) && Abs(h0 - ForwardCorner(g * p, u, d)) <= a
    ensures Abs(InverseCorner(h0, Final(d)) - g * p) <= Drift(a, b, u, Final(d))
  {
    hide ForwardCorner;
    hide Share;
    hide Final;
    hide Unit;
    CornerValue(p, u, d, g);
    QuarterClose(h0, p, u, d, g, a + 3 * b + 11 * u);
  }

  lemma CornerValue(p: int, u: nat, d: nat, g: nat)
    requires Unit(u, d, g)
    ensures ForwardCorner(g * p, u, d) == 4 * (u * p)
  {
    assert RoundSum(4 * p, 1) == 4 * p;
    hide RoundSum;
    DivideSum(p, u, d, g);
    RoundSumScale(4 * p, u);
    Double(u, p);
    Double(u, 2 * p);
  }

  lemma QuadOff(q: Quad, x00: int, x01: int, x10: int, x11: int, u: nat, d: nat, g: nat, a: nat, b: nat)
    requires Unit(u, d, g) && Multiple(x00, g) && Multiple(x01, g) && Multiple(x10, g) && Multiple(x11, g)
    requires var t := ForwardQuad(x00, x01, x10, x11, u, d);
             Abs(q.h0 - t.h0) <= a && Abs(q.hx - t.hx) <= b && Abs(q.hy - t.hy) <= b && Abs(q.hc - t.hc) <= b
    ensures var r, w := InversePixels(q, u, Final(d)), Drift(a, b, u, Final(d));
            Abs(r.0 - x00) <= w && Abs(r.1 - x01) <= w && Abs(r.2 - x10) <= w && Abs(r.3 - x11) <= w
  {
    AsMultiple(x00, g);
    AsMultiple(x01, g);
    AsMultiple(x10, g);
    AsMultiple(x11, g);
    hide ForwardQuad;
    hide InversePixels;
    hide Drift;
    hide Final;
    QuadError(q, x00 / g, x01 / g, x10 / g, x11 / g, u, d, g, a, b);
  }

  lemma PairOff(h0: int, h1: int, x0: int, x1: int, u: nat, d: nat, g: nat, a: nat, b: nat)
    requires Unit(u, d, g) && Multiple(x0, g) && Multiple(x1, g)
    requires var t := ForwardPair(x0, x1, u, d); Abs(h0 - t.0) <= a && Abs(h1 - t.1) <= b
    ensures var r, w := InversePair(h0, h1, u, Final(d)), Drift(a, b, u, Final(d));
            Abs(r.0 - x0) <= w && Abs(r.1 - x1) <= w
  {
    AsMultiple(x0, g);
    AsMultiple(x1, g);
    hide ForwardPair;
    hide InversePair;
    hide Drift;
    hide Final;
    PairError(h0, h1, x0 / g, x1 / g, u, d, g, a, b);
  }

  lemma CornerOff(h0: int, x: int, u: nat, d: nat, g: nat, a: nat, b: nat)
    requires Unit(u, d, g) && Multiple(x, g) && Abs(h0 - ForwardCorner(x, u, d)) <= a
    ensures Abs(InverseCorner(h0, Final(d)) - x) <= Drift(a, b, u, Final(d))
  {
    AsMultiple(x, g);
    hide ForwardCorner;
    hide InverseCorner;
    hide Drift;
    hide Final;
    CornerError(h0, x / g, u, d, g, a, b);
  }

  // The error allowed at a place of a block: a for the sums, b for the rest.
  function Off(a: nat, b: nat, i: nat, j: nat): nat
  {
    if i % 2 == 0 && j % 2 == 0 then a else b
  }

  ghost predicate BlockClose(f: Grid, w: Grid, nx: nat, ny: nat, nxt: nat, nyt: nat, a: nat, b: nat)
    requires Block(f, nx, ny, nxt, nyt) && Block(w, nx, ny, nxt, nyt)
  {
    forall i, j {:trigger f[i][j]} {:trigger w[i][j]} ::
      0 <= i < nxt && 0 <= j < nyt ==> Abs(f[i][j] - w[i][j]) <= Off(a, b, i, j)
  }

  // f holds, around the block whose first cell is (p, q), its coefficients off by a and b.
  ghost predicate CoefficientsClose(f: Grid, m: Grid, nx: nat, ny: nat, nxt: nat, nyt: nat, u: nat, d: nat, a: nat,
                                    b: nat, p: nat, q: nat)
    requires Block(m, nx, ny, nxt, nyt) && Block(f, nx, ny, nxt, nyt) && u > 0 && p < nxt && q < nyt
    requires d == 1 || d == 2
  {
    if p + 1 < nxt && q + 1 < nyt then
      var t := ForwardQuad(m[p][q], m[p][q + 1], m[p + 1][q], m[p + 1][q + 1], u, d);
      Abs(f[p][q] - t.h0) <= a && Abs(f[p + 1][q] - t.hx) <= b && Abs(f[p][q + 1] - t.hy) <= b &&
      Abs(f[p + 1][q + 1] - t.hc) <= b
    else if p + 1 < nxt then
      var t := ForwardPair(m[p][q], m[p + 1][q], u, d);
      Abs(f[p][q] - t.0) <= a && Abs(f[p + 1][q] - t.1) <= b
    else if q + 1 < nyt then
      var t := ForwardPair(m[p][q], m[p][q + 1], u, d);
      Abs(f[p][q] - t.0) <= a && Abs(f[p][q + 1] - t.1) <= b
    else
      Abs(f[p][q] - ForwardCorner(m[p][q], u, d)) <= a
  }

  lemma CloseAt(f: Grid, w: Grid, nx: nat, ny: nat, nxt: nat, nyt: nat, a: nat, b: nat, i: nat, j: nat)
    requires Block(f, nx, ny, nxt, nyt) && Block(w, nx, ny, nxt, nyt) && i < nxt && j < nyt
    requires BlockClose(f, w, nx, ny, nxt, nyt, a, b)
    ensures Abs(f[i][j] - w[i][j]) <= Off(a, b, i, j)
  {
  }

  lemma BlockCoefficients(f: Grid, w: Grid, m: Grid, nx: nat, ny: nat, nxt: nat, nyt: nat, u: nat, d: nat, a: nat,
                          b: nat, p: nat, q: nat)
    requires Block(f, nx, ny, nxt, nyt) && Block(w, nx, ny, nxt, nyt) && Block(m, nx, ny, nxt, nyt)
    requires p < nxt && q < nyt && p % 2 == q % 2 == 0 && u > 0 && (d == 1 || d == 2)
    requires Coefficients(w, m, nx, ny, nxt, nyt, u, d, p, q) && BlockClose(f, w, nx, ny, nxt, nyt, a, b)
    ensures CoefficientsClose(f, m, nx, ny, nxt, nyt, u, d, a, b, p, q)
  {
    hide BlockClose;
    hide ForwardQuad;
    hide ForwardPair;
    hide ForwardCorner;
    CloseAt(f, w, nx, ny, nxt, nyt, a, b, p, q);
    if p + 1 < nxt {
      CloseAt(f, w, nx, ny, nxt, nyt, a, b, p + 1, q);
    }
    if q + 1 < nyt {
      CloseAt(f, w, nx, ny, nxt, nyt, a, b, p, q + 1);
      if p + 1 < nxt {
        CloseAt(f, w, nx, ny, nxt, nyt, a, b, p + 1, q + 1);
      }
    }
  }

  lemma CellError(f: Grid, m: Grid, nx: nat, ny: nat, nxt: nat, nyt: nat, u: nat, d: nat, g: nat, a: nat, b: nat,
                  i: nat, j: nat)
    requires Block(f, nx, ny, nxt, nyt) && Block(m, nx, ny, nxt, nyt) && i < nxt && j < nyt && Unit(u, d, g)
    requires Multiples(m, nx, ny, nxt, nyt, g)
    requires CoefficientsClose(f, m, nx, ny, nxt, nyt, u, d, a, b, i - i % 2, j - j % 2)
    ensures Abs(InverseCell(f, nx, ny, nxt, nyt, u, Final(d), i, j) - m[i][j]) <= Drift(a, b, u, Final(d))
  {
    hide Multiple;
    hide Unit;
    hide Final;
    hide ForwardQuad;
    hide ForwardPair;
    hide ForwardCorner;
    hide InversePixels;
    hide InversePair;
    hide InverseCorner;
    hide Drift;
    var p, q := i - i % 2, j - j % 2;
    UnitRange(u, d, g);
    if p + 1 < nxt {
      if q + 1 < nyt {
        QuadOff(Quad(f[p][q], f[p + 1][q], f[p][q + 1], f[p + 1][q + 1]), m[p][q], m[p][q + 1], m[p + 1][q],
                m[p + 1][q + 1], u, d, g, a, b);
      } else {
        PairOff(f[p][q], f[p + 1][q], m[p][q], m[p + 1][q], u, d, g, a, b);
      }
    } else {
      if q + 1 < nyt {
        PairOff(f[p][q], f[p][q + 1], m[p][q], m[p][q + 1], u, d, g, a, b);
      } else {
        CornerOff(f[p][q], m[p][q], u, d, g, a, b);
      }
    }
  }

  // ---- the error of a level, and of all levels ----

  // The sums of level k are off by at most a and the coefficients beside them by at most b.
  ghost predicate LevelClose(f: Grid, t: Grid, nx: nat, ny: nat, k: nat, a: nat, b: nat)
    requires IsGrid(f, nx, ny) && IsGrid(t, nx, ny)
  {
    forall i, j {:trigger f[i][j]} :: 0 <= i < nx && 0 <= j < ny ==>
      Abs(f[i][j] - t[i][j]) <= if i < Top(nx, k) && j < Top(ny, k) then a else b
  }

  lemma RegroupClose(f: Grid, m: Grid, nx: nat, ny: nat, k: nat, a: nat, b: nat)
    requires IsGrid(f, nx, ny) && IsGrid(m, nx, ny)
    requires LevelClose(f, ForwardLevel(m, nx, ny, k), nx, ny, k + 1, a, b)
    ensures var nxt, nyt := Top(nx, k), Top(ny, k);
            var w := Forward(m, nx, ny, nxt, nyt, Pow2(k), Divisor(k));
            BlockClose(Regroup(f, nx, ny, nxt, nyt, true), w, nx, ny, nxt, nyt, a, b)
  {
    hide LevelClose;
    hide ForwardCell;
    hide ForwardLevel;
    hide RegroupCell;
    hide Top;
    hide Pow2;
    hide Divisor;
    DivisorOneOrTwo(k);
    var nxt, nyt, u, d := Top(nx, k), Top(ny, k), Pow2(k), Divisor(k);
    var w, r := Forward(m, nx, ny, nxt, nyt, u, d), Regroup(f, nx, ny, nxt, nyt, true);
    forall p, q | 0 <= p < nxt && 0 <= q < nyt
      ensures Abs(r[p][q] - w[p][q]) <= Off(a, b, p, q)
    {
      RegroupedClose(f, m, nx, ny, k, a, b, p, q);
    }
  }

  lemma RegroupedClose(f: Grid, m: Grid, nx: nat, ny: nat, k: nat, a: nat, b: nat, p: nat, q: nat)
    requires IsGrid(f, nx, ny) && IsGrid(m, nx, ny) && p < Top(nx, k) && q < Top(ny, k)
    requires LevelClose(f, ForwardLevel(m, nx, ny, k), nx, ny, k + 1, a, b)
    ensures var nxt, nyt := Top(nx, k), Top(ny, k);
            var w := Forward(m, nx, ny, nxt, nyt, Pow2(k), Divisor(k));
            Abs(Regroup(f, nx, ny, nxt, nyt, true)[p][q] - w[p][q]) <= Off(a, b, p, q)
  {
    hide ForwardCell;
    hide ForwardLevel;
    hide RegroupCell;
    hide Top;
    hide Pow2;
    hide Divisor;
    var i, j := Shuffled(Top(nx, k), p), Shuffled(Top(ny, k), q);
    hide Shuffled;
    Regrouped(f, m, nx, ny, k, p, q);
    HalvesApart(nx, k, p);
    HalvesApart(ny, k, q);
  }

  lemma FinalPositive()
    ensures forall d: nat :: Final(d) > 0
  {
  }

  lemma LevelError(f: Grid, m: Grid, nx: nat, ny: nat, k: nat, a: nat, b: nat)
    requires IsGrid(f, nx, ny) && IsGrid(m, nx, ny)
    requires Multiples(m, nx, ny, Top(nx, k), Top(ny, k), Grain(k))
    requires LevelClose(f, ForwardLevel(m, nx, ny, k), nx, ny, k + 1, a, b)
    ensures LevelClose(InverseLevel(f, nx, ny, k), m, nx, ny, k, Drift(a, b, Pow2(k), Final(Divisor(k))), b)
  {
    FinalPositive();
    hide LevelClose;
    hide Multiples;
    hide InverseLevel;
    hide ForwardLevel;
    hide Drift;
    hide Pow2;
    hide Top;
    hide Divisor;
    hide Final;
    var v := InverseLevel(f, nx, ny, k);
    var c := Drift(a, b, Pow2(k), Final(Divisor(k)));
    forall i, j | 0 <= i < nx && 0 <= j < ny
      ensures Abs(v[i][j] - m[i][j]) <= if i < Top(nx, k) && j < Top(ny, k) then c else b
    {
      if i < Top(nx, k) && j < Top(ny, k) {
        LevelInside(f, m, nx, ny, k, a, b, i, j);
      } else {
        LevelBehind(f, m, nx, ny, k, a, b, i, j);
      }
    }
    AllClose(v, m, nx, ny, k, c, b);
  }

  lemma LevelInside(f: Grid, m: Grid, nx: nat, ny: nat, k: nat, a: nat, b: nat, i: nat, j: nat)
    requires IsGrid(f, nx, ny) && IsGrid(m, nx, ny) && i < Top(nx, k) && j < Top(ny, k)
    requires Multiples(m, nx, ny, Top(nx, k), Top(ny, k), Grain(k))
    requires LevelClose(f, ForwardLevel(m, nx, ny, k), nx, ny, k + 1, a, b)
    ensures Abs(InverseLevel(f, nx, ny, k)[i][j] - m[i][j]) <= Drift(a, b, Pow2(k), Final(Divisor(k)))
  {
    hide Multiples;
    hide BlockClose;
    hide LevelClose;
    hide Coefficients;
    hide CoefficientsClose;
    hide InverseCell;
    hide ForwardCell;
    hide ForwardLevel;
    hide Drift;
    hide Pow2;
    hide Top;
    hide Divisor;
    hide Grain;
    GrainIsUnit(k);
    var nxt, nyt, u, d, g := Top(nx, k), Top(ny, k), Pow2(k), Divisor(k), Grain(k);
    UnitRange(u, d, g);
    hide Unit;
    RegroupClose(f, m, nx, ny, k, a, b);
    var r, w, p, q := Regroup(f, nx, ny, nxt, nyt, true), Forward(m, nx, ny, nxt, nyt, u, d), i - i % 2, j - j % 2;
    ForwardCoefficients(m, nx, ny, nxt, nyt, u, d, p, q);
    BlockCoefficients(r, w, m, nx, ny, nxt, nyt, u, d, a, b, p, q);
    CellError(r, m, nx, ny, nxt, nyt, u, d, g, a, b, i, j);
  }

  lemma LevelBehind(f: Grid, m: Grid, nx: nat, ny: nat, k: nat, a: nat, b: nat, i: nat, j: nat)
    requires IsGrid(f, nx, ny) && IsGrid(m, nx, ny) && i < nx && j < ny && !(i < Top(nx, k) && j < Top(ny, k))
    requires LevelClose(f, ForwardLevel(m, nx, ny, k), nx, ny, k + 1, a, b)
    ensures Abs(InverseLevel(f, nx, ny, k)[i][j] - m[i][j]) <= b
  {
    Beyond(f, m, nx, ny, k);
    TopFalls(nx, k);
    TopFalls(ny, k);
    hide Top;
    hide InverseLevel;
    hide ForwardLevel;
  }

  lemma AllClose(f: Grid, t: Grid, nx: nat, ny: nat, k: nat, a: nat, b: nat)
    requires IsGrid(f, nx, ny) && IsGrid(t, nx, ny)
    requires forall i, j {:trigger f[i][j]} :: 0 <= i < nx && 0 <= j < ny ==>
               Abs(f[i][j] - t[i][j]) <= if i < Top(nx, k) && j < Top(ny, k) then a else b
    ensures LevelClose(f, t, nx, ny, k, a, b)
  {
  }

  lemma TopFalls(n: nat, k: nat)
    ensures Top(n, k + 1) <= Top(n, k)
  {
  }

  // The error after undoing the first n levels.
  function ErrorAfter(a: nat, b: nat, n: nat): nat
    decreases n
  {
    if n == 0 then a else ErrorAfter(Drift(a, b, Pow2(n - 1), Final(Divisor(n - 1))), b, n - 1)
  }

  lemma {:induction false} UntransformError(f: Grid, m: Grid, nx: nat, ny: nat, n: nat, a: nat, b: nat)
    requires IsGrid(f, nx, ny) && IsGrid(m, nx, ny) && LevelClose(f, Transform(m, nx, ny, n), nx, ny, n, a, b)
    ensures LevelClose(Untransform(f, nx, ny, n), m, nx, ny, 0, ErrorAfter(a, b, n), b)
    decreases n
  {
    hide LevelClose;
    hide Multiples;
    hide ForwardLevel;
    hide InverseLevel;
    hide Drift;
    hide Pow2;
    hide Divisor;
    FinalPositive();
    hide Final;
    if n > 0 {
      TransformMultiples(m, nx, ny, n - 1);
      LevelError(f, Transform(m, nx, ny, n - 1), nx, ny, n - 1, a, b);
      UntransformError(InverseLevel(f, nx, ny, n - 1), m, nx, ny, n - 1,
                       Drift(a, b, Pow2(n - 1), Final(Divisor(n - 1))), b);
    }
  }

  // Every level halves what it gets and adds less than eleven halves of its unit.
  lemma {:induction false} ErrorBelow(a: nat, b: nat, n: nat, c: nat)
    requires n > 0 && 2 * a <= 6 * b + c * Pow2(n) + 2
    ensures 4 * ErrorAfter(a, b, n) <= 6 * b + c + 11 * n + 4
    decreases n
  {
    var u := Pow2(n - 1);
    Doubled(c, u);
    if n == 1 {
      assert ErrorAfter(a, b, 1) == ErrorAfter(Drift(a, b, 1, 4), b, 0) == Drift(a, b, 1, 4);
    } else {
      AddEleven(c, u);
      ErrorBelow(Drift(a, b, u, 2), b, n - 1, c + 11);
    }
  }

  lemma Doubled(c: nat, u: nat)
    ensures c * (2 * u) == 2 * (c * u)
  {
  }

  lemma AddEleven(c: nat, u: nat)
    ensures (c + 11) * u == c * u + 11 * u
  {
  }

  ghost predicate Apart(f: Grid, t: Grid, nx: nat, ny: nat, b: nat)
  {
    IsGrid(f, nx, ny) && IsGrid(t, nx, ny) &&
    forall i, j {:trigger f[i][j]} :: 0 <= i < nx && 0 <= j < ny ==> Abs(f[i][j] - t[i][j]) <= b
  }

  // Coefficients that are off by at most b give pixels that are off by at most (6*b + 11*n + 6)/4.
  lemma PixelError(f: Grid, m: Grid, nx: nat, ny: nat, n: nat, b: nat)
    requires IsGrid(m, nx, ny) && nx > 0 && ny > 0 && n > 0 && Apart(f, Transform(m, nx, ny, n), nx, ny, b)
    ensures IsGrid(f, nx, ny) && Apart(InverseTransform(f, nx, ny, n), m, nx, ny, (6 * b + 11 * n + 6) / 4)
  {
    hide Transform;
    hide SnapSum;
    hide Untransform;
    hide LevelClose;
    var u, t := Pow2(n - 1), Transform(m, nx, ny, n);
    var x := SnapSum(f[0][0], u);
    SumMoves(f[0][0], u);
    CloseSet(f, t, nx, ny, n, x, b, u);
    UntransformError(f[0 := f[0][0 := x]], m, nx, ny, n, b + 2 * u, b);
    ErrorBelow(b + 2 * u, b, n, 2);
    ClosePixels(InverseTransform(f, nx, ny, n), m, nx, ny, ErrorAfter(b + 2 * u, b, n), b, (6 * b + 11 * n + 6) / 4);
  }

  lemma ClosePixels(r: Grid, m: Grid, nx: nat, ny: nat, a: nat, b: nat, c: nat)
    requires IsGrid(r, nx, ny) && IsGrid(m, nx, ny) && LevelClose(r, m, nx, ny, 0, a, b) && a <= c
    ensures Apart(r, m, nx, ny, c)
  {
  }

  lemma CloseSet(f: Grid, t: Grid, nx: nat, ny: nat, n: nat, x: int, b: nat, u: nat)
    requires nx > 0 && ny > 0 && Apart(f, t, nx, ny, b) && Abs(x - f[0][0]) <= 2 * u
    ensures LevelClose(f[0 := f[0][0 := x]], t, nx, ny, n, b + 2 * u, b)
  {
    var w := f[0 := f[0][0 := x]];
    hide Top;
    TopPositive(nx, n);
    TopPositive(ny, n);
    forall i, j | 0 <= i < nx && 0 <= j < ny
      ensures Abs(w[i][j] - t[i][j]) <= if i < Top(nx, n) && j < Top(ny, n) then b + 2 * u else b
    {
      assert w[i][j] == if i == 0 && j == 0 then x else f[i][j];
      assert Abs(f[i][j] - t[i][j]) <= b;
    }
  }

  lemma TopPositive(n: nat, k: nat)
    requires n > 0
    ensures Top(n, k) > 0
  {
  }
}
