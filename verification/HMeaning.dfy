/** What the coefficients of one level of the H-transform say about the pixels they stand for. */
module HMeaning {
  import opened Powers
  import opened Grids
  import opened HQuad
  import opened HShuffle
  import opened HBlock
  import opened HLevel
  import opened HTransform
  import opened HError

  // r is h/d, rounded to a multiple of g with ties away from zero.
  ghost predicate Rounded(r: int, h: int, d: nat, g: nat)
    requires g > 0
  {
    Multiple(r, g) && 2 * Abs(d * r - h) <= d * g && (2 * Abs(d * r - h) == d * g ==> Abs(d * r) > Abs(h))
  }

  lemma SumRounded(s: int, h: int, u: nat, d: nat)
    requires u > 0 && (d == 1 || d == 2) && h == d * s
    ensures Rounded(RoundSum(s, u), h, d, 4 * u)
  {
    hide RoundSum;
    hide SnapSum;
    hide Multiple;
    SumIsSnapped(s, u);
    SnapSumNearest(s, u);
  }

  lemma SumIsSnapped(s: int, u: nat)
    requires u > 0
    ensures RoundSum(s, u) == SnapSum(s, u)
  {
  }

  lemma SideRounded(s: int, h: int, u: nat, d: nat)
    requires u > 0 && (d == 1 || d == 2) && h == d * s && Multiple(s, u)
    ensures Rounded(RoundSide(s, u), h, d, 2 * u)
  {
    hide RoundSide;
    hide SnapSide;
    hide Multiple;
    SideIsSnapped(s, u);
    SnapSideNearest(s, u);
  }

  lemma SideIsSnapped(s: int, u: nat)
    requires u > 0 && Multiple(s, u)
    ensures RoundSide(s, u) == SnapSide(s, u)
  {
    if s < 0 {
      var r := RoundSide(s, u);
      Floored(s, 2 * u);
      AsMultiple(r, 2 * u);
      AsMultiple(s, u);
      hide FloorTo;
      hide Multiple;
      CloseMultiples(s / u, 2 * (r / (2 * u)), u);
      assert u * (2 * (r / (2 * u))) == 2 * u * (r / (2 * u)) == r;
      FloorNear(s + u - 1, r, 2 * u);
    }
  }

  // Multiples of u that are less than 2*u apart are at most u apart.
  lemma CloseMultiples(a: int, b: int, u: nat)
    requires u > 0 && u * a < u * b + 2 * u
    ensures u * a <= u * b + u
  {
    assert u * (b + 2 - a) > 0;
    AtLeast(u, b + 2 - a);
    assert u * (b + 2 - a) == u * b + 2 * u - u * a;
  }

  // ---- blocks of pixels ----

  // Sums and differences of multiples divide evenly.
  lemma EvenShare(a: int, b: int, c: int, e: int, u: nat, d: nat, g: nat)
    requires Unit(u, d, g)
    ensures var s := g * a + g * b + g * c + g * e; s == d * (s / d) && Multiple(s / d, u)
  {
    UnitRange(u, d, g);
    Factor(g, a, b, c, e);
    DivideSum(a + b + c + e, u, d, g);
    TimesIsMultiple(u, a + b + c + e);
    DividesEvenly(a + b + c + e, u, d, g);
    hide Unit;
    hide Multiple;
  }

  lemma DividesEvenly(x: int, u: nat, d: nat, g: nat)
    requires Unit(u, d, g)
    ensures g * x == d * (u * x)
  {
    assert d == 2 ==> g * x == 2 * (u * x);
  }

  lemma QuadMeans(p00: int, p01: int, p10: int, p11: int, u: nat, d: nat, g: nat)
    requires Unit(u, d, g) && u > 0 && (d == 1 || d == 2)
    ensures var x00, x01, x10, x11 := g * p00, g * p01, g * p10, g * p11;
            var q := ForwardQuad(x00, x01, x10, x11, u, d);
            Rounded(q.h0, x11 + x10 + x01 + x00, d, 4 * u) && Rounded(q.hx, x11 + x10 - x01 - x00, d, 2 * u) &&
            Rounded(q.hy, x11 - x10 + x01 - x00, d, 2 * u) && d * q.hc == x11 - x10 - x01 + x00
  {
    hide Unit;
    hide Multiple;
    hide Rounded;
    hide RoundSum;
    hide RoundSide;
    EvenShare(p11, p10, p01, p00, u, d, g);
    EvenShare(p11, p10, -p01, -p00, u, d, g);
    EvenShare(p11, -p10, p01, -p00, u, d, g);
    EvenShare(p11, -p10, -p01, p00, u, d, g);
    Opposite(g, p00);
    Opposite(g, p01);
    Opposite(g, p10);
    var x00, x01, x10, x11 := g * p00, g * p01, g * p10, g * p11;
    SumRounded((x11 + x10 + x01 + x00) / d, x11 + x10 + x01 + x00, u, d);
    SideRounded((x11 + x10 - x01 - x00) / d, x11 + x10 - x01 - x00, u, d);
    SideRounded((x11 - x10 + x01 - x00) / d, x11 - x10 + x01 - x00, u, d);
  }

  lemma Opposite(g: int, x: int)
    ensures g * -x == -(g * x)
  {
  }

  // Two pixels at an odd edge count twice.
  lemma PairMeans(p0: int, p1: int, u: nat, d: nat, g: nat)
    requires Unit(u, d, g) && u > 0 && (d == 1 || d == 2)
    ensures var x0, x1 := g * p0, g * p1;
            var t := ForwardPair(x0, x1, u, d);
            Rounded(t.0, x1 + x0 + x1 + x0, d, 4 * u) && Rounded(t.1, x1 + x1 - x0 - x0, d, 2 * u)
  {
    hide Multiple;
    hide Rounded;
    hide RoundSum;
    hide RoundSide;
    var x0, x1 := g * p0, g * p1;
    WidenedMultiple(p0, p1, u, d, g);
    SumRounded(Widen(x1 + x0, d), x1 + x0 + x1 + x0, u, d);
    SideRounded(Widen(x1 - x0, d), x1 + x1 - x0 - x0, u, d);
  }

  lemma WidenedMultiple(p0: int, p1: int, u: nat, d: nat, g: nat)
    requires Unit(u, d, g) && u > 0
    ensures Multiple(Widen(g * p1 - g * p0, d), u)
  {
    Factor(g, p1, 0, p0, 0);
    DivideSum(p1 - p0, u, d, g);
    Double(u, p1 - p0);
    TimesIsMultiple(u, 2 * (p1 - p0));
  }

  lemma QuadOfMeans(x00: int, x01: int, x10: int, x11: int, u: nat, d: nat, g: nat)
    requires Unit(u, d, g) && u > 0 && (d == 1 || d == 2)
    requires Multiple(x00, g) && Multiple(x01, g) && Multiple(x10, g) && Multiple(x11, g)
    ensures var q := ForwardQuad(x00, x01, x10, x11, u, d);
            Rounded(q.h0, x11 + x10 + x01 + x00, d, 4 * u) && Rounded(q.hx, x11 + x10 - x01 - x00, d, 2 * u) &&
            Rounded(q.hy, x11 - x10 + x01 - x00, d, 2 * u) && d * q.hc == x11 - x10 - x01 + x00
  {
    AsMultiple(x00, g);
    AsMultiple(x01, g);
    AsMultiple(x10, g);
    AsMultiple(x11, g);
    hide ForwardQuad;
    hide Rounded;
    QuadMeans(x00 / g, x01 / g, x10 / g, x11 / g, u, d, g);
  }

  lemma PairOfMeans(x0: int, x1: int, u: nat, d: nat, g: nat)
    requires Unit(u, d, g) && u > 0 && (d == 1 || d == 2) && Multiple(x0, g) && Multiple(x1, g)
    ensures var t := ForwardPair(x0, x1, u, d);
            Rounded(t.0, x1 + x0 + x1 + x0, d, 4 * u) && Rounded(t.1, x1 + x1 - x0 - x0, d, 2 * u)
  {
    AsMultiple(x0, g);
    AsMultiple(x1, g);
    hide ForwardPair;
    hide Rounded;
    PairMeans(x0 / g, x1 / g, u, d, g);
  }

  // The corner pixel counts four times.
  lemma CornerMeans(x: int, u: nat, d: nat)
    requires u > 0 && (d == 1 || d == 2)
    ensures Rounded(ForwardCorner(x, u, d), x + x + x + x, d, 4 * u)
  {
    hide RoundSum;
    hide Rounded;
    SumRounded(2 * Widen(x, d), x + x + x + x, u, d);
  }

  // ---- the block of pixels behind the coefficients (i, j) of a level ----

  // The other row or column of a block; at an odd edge the last one stands in for it.
  function Partner(n: nat, i: nat): (p: nat)
    requires 2 * i < n
    ensures p < n
  {
    if 2 * i + 1 < n then 2 * i + 1 else 2 * i
  }

  // Where a level puts the coefficients of a block: sums at the top left, differences below and beside them.
  lemma Places(m: Grid, nx: nat, ny: nat, k: nat, i: nat, j: nat)
    requires IsGrid(m, nx, ny) && i < Top(nx, k + 1) && j < Top(ny, k + 1)
    ensures 2 * i < Top(nx, k) && 2 * j < Top(ny, k)
    ensures var t, h, w := ForwardLevel(m, nx, ny, k), Top(nx, k + 1), Top(ny, k + 1);
            var f := Forward(m, nx, ny, Top(nx, k), Top(ny, k), Pow2(k), Divisor(k));
            t[i][j] == f[2 * i][2 * j] &&
            (2 * i + 1 < Top(nx, k) ==> h + i < Top(nx, k) && t[h + i][j] == f[2 * i + 1][2 * j]) &&
            (2 * j + 1 < Top(ny, k) ==> w + j < Top(ny, k) && t[i][w + j] == f[2 * i][2 * j + 1]) &&
            (2 * i + 1 < Top(nx, k) && 2 * j + 1 < Top(ny, k) ==> t[h + i][w + j] == f[2 * i + 1][2 * j + 1])
  {
    HalfOf(nx, k, i);
    HalfOf(ny, k, j);
    DivisorOneOrTwo(k);
    hide Top;
    hide Pow2;
    hide Divisor;
    hide ForwardCell;
    var h, w := Top(nx, k + 1), Top(ny, k + 1);
    var f := Forward(m, nx, ny, Top(nx, k), Top(ny, k), Pow2(k), Divisor(k));
    var t := ForwardLevel(m, nx, ny, k);
    assert t[i][j] == RegroupCell(f, nx, ny, Top(nx, k), Top(ny, k), false, i, j);
    if 2 * i + 1 < Top(nx, k) {
      assert t[h + i][j] == RegroupCell(f, nx, ny, Top(nx, k), Top(ny, k), false, h + i, j);
      if 2 * j + 1 < Top(ny, k) {
        assert t[h + i][w + j] == RegroupCell(f, nx, ny, Top(nx, k), Top(ny, k), false, h + i, w + j);
      }
    }
    if 2 * j + 1 < Top(ny, k) {
      assert t[i][w + j] == RegroupCell(f, nx, ny, Top(nx, k), Top(ny, k), false, i, w + j);
    }
  }

  lemma HalfOf(n: nat, k: nat, i: nat)
    requires i < Top(n, k + 1)
    ensures 2 * i < Top(n, k) && Unshuffled(Top(n, k), i) == 2 * i
    ensures 2 * i + 1 < Top(n, k) ==>
            Top(n, k + 1) + i < Top(n, k) && Unshuffled(Top(n, k), Top(n, k + 1) + i) == 2 * i + 1
  {
    assert Top(n, k + 1) == (Top(n, k) + 1) / 2;
  }

  // What the forward step leaves in a block of pixels x00, x01, x10, x11.
  ghost predicate BlockMeans(f: Grid, nx: nat, ny: nat, nxt: nat, nyt: nat, i: nat, j: nat, x00: int, x01: int,
                             x10: int, x11: int, u: nat, d: nat)
    requires Block(f, nx, ny, nxt, nyt) && u > 0 && 2 * i < nxt && 2 * j < nyt
  {
    Rounded(f[2 * i][2 * j], x11 + x10 + x01 + x00, d, 4 * u) &&
    (2 * i + 1 < nxt ==> Rounded(f[2 * i + 1][2 * j], x11 + x10 - x01 - x00, d, 2 * u)) &&
    (2 * j + 1 < nyt ==> Rounded(f[2 * i][2 * j + 1], x11 - x10 + x01 - x00, d, 2 * u)) &&
    (2 * i + 1 < nxt && 2 * j + 1 < nyt ==> d * f[2 * i + 1][2 * j + 1] == x11 - x10 - x01 + x00)
  }

  lemma CoefficientsMean(f: Grid, m: Grid, nx: nat, ny: nat, nxt: nat, nyt: nat, u: nat, d: nat, g: nat, i: nat, j: nat)
    requires Block(f, nx, ny, nxt, nyt) && Block(m, nx, ny, nxt, nyt) && 2 * i < nxt && 2 * j < nyt
    requires Unit(u, d, g) && u > 0 && (d == 1 || d == 2)
    requires Coefficients(f, m, nx, ny, nxt, nyt, u, d, 2 * i, 2 * j)
    requires var p, q := Partner(nxt, i), Partner(nyt, j);
             Multiple(m[2 * i][2 * j], g) && Multiple(m[2 * i][q], g) && Multiple(m[p][2 * j], g) &&
             Multiple(m[p][q], g)
    ensures var p, q := Partner(nxt, i), Partner(nyt, j);
            BlockMeans(f, nx, ny, nxt, nyt, i, j, m[2 * i][2 * j], m[2 * i][q], m[p][2 * j], m[p][q], u, d)
  {
    hide Multiple;
    hide Rounded;
    hide Unit;
    hide ForwardQuad;
    hide ForwardPair;
    hide ForwardCorner;
    var p, q := Partner(nxt, i), Partner(nyt, j);
    if 2 * i + 1 < nxt {
      if 2 * j + 1 < nyt {
        QuadOfMeans(m[2 * i][2 * j], m[2 * i][q], m[p][2 * j], m[p][q], u, d, g);
      } else {
        PairOfMeans(m[2 * i][2 * j], m[p][2 * j], u, d, g);
      }
    } else {
      if 2 * j + 1 < nyt {
        PairOfMeans(m[2 * i][2 * j], m[2 * i][q], u, d, g);
      } else {
        CornerMeans(m[2 * i][2 * j], u, d);
      }
    }
  }

  lemma ForwardMeans(m: Grid, nx: nat, ny: nat, nxt: nat, nyt: nat, u: nat, d: nat, g: nat, i: nat, j: nat)
    requires Block(m, nx, ny, nxt, nyt) && 2 * i < nxt && 2 * j < nyt && Unit(u, d, g) && u > 0 && (d == 1 || d == 2)
    requires Multiples(m, nx, ny, nxt, nyt, g)
    ensures var p, q, f := Partner(nxt, i), Partner(nyt, j), Forward(m, nx, ny, nxt, nyt, u, d);
            BlockMeans(f, nx, ny, nxt, nyt, i, j, m[2 * i][2 * j], m[2 * i][q], m[p][2 * j], m[p][q], u, d)
  {
    hide Multiple;
    hide BlockMeans;
    hide Coefficients;
    hide Unit;
    hide Forward;
    hide ForwardCell;
    ForwardCoefficients(m, nx, ny, nxt, nyt, u, d, 2 * i, 2 * j);
    CoefficientsMean(Forward(m, nx, ny, nxt, nyt, u, d), m, nx, ny, nxt, nyt, u, d, g, i, j);
  }

  // The coefficients of a level are the sum and the three differences of the pixels of a block, halved above the first
  // level, and rounded to the nearest multiple, ties away from zero. Blocks at an odd edge repeat the last pixels.
  lemma LevelMeans(m: Grid, nx: nat, ny: nat, k: nat, i: nat, j: nat)
    requires IsGrid(m, nx, ny) && i < Top(nx, k + 1) && j < Top(ny, k + 1)
    requires Multiples(m, nx, ny, Top(nx, k), Top(ny, k), Grain(k))
    ensures 2 * i < Top(nx, k) && 2 * j < Top(ny, k)
    ensures var t, h, w, u, d := ForwardLevel(m, nx, ny, k), Top(nx, k + 1), Top(ny, k + 1), Pow2(k), Divisor(k);
            var p, q := Partner(Top(nx, k), i), Partner(Top(ny, k), j);
            var x00, x01, x10, x11 := m[2 * i][2 * j], m[2 * i][q], m[p][2 * j], m[p][q];
            Rounded(t[i][j], x11 + x10 + x01 + x00, d, 4 * u) &&
            (2 * i + 1 < Top(nx, k) ==>
               h + i < Top(nx, k) && Rounded(t[h + i][j], x11 + x10 - x01 - x00, d, 2 * u)) &&
            (2 * j + 1 < Top(ny, k) ==>
               w + j < Top(ny, k) && Rounded(t[i][w + j], x11 - x10 + x01 - x00, d, 2 * u)) &&
            (2 * i + 1 < Top(nx, k) && 2 * j + 1 < Top(ny, k) ==> d * t[h + i][w + j] == x11 - x10 - x01 + x00)
  {
    hide Multiples;
    hide ForwardLevel;
    hide Forward;
    hide Rounded;
    hide Top;
    hide Pow2;
    hide Divisor;
    hide Grain;
    Places(m, nx, ny, k, i, j);
    GrainIsUnit(k);
    UnitRange(Pow2(k), Divisor(k), Grain(k));
    hide Unit;
    ForwardMeans(m, nx, ny, Top(nx, k), Top(ny, k), Pow2(k), Divisor(k), Grain(k), i, j);
  }
}
