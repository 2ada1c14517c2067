/**
  One 2x2 block of the H-transform: the rounding that the forward step applies to
  the four sums, and the parity argument by which the inverse step recovers the bits
  that the rounding discards.

  At level k the block's pixels are multiples of u*d and the sums, once divided by d,
  are multiples of u, where u = 2^k and d = 1 at level 0 and 2 above it.
 */
module HQuad {
  import opened Powers

  datatype Quad = Quad(h0: int, hx: int, hy: int, hc: int)

  // Discard the bottom bit of hx or hy, rounding up when non-negative.
  function RoundSide(h: int, u: nat): int
    requires u > 0
  {
    FloorTo(if h >= 0 then h + u else h, 2 * u)
  }

  // Discard the two bottom bits of h0, rounding halves away from zero.
  function RoundSum(h: int, u: nat): int
    requires u > 0
  {
    FloorTo(if h >= 0 then h + 2 * u else h + 2 * u - 1, 4 * u)
  }

  function ForwardQuad(p00: int, p01: int, p10: int, p11: int, u: nat, d: nat): Quad
    requires u > 0 && d > 0
  {
    Quad(RoundSum((p11 + p10 + p01 + p00) / d, u),
         RoundSide((p11 + p10 - p01 - p00) / d, u),
         RoundSide((p11 - p10 + p01 - p00) / d, u),
         (p11 - p10 - p01 + p00) / d)
  }

  // x << (1 - shift), where d = 2^shift: at an odd edge half the pixels are missing.
  function Widen(x: int, d: nat): int
  {
    if d == 1 then 2 * x else x
  }

  // The divisor of the inverse step, 4 at level 0 and 2 above it.
  function Final(d: nat): nat
  {
    if d == 1 then 4 else 2
  }

  // Two pixels p0, p1 at an odd edge.
  function ForwardPair(p0: int, p1: int, u: nat, d: nat): (int, int)
    requires u > 0
  {
    (RoundSum(Widen(p1 + p0, d), u), RoundSide(Widen(p1 - p0, d), u))
  }

  function ForwardCorner(p: int, u: nat, d: nat): int
    requires u > 0
  {
    RoundSum(2 * Widen(p, d), u)
  }

  // Round a side coefficient to a multiple of bit1 = 2u.
  function SnapSide(h: int, u: nat): int
    requires u > 0
  {
    FloorTo(h + (if h >= 0 then u else u - 1), 2 * u)
  }

  // Round hc to a multiple of bit0 = u; the last level (u = 1) has no rounding.
  function SnapDiagonal(h: int, u: nat): int
    requires u > 0
  {
    FloorTo(h + (if h >= 0 || u == 1 then u / 2 else u / 2 - 1), u)
  }

  // Move a non-negative number towards zero by b and a negative one by -b.
  function Toward(h: int, b: int): int
  {
    if h >= 0 then h - b else h + b
  }

  // (x ^ y ^ z) & b for a power of two b.
  function XorBit(x: int, y: int, z: int, b: int): int
    requires b > 0
  {
    b * ((x / b + y / b + z / b) % 2)
  }

  // The four coefficients with the discarded bits put back.
  function Restore(q: Quad, u: nat): Quad
    requires u > 0
  {
    var hc := SnapDiagonal(q.hc, u);
    var low0 := LowBit(hc, u);
    var hx := Toward(SnapSide(q.hx, u), low0);
    var hy := Toward(SnapSide(q.hy, u), low0);
    var low1 := XorBit(hc, hx, hy, 2 * u);
    var h0 := if q.h0 >= 0 then q.h0 + low0 - low1
              else q.h0 + (if low0 == 0 then low1 else low0 - low1);
    Quad(h0, hx, hy, hc)
  }

  // The pixels (p00, p01, p10, p11); e is the final divisor.
  function InversePixels(q: Quad, u: nat, e: nat): (int, int, int, int)
    requires u > 0 && e > 0
  {
    Spread(Restore(q, u), e)
  }

  function Spread(r: Quad, e: nat): (int, int, int, int)
    requires e > 0
  {
    ((r.h0 - r.hx - r.hy + r.hc) / e,
     (r.h0 - r.hx + r.hy - r.hc) / e,
     (r.h0 + r.hx - r.hy - r.hc) / e,
     (r.h0 + r.hx + r.hy + r.hc) / e)
  }

  function InversePair(h0: int, h1: int, u: nat, e: nat): (int, int)
    requires u > 0 && e > 0
  {
    var side := SnapSide(h1, u);
    var sum := Toward(h0, LowBit(side, 2 * u));
    ((sum - side) / e, (sum + side) / e)
  }

  function InverseCorner(h0: int, e: nat): int
    requires e > 0
  {
    h0 / e
  }

  // ---- scaling by u ----

  lemma ScaleSplit(x: int, u: nat, m: nat)
    requires u > 0 && m > 0
    ensures u * m > 0
    ensures u * x == (u * m) * (x / m) + u * (x % m)
    ensures 0 <= u * (x % m) && u * (x % m) + u <= u * m
  {
    var q, r := x / m, x % m;
    Distribute(u, m, q, r);
    MulAtMost(u, r + 1, m);
  }

  lemma Distribute(u: int, m: int, q: int, r: int)
    ensures u * (m * q + r) == (u * m) * q + u * r
    ensures u * (r + 1) == u * r + u
  {
  }

  lemma MulAtMost(u: nat, x: int, y: int)
    ensures x <= y ==> u * x <= u * y
    ensures x >= 0 ==> u * x >= 0
  {
  }

  lemma FloorScale(x: int, t: int, u: nat, m: nat)
    requires u > 0 && m > 0 && 0 <= t < u
    ensures u * m > 0
    ensures FloorTo(u * x + t, u * m) == u * FloorTo(x, m)
  {
    ScaleSplit(x, u, m);
    QuotientUnique(u * x + t, u * m, x / m, u * (x % m) + t);
    Subtract(u, x, x % m);
  }

  lemma Subtract(u: int, x: int, y: int)
    ensures u * x - u * y == u * (x - y)
  {
  }

  lemma DivScale(x: int, u: nat, m: nat)
    requires u > 0 && m > 0
    ensures u * m > 0
    ensures (u * x) / (u * m) == x / m
  {
    ScaleSplit(x, u, m);
    QuotientUnique(u * x, u * m, x / m, u * (x % m));
  }

  lemma SignScale(x: int, u: nat)
    requires u > 0
    ensures u * x >= 0 <==> x >= 0
  {
  }

  lemma MulPlus(u: int, x: int)
    ensures u * (x + 1) == u * x + u
    ensures u * (x + 2) == u * x + 2 * u
  {
  }

  lemma RoundSideScale(x: int, u: nat)
    requires u > 0
    ensures RoundSide(u * x, u) == u * RoundSide(x, 1)
  {
    hide FloorTo;
    SignScale(x, u);
    MulPlus(u, x);
    FloorScale(if x >= 0 then x + 1 else x, 0, u, 2);
  }

  lemma RoundSumScale(x: int, u: nat)
    requires u > 0
    ensures RoundSum(u * x, u) == u * RoundSum(x, 1)
  {
    hide FloorTo;
    SignScale(x, u);
    MulPlus(u, x);
    if x >= 0 {
      FloorScale(x + 2, 0, u, 4);
    } else {
      FloorScale(x + 1, u - 1, u, 4);
    }
  }

  // Snapping leaves a multiple of the unit alone.
  lemma SnapSideExact(x: int, u: nat)
    requires u > 0 && x % 2 == 0
    ensures SnapSide(u * x, u) == u * x
  {
    var y := x / 2;
    assert u * x == (2 * u) * y;
    FloorScale(y, u, 2 * u, 1);
    FloorScale(y, u - 1, 2 * u, 1);
  }

  lemma SnapDiagonalExact(x: int, u: nat)
    requires u == 1 || u % 2 == 0
    requires u > 0
    ensures SnapDiagonal(u * x, u) == u * x
  {
    FloorScale(x, u / 2, u, 1);
    if u > 1 {
      FloorScale(x, u / 2 - 1, u, 1);
    }
  }

  lemma LowBitScale(x: int, u: nat)
    requires u > 0
    ensures LowBit(u * x, u) == u * (x % 2)
  {
    DivScale(x, u, 1);
  }

  lemma XorBitScale(x: int, y: int, z: int, u: nat)
    requires u > 0
    ensures XorBit(u * x, u * y, u * z, 2 * u) == u * XorBit(x, y, z, 2)
  {
    DivScale(x, u, 2);
    DivScale(y, u, 2);
    DivScale(z, u, 2);
  }

  // ---- the parity argument, at unit 1 ----

  lemma SideUnit(h: int)
    ensures RoundSide(h, 1) % 2 == 0
    ensures Toward(SnapSide(RoundSide(h, 1), 1), h % 2) == h
  {
    var r := if h % 2 == 0 then h else if h >= 0 then h + 1 else h - 1;
    assert r % 2 == 0;
    assert RoundSide(h, 1) == r;
    hide RoundSide;
    assert SnapSide(r, 1) == r;
  }

  lemma SumUnit(h: int)
    ensures RoundSum(h, 1) % 4 == 0
    ensures var low0, low1, r := h % 2, 2 * (h / 2 % 2), RoundSum(h, 1);
            h == if r >= 0 then r + low0 - low1
                 else r + (if low0 == 0 then low1 else low0 - low1)
  {
  }

  // With a common bit 0, bit 1 of h is the xor of bit 1 of the other three.
  lemma BitOneIsXor(h: int, a: int, b: int, c: int)
    ensures XorBit(h - 2 * (a + b), h - 2 * (a + c), h - 2 * (b + c), 2) == 2 * (h / 2 % 2)
  {
    assert (h - 2 * (a + b)) / 2 == h / 2 - (a + b);
    assert (h - 2 * (a + c)) / 2 == h / 2 - (a + c);
    assert (h - 2 * (b + c)) / 2 == h / 2 - (b + c);
    assert (3 * (h / 2) - 2 * (a + b + c)) % 2 == h / 2 % 2;
  }

  lemma RestoreSums(h0: int, hx: int, hy: int, hc: int)
    requires h0 % 2 == hx % 2 == hy % 2 == hc % 2
    requires XorBit(hc, hx, hy, 2) == 2 * (h0 / 2 % 2)
    ensures Restore(Quad(RoundSum(h0, 1), RoundSide(hx, 1), RoundSide(hy, 1), hc), 1)
         == Quad(h0, hx, hy, hc)
  {
    SideUnit(hx);
    SideUnit(hy);
    SumUnit(h0);
    assert SnapDiagonal(hc, 1) == hc;
    assert LowBit(hc, 1) == hc % 2;
  }

  // The exact sums of four pixels.
  function Sums(p00: int, p01: int, p10: int, p11: int): Quad
  {
    Quad(p11 + p10 + p01 + p00, p11 + p10 - p01 - p00, p11 - p10 + p01 - p00, p11 - p10 - p01 + p00)
  }

  lemma SumsShareParity(p00: int, p01: int, p10: int, p11: int)
    ensures var s := Sums(p00, p01, p10, p11);
            s.h0 % 2 == s.hx % 2 == s.hy % 2 == s.hc % 2 &&
            XorBit(s.hc, s.hx, s.hy, 2) == 2 * (s.h0 / 2 % 2)
  {
    var s := Sums(p00, p01, p10, p11);
    hide XorBit;
    BitOneIsXor(s.h0, p01, p10, p00);
    LessEven(s.h0, p01 + p10);
    LessEven(s.h0, p01 + p00);
    LessEven(s.h0, p10 + p00);
    assert s.hc == s.h0 - 2 * (p01 + p10) && s.hx == s.h0 - 2 * (p01 + p00) && s.hy == s.h0 - 2 * (p10 + p00);
  }

  lemma LessEven(h: int, x: int)
    ensures (h - 2 * x) % 2 == h % 2
  {
  }

  lemma RestoreUnit(p00: int, p01: int, p10: int, p11: int)
    ensures var q := ForwardQuad(p00, p01, p10, p11, 1, 1);
            Restore(q, 1) == Sums(p00, p01, p10, p11)
  {
    var s := Sums(p00, p01, p10, p11);
    assert ForwardQuad(p00, p01, p10, p11, 1, 1) ==
      Quad(RoundSum(s.h0, 1), RoundSide(s.hx, 1), RoundSide(s.hy, 1), s.hc);
    hide Restore;
    hide RoundSum;
    hide RoundSide;
    SumsShareParity(p00, p01, p10, p11);
    RestoreSums(s.h0, s.hx, s.hy, s.hc);
  }

  // ---- and at every unit ----

  ghost predicate Unit(u: nat, d: nat, g: nat)
  {
    (u == 1 && d == 1 && g == 1) || (u > 0 && u % 2 == 0 && d == 2 && g == 2 * u)
  }

  function Scale(q: Quad, u: nat): Quad
  {
    Quad(u * q.h0, u * q.hx, u * q.hy, u * q.hc)
  }

  lemma DivideSum(s: int, u: nat, d: nat, g: nat)
    requires Unit(u, d, g)
    ensures g * s / d == u * s
    ensures Widen(g * s, d) == 2 * (u * s)
    ensures 4 * (u * s) / Final(d) == g * s
  {
    assert d == 2 ==> g * s == 2 * (u * s);
  }

  lemma Factor(g: int, a: int, b: int, c: int, e: int)
    ensures g * a + g * b + g * c + g * e == g * (a + b + c + e)
    ensures g * a + g * b - g * c - g * e == g * (a + b - c - e)
    ensures g * a - g * b + g * c - g * e == g * (a - b + c - e)
    ensures g * a - g * b - g * c + g * e == g * (a - b - c + e)
  {
  }

  lemma DivideSums(a: int, b: int, c: int, e: int, u: nat, d: nat, g: nat)
    requires Unit(u, d, g)
    ensures (g * a + g * b + g * c + g * e) / d == u * (a + b + c + e) &&
            (g * a + g * b - g * c - g * e) / d == u * (a + b - c - e) &&
            (g * a - g * b + g * c - g * e) / d == u * (a - b + c - e) &&
            (g * a - g * b - g * c + g * e) / d == u * (a - b - c + e)
  {
    Factor(g, a, b, c, e);
    DivideSum(a + b + c + e, u, d, g);
    DivideSum(a + b - c - e, u, d, g);
    DivideSum(a - b + c - e, u, d, g);
    DivideSum(a - b - c + e, u, d, g);
  }

  lemma ForwardQuadScale(p00: int, p01: int, p10: int, p11: int, u: nat, d: nat, g: nat)
    requires Unit(u, d, g)
    ensures ForwardQuad(g * p00, g * p01, g * p10, g * p11, u, d)
         == Scale(ForwardQuad(p00, p01, p10, p11, 1, 1), u)
  {
    hide RoundSum;
    hide RoundSide;
    DivideSums(p11, p10, p01, p00, u, d, g);
    RoundSumScale(p11 + p10 + p01 + p00, u);
    RoundSideScale(p11 + p10 - p01 - p00, u);
    RoundSideScale(p11 - p10 + p01 - p00, u);
  }

  lemma TowardScale(h: int, b: int, u: nat)
    requires u > 0
    ensures Toward(u * h, u * b) == u * Toward(h, b)
  {
    SignScale(h, u);
  }

  lemma RestoreScale(q: Quad, u: nat)
    requires u == 1 || (u > 0 && u % 2 == 0)
    requires q.hx % 2 == 0 && q.hy % 2 == 0
    ensures Restore(Scale(q, u), u) == Scale(Restore(q, 1), u)
  {
    SnapDiagonalExact(q.hc, u);
    SnapDiagonalExact(q.hc, 1);
    LowBitScale(q.hc, u);
    SnapSideExact(q.hx, u);
    SnapSideExact(q.hx, 1);
    SnapSideExact(q.hy, u);
    SnapSideExact(q.hy, 1);
    var low0 := q.hc % 2;
    var r := Restore(q, 1);
    TowardScale(q.hx, low0, u);
    TowardScale(q.hy, low0, u);
    XorBitScale(q.hc, r.hx, r.hy, u);
    RestoreSumScale(q.h0, low0, XorBit(q.hc, r.hx, r.hy, 2), u);
  }

  lemma RestoreSumScale(h: int, low0: int, low1: int, u: nat)
    requires u > 0
    ensures (if u * h >= 0 then u * h + u * low0 - u * low1
             else u * h + (if u * low0 == 0 then u * low1 else u * low0 - u * low1))
         == u * (if h >= 0 then h + low0 - low1
                 else h + (if low0 == 0 then low1 else low0 - low1))
  {
    SignScale(h, u);
    SignScale(low0, u);
    SignScale(-low0, u);
  }

  lemma FloorToMultiple(x: int, m: int)
    requires m > 0
    ensures FloorTo(x, m) % m == 0
  {
    QuotientUnique(FloorTo(x, m), m, x / m, 0);
  }

  // The restored sums are the exact ones.
  lemma RestoreForward(p00: int, p01: int, p10: int, p11: int, u: nat, d: nat, g: nat)
    requires Unit(u, d, g)
    ensures Restore(ForwardQuad(g * p00, g * p01, g * p10, g * p11, u, d), u)
         == Scale(Sums(p00, p01, p10, p11), u)
  {
    var q := ForwardQuad(p00, p01, p10, p11, 1, 1);
    SidesAreEven(p00, p01, p10, p11);
    hide ForwardQuad;
    hide Restore;
    hide Sums;
    hide Scale;
    ForwardQuadScale(p00, p01, p10, p11, u, d, g);
    RestoreScale(q, u);
    RestoreUnit(p00, p01, p10, p11);
  }

  lemma SidesAreEven(p00: int, p01: int, p10: int, p11: int)
    ensures var q := ForwardQuad(p00, p01, p10, p11, 1, 1);
            q.hx % 2 == 0 && q.hy % 2 == 0
  {
    hide RoundSide;
    SideUnit(p11 + p10 - p01 - p00);
    SideUnit(p11 - p10 + p01 - p00);
  }

  lemma SpreadSums(p00: int, p01: int, p10: int, p11: int, u: nat, d: nat, g: nat)
    requires Unit(u, d, g)
    ensures Spread(Scale(Sums(p00, p01, p10, p11), u), Final(d)) == (g * p00, g * p01, g * p10, g * p11)
  {
    hide Spread;
    hide Sums;
    hide Scale;
    hide Final;
    Combine(u, p00, p01, p10, p11);
    SpreadExact(Scale(Sums(p00, p01, p10, p11), u), u, d, g, p00, p01, p10, p11);
  }

  // The inverse step restores the four pixels, whatever their signs.
  lemma QuadRoundTrip(p00: int, p01: int, p10: int, p11: int, u: nat, d: nat, g: nat)
    requires Unit(u, d, g)
    ensures InversePixels(ForwardQuad(g * p00, g * p01, g * p10, g * p11, u, d), u, Final(d))
         == (g * p00, g * p01, g * p10, g * p11)
  {
    hide ForwardQuad;
    hide Restore;
    hide Spread;
    hide Sums;
    hide Scale;
    RestoreForward(p00, p01, p10, p11, u, d, g);
    SpreadSums(p00, p01, p10, p11, u, d, g);
  }

  lemma SpreadExact(r: Quad, u: nat, d: nat, g: nat, p00: int, p01: int, p10: int, p11: int)
    requires Unit(u, d, g)
    requires r.h0 - r.hx - r.hy + r.hc == 4 * (u * p00) && r.h0 - r.hx + r.hy - r.hc == 4 * (u * p01)
    requires r.h0 + r.hx - r.hy - r.hc == 4 * (u * p10) && r.h0 + r.hx + r.hy + r.hc == 4 * (u * p11)
    ensures Spread(r, Final(d)) == (g * p00, g * p01, g * p10, g * p11)
  {
    hide Unit;
    Quarter(4 * (u * p00), p00, u, d, g);
    Quarter(4 * (u * p01), p01, u, d, g);
    Quarter(4 * (u * p10), p10, u, d, g);
    Quarter(4 * (u * p11), p11, u, d, g);
  }

  lemma Quarter(s: int, p: int, u: nat, d: nat, g: nat)
    requires Unit(u, d, g) && s == 4 * (u * p)
    ensures s / (Final(d)) == g * p
  {
    DivideSum(p, u, d, g);
  }

  // The signed sums of the four sums give back four times each pixel.
  lemma Combine(u: int, p00: int, p01: int, p10: int, p11: int)
    requires u >= 0
    ensures var r := Scale(Sums(p00, p01, p10, p11), u);
            r.h0 - r.hx - r.hy + r.hc == 4 * (u * p00) && r.h0 - r.hx + r.hy - r.hc == 4 * (u * p01) &&
            r.h0 + r.hx - r.hy - r.hc == 4 * (u * p10) && r.h0 + r.hx + r.hy + r.hc == 4 * (u * p11)
  {
    Factor(u, p11, p10, p01, p00);
  }

  // At an odd edge the two halved sums share their bit 1.
  lemma PairRoundTrip(p0: int, p1: int, u: nat, d: nat, g: nat)
    requires Unit(u, d, g)
    ensures var q := ForwardPair(g * p0, g * p1, u, d);
            InversePair(q.0, q.1, u, Final(d)) == (g * p0, g * p1)
  {
    hide ForwardPair;
    hide InversePair;
    hide RoundSum;
    ForwardPairScale(p0, p1, u, d, g);
    PairRestored(p1 + p0, p1 - p0, u);
    CombinePair(u, p0, p1);
    PairOf(u * RoundSum(2 * (p1 + p0), 1), u * (2 * (p1 - p0)), u, d, g, p0, p1);
  }

  // Both halved sums, from the rounded sum and the side they share bit 1 with.
  lemma PairRestored(s: int, t: int, u: nat)
    requires (u == 1 || (u > 0 && u % 2 == 0)) && s % 2 == t % 2
    ensures SnapSide(u * (2 * t), u) == u * (2 * t)
    ensures Toward(u * RoundSum(2 * s, 1), LowBit(u * (2 * t), 2 * u)) == u * (2 * s)
  {
    var low, r := 2 * (t % 2), RoundSum(2 * s, 1);
    SumUnit(2 * s);
    assert Toward(r, low) == 2 * s;
    hide RoundSum;
    hide SnapSide;
    hide LowBit;
    hide Toward;
    SnapSideExact(2 * t, u);
    PairLowBit(s, t, u);
    TowardScale(r, low, u);
  }

  lemma PairOf(h0: int, h1: int, u: nat, d: nat, g: nat, p0: int, p1: int)
    requires Unit(u, d, g)
    requires var side := SnapSide(h1, u);
             var sum := Toward(h0, LowBit(side, 2 * u));
             sum - side == 4 * (u * p0) && sum + side == 4 * (u * p1)
    ensures InversePair(h0, h1, u, Final(d)) == (g * p0, g * p1)
  {
    hide SnapSide;
    hide Toward;
    hide LowBit;
    var side := SnapSide(h1, u);
    var sum := Toward(h0, LowBit(side, 2 * u));
    Quarter(sum - side, p0, u, d, g);
    Quarter(sum + side, p1, u, d, g);
  }

  lemma CombinePair(u: int, p0: int, p1: int)
    ensures u * (2 * (p1 + p0)) - u * (2 * (p1 - p0)) == 4 * (u * p0)
    ensures u * (2 * (p1 + p0)) + u * (2 * (p1 - p0)) == 4 * (u * p1)
  {
  }

  lemma ForwardPairScale(p0: int, p1: int, u: nat, d: nat, g: nat)
    requires Unit(u, d, g)
    ensures ForwardPair(g * p0, g * p1, u, d)
         == (u * RoundSum(2 * (p1 + p0), 1), u * (2 * (p1 - p0)))
  {
    var s, t := p1 + p0, p1 - p0;
    assert RoundSide(2 * t, 1) == 2 * t;
    hide RoundSum;
    hide RoundSide;
    Factor(g, p1, 0, p0, 0);
    DivideSum(s, u, d, g);
    DivideSum(t, u, d, g);
    RoundSumScale(2 * s, u);
    RoundSideScale(2 * t, u);
    Double(u, s);
    Double(u, t);
  }

  lemma Double(u: int, x: int)
    ensures 2 * (u * x) == u * (2 * x)
  {
  }

  lemma PairLowBit(s: int, t: int, u: nat)
    requires u > 0 && s % 2 == t % 2
    ensures LowBit(u * (2 * t), 2 * u) == u * (2 * (t % 2))
  {
    DivScale(2 * t, u, 2);
  }

  lemma CornerRoundTrip(p: int, u: nat, d: nat, g: nat)
    requires Unit(u, d, g)
    ensures InverseCorner(ForwardCorner(g * p, u, d), Final(d)) == g * p
  {
    assert RoundSum(4 * p, 1) == 4 * p;
    hide RoundSum;
    DivideSum(p, u, d, g);
    RoundSumScale(4 * p, u);
    Double(u, p);
    Double(u, 2 * p);
  }
}
