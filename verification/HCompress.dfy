/** H-compression end to end: transform, quantisation and coding, and the three undone. */
module HCompress {
  import opened Powers
  import opened Grids
  import opened Bits
  import opened HStream
  import opened HQuad
  import opened HBlock
  import opened HLevel
  import opened HTransform
  import opened HError
  import opened HBody
  import opened HSigns
  import opened HCoder
  import opened HRoundTrip

  // ---- quantisation ----

  function Digit(v: int, scale: int): int
  {
    if scale <= 1 then v else
    var d := (scale + 1) / 2 - 1;
    Truncated(if v > 0 then v + d else v - d, scale)
  }

  function Undigit(v: int, scale: int): int
  {
    if scale <= 1 then v else v * scale
  }

  // Quantisation moves a coefficient by at most half the scale, ties towards zero, and not at all for scales up to 1.
  lemma DigitError(v: int, scale: int)
    ensures scale <= 1 ==> Undigit(Digit(v, scale), scale) == v
    ensures scale > 1 ==> -scale <= 2 * (Undigit(Digit(v, scale), scale) - v) <= scale
    ensures var r := Undigit(Digit(v, scale), scale); scale > 1 && 2 * Abs(r - v) == scale ==> Abs(r) < Abs(v)
  {
    hide Truncated;
    if scale > 1 {
      NearestMultiple(Abs(v), scale);
      TruncatedSign(Abs(v) + (scale + 1) / 2 - 1, scale);
      Opposite((Abs(v) + (scale + 1) / 2 - 1) / scale, scale);
    }
  }

  lemma NearestMultiple(a: nat, s: int)
    requires s > 1
    ensures -s <= 2 * ((a + (s + 1) / 2 - 1) / s * s - a) < s && 0 <= (a + (s + 1) / 2 - 1) / s * s
  {
    var d := (s + 1) / 2 - 1;
    assert s == 2 * d + 1 || s == 2 * d + 2;
    Remainder(a + d, s);
  }

  lemma Opposite(q: int, s: int)
    ensures -q * s == -(q * s)
  {
  }

  // Quantisation makes no coefficient larger.
  lemma DigitShrinks(v: int, scale: int)
    ensures Abs(Digit(v, scale)) <= Abs(v)
  {
    if scale > 1 {
      var d := (scale + 1) / 2 - 1;
      var w := Abs(v) + d;
      TruncatedSign(w, scale);
      ShareShrinks(Abs(v), d, scale);
      hide Truncated;
    }
  }

  lemma ShareShrinks(v: nat, d: int, s: int)
    requires s > 1 && 0 <= d < s
    ensures 0 <= (v + d) / s <= v
  {
    if v > 0 {
      assert v + d < s * (v + 1) by {
        MulMonotone(2, s, v);
      }
    }
    BelowProduct(v + d, s, v);
  }

  lemma BelowProduct(w: int, s: int, v: int)
    requires s > 0 && 0 <= w < s * (v + 1)
    ensures 0 <= w / s <= v
  {
    AtLeast(s, v - w / s);
    assert s * (w / s) <= w;
    assert s * (w / s - v - 1) < 0 by {
      assert s * (w / s - v - 1) == s * (w / s) - s * (v + 1);
    }
    AtLeast(s, w / s - v - 1);
  }

  lemma TruncatedSign(w: int, s: int)
    requires w >= 0 && s > 0
    ensures Truncated(w, s) == w / s && Truncated(-w, s) == -(w / s)
  {
  }

  lemma Remainder(w: nat, s: int)
    requires s > 0
    ensures w - s < w / s * s <= w && 0 <= w / s * s
  {
    MulMonotone(0, w / s, s);
  }

  function Digits(s: seq<int>, scale: int): (r: seq<int>)
    ensures |r| == |s|
  {
    seq(|s|, x requires 0 <= x < |s| => Digit(s[x], scale))
  }

  function Undigits(s: seq<int>, scale: int): (r: seq<int>)
    ensures |r| == |s|
  {
    seq(|s|, x requires 0 <= x < |s| => Undigit(s[x], scale))
  }

  method Digitize(a: array<int>, scale: int)
    modifies a
    ensures a[..] == Digits(old(a[..]), scale)
  {
    hide Digit;
    Unscaled(a[..], scale);
    if scale <= 1 {
      return;
    }
    for i := 0 to a.Length
      invariant forall x :: 0 <= x < a.Length ==> a[x] == if x < i then Digit(old(a[x]), scale) else old(a[x])
    {
      a[i] := Digit(a[i], scale);
    }
  }

  method Undigitize(a: array<int>, scale: int)
    modifies a
    ensures a[..] == Undigits(old(a[..]), scale)
  {
    hide Undigit;
    Unscaled(a[..], scale);
    if scale <= 1 {
      return;
    }
    for i := 0 to a.Length
      invariant forall x :: 0 <= x < a.Length ==> a[x] == if x < i then Undigit(old(a[x]), scale) else old(a[x])
    {
      a[i] := Undigit(a[i], scale);
    }
  }

  lemma Unscaled(s: seq<int>, scale: int)
    ensures scale <= 1 ==> Digits(s, scale) == s && Undigits(s, scale) == s
  {
  }

  // ---- how large the coefficients get ----

  ghost predicate Within(m: Grid, nx: nat, ny: nat, b: nat)
  {
    IsGrid(m, nx, ny) && forall i, j {:trigger m[i][j]} :: 0 <= i < nx && 0 <= j < ny ==> Abs(m[i][j]) <= b
  }

  lemma FloorBounds(x: int, g: nat)
    requires g > 0
    ensures x - g < FloorTo(x, g) <= x
  {
  }

  lemma RoundBounds(h: int, u: nat, b: nat)
    requires u > 0 && Abs(h) <= b
    ensures Abs(RoundSum(h, u)) <= b + 2 * u && Abs(RoundSide(h, u)) <= b + 2 * u
  {
    FloorBounds(if h >= 0 then h + 2 * u else h + 2 * u - 1, 4 * u);
    FloorBounds(if h >= 0 then h + u else h, 2 * u);
  }

  // What a block of cells within b can grow to.
  function Grown(b: nat, d: nat, u: nat): nat
    requires d == 1 || d == 2
  {
    if d == 1 then 4 * b + 2 * u else 2 * b + 2 * u
  }

  lemma QuadBounds(p00: int, p01: int, p10: int, p11: int, u: nat, d: nat, b: nat)
    requires u > 0 && (d == 1 || d == 2) && Abs(p00) <= b && Abs(p01) <= b && Abs(p10) <= b && Abs(p11) <= b
    ensures var q, g := ForwardQuad(p00, p01, p10, p11, u, d), Grown(b, d, u);
            Abs(q.h0) <= g && Abs(q.hx) <= g && Abs(q.hy) <= g && Abs(q.hc) <= g
  {
    hide RoundSum;
    hide RoundSide;
    hide Grown;
    SumBounds(p11 + p10 + p01 + p00, u, d, b);
    SumBounds(p11 + p10 - p01 - p00, u, d, b);
    SumBounds(p11 - p10 + p01 - p00, u, d, b);
    SumBounds(p11 - p10 - p01 + p00, u, d, b);
  }

  lemma SumBounds(sum: int, u: nat, d: nat, b: nat)
    requires u > 0 && (d == 1 || d == 2) && Abs(sum) <= 4 * b
    ensures var g := Grown(b, d, u);
            Abs(sum / d) <= g && Abs(RoundSum(sum / d, u)) <= g && Abs(RoundSide(sum / d, u)) <= g
  {
    hide RoundSum;
    hide RoundSide;
    ShareBounds(sum, d, b);
    RoundBounds(sum / d, u, if d == 1 then 4 * b else 2 * b);
  }

  lemma ShareBounds(sum: int, d: nat, b: nat)
    requires (d == 1 || d == 2) && Abs(sum) <= 4 * b
    ensures Abs(sum / d) <= if d == 1 then 4 * b else 2 * b
  {
  }

  lemma EdgeBounds(p0: int, p1: int, u: nat, d: nat, b: nat)
    requires u > 0 && (d == 1 || d == 2) && Abs(p0) <= b && Abs(p1) <= b
    ensures var h, g := ForwardPair(p0, p1, u, d), Grown(b, d, u);
            Abs(h.0) <= g && Abs(h.1) <= g && Abs(ForwardCorner(p0, u, d)) <= g
  {
    hide RoundSum;
    hide RoundSide;
    var f: nat := if d == 1 then 2 else 1;
    var c := f * (2 * b);
    RoundBounds(f * (p1 + p0), u, c);
    RoundBounds(f * (p1 - p0), u, c);
    RoundBounds(2 * f * p0, u, c);
  }

  lemma CellBounds(m: Grid, nx: nat, ny: nat, nxt: nat, nyt: nat, u: nat, d: nat, b: nat, i: nat, j: nat)
    requires Block(m, nx, ny, nxt, nyt) && i < nxt && j < nyt && u > 0 && (d == 1 || d == 2) && Within(m, nx, ny, b)
    ensures Abs(ForwardCell(m, nx, ny, nxt, nyt, u, d, i, j)) <= Grown(b, d, u)
  {
    hide ForwardQuad;
    hide ForwardPair;
    hide ForwardCorner;
    hide Grown;
    var p, q := i - i % 2, j - j % 2;
    if p + 1 < nxt && q + 1 < nyt {
      QuadBounds(m[p][q], m[p][q + 1], m[p + 1][q], m[p + 1][q + 1], u, d, b);
    } else if p + 1 < nxt {
      EdgeBounds(m[p][q], m[p + 1][q], u, d, b);
    } else if q + 1 < nyt {
      EdgeBounds(m[p][q], m[p][q + 1], u, d, b);
    } else {
      EdgeBounds(m[p][q], m[p][q], u, d, b);
    }
  }

  lemma LevelBounds(m: Grid, nx: nat, ny: nat, k: nat, b: nat)
    requires Within(m, nx, ny, b)
    ensures Within(ForwardLevel(m, nx, ny, k), nx, ny, Grown(b, Divisor(k), Pow2(k)))
  {
    hide ForwardCell;
    hide Pow2;
    hide Divisor;
    DivisorOneOrTwo(k);
    var nxt, nyt, u, d := Top(nx, k), Top(ny, k), Pow2(k), Divisor(k);
    var f, g := Forward(m, nx, ny, nxt, nyt, u, d), Grown(b, d, u);
    forall i, j | 0 <= i < nx && 0 <= j < ny
      ensures Abs(f[i][j]) <= g
    {
      if i < nxt && j < nyt {
        CellBounds(m, nx, ny, nxt, nyt, u, d, b, i, j);
      }
    }
    RegroupBounds(f, nx, ny, nxt, nyt, g);
  }

  lemma RegroupBounds(f: Grid, nx: nat, ny: nat, nxt: nat, nyt: nat, g: nat)
    requires Within(f, nx, ny, g) && nxt <= nx && nyt <= ny
    ensures Within(Regroup(f, nx, ny, nxt, nyt, false), nx, ny, g)
  {
    hide From;
    var r := Regroup(f, nx, ny, nxt, nyt, false);
    forall i, j | 0 <= i < nx && 0 <= j < ny
      ensures Abs(r[i][j]) <= g
    {
      assert r[i][j] == RegroupCell(f, nx, ny, nxt, nyt, false, i, j);
    }
  }

  // The bound on a coefficient after k levels, from pixels within b.
  function Growth(b: nat, k: nat): nat
  {
    Pow2(k) * (2 * b + k)
  }

  lemma GrowthNext(b: nat, k: nat)
    ensures k > 0 ==> Grown(Growth(b, k), Divisor(k), Pow2(k)) <= Growth(b, k + 1)
    ensures Grown(b, Divisor(0), Pow2(0)) <= Growth(b, 1)
  {
    assert Pow2(k + 1) * (2 * b + k + 1) == 2 * (Pow2(k) * (2 * b + k)) + 2 * Pow2(k);
    assert Pow2(1) == 2 && Pow2(0) == 1;
  }

  lemma WithinMore(m: Grid, nx: nat, ny: nat, b: nat, c: nat)
    requires Within(m, nx, ny, b) && b <= c
    ensures Within(m, nx, ny, c)
  {
  }

  // Each level at most doubles the coefficients, up to rounding; the first makes them four times as large.
  lemma {:induction false} TransformBounds(m: Grid, nx: nat, ny: nat, k: nat, b: nat)
    requires Within(m, nx, ny, b)
    ensures Within(Transform(m, nx, ny, k), nx, ny, if k == 0 then b else Growth(b, k))
  {
    hide Within;
    hide ForwardLevel;
    hide Growth;
    hide Grown;
    hide Divisor;
    hide Pow2;
    if k > 0 {
      WithinGrid(m, nx, ny, b);
      TransformBounds(m, nx, ny, k - 1, b);
      var t, c := Transform(m, nx, ny, k - 1), if k == 1 then b else Growth(b, k - 1);
      LevelBounds(t, nx, ny, k - 1, c);
      DivisorOneOrTwo(k - 1);
      GrowthNext(b, k - 1);
      WithinMore(ForwardLevel(t, nx, ny, k - 1), nx, ny, Grown(c, Divisor(k - 1), Pow2(k - 1)), Growth(b, k));
    }
  }

  lemma WithinGrid(m: Grid, nx: nat, ny: nat, b: nat)
    requires Within(m, nx, ny, b)
    ensures IsGrid(m, nx, ny)
  {
  }

  // ---- compression ----

  // The coefficients of an image.
  ghost predicate Coefficients(t: seq<int>, s: seq<int>, nx: nat, ny: nat)
  {
    |t| == |s| == nx * ny && nx > 0 && ny > 0 && View(t, nx, ny) == Transform(View(s, nx, ny), nx, ny, Levels(nx, ny))
  }

  // s is the image with the coefficients t.
  ghost predicate Restores(s: seq<int>, t: seq<int>, nx: nat, ny: nat)
  {
    |t| == |s| == nx * ny && nx > 0 && ny > 0 && Levels(nx, ny) > 0 &&
    View(s, nx, ny) == InverseTransform(View(t, nx, ny), nx, ny, Levels(nx, ny))
  }

  method Hcompress(a: array<int>, nx: nat, ny: nat, scale: int, nbytes: nat)
    returns (ok: bool, out: seq<byte>, ghost t: seq<int>)
    requires nx >= 2 && ny >= 2 && a.Length == nx * ny
    modifies a
    ensures Coefficients(t, old(a[..]), nx, ny) && IsImage(Digits(t, scale), nx, ny)
    ensures Encodes(out, Digits(t, scale), nx, ny, scale) && ok == (|out| < nbytes)
  {
    hide View;
    hide Transform;
    hide Encodes;
    Htrans(a, nx, ny);
    t := a[..];
    Digitize(a, scale);
    ok, out := Encode(a, nx, ny, scale, nbytes);
  }

  lemma SomeLevels(nx: nat, ny: nat)
    requires nx >= 2 && ny >= 2
    ensures Levels(nx, ny) > 0
  {
  }

  // Decode s into the front of a, and restore the image there.
  method Hdecompress(s: seq<byte>, a: array<int>) returns (ok: bool, why: Failure, nx: int, ny: int)
    modifies a
    ensures !ok ==> DecodeStream(s, old(a[..])) == Failed(why)
    ensures ok ==>
      var d := DecodeStream(s, old(a[..]));
      d.Decoded? && d.nx == nx && d.ny == ny && 0 <= nx * ny <= a.Length == |d.img| &&
      Restores(a[..nx * ny], Undigits(d.img[..nx * ny], d.scale), nx, ny) && a[nx * ny..] == d.img[nx * ny..]
  {
    hide View;
    hide InverseTransform;
    hide Levels;
    hide DecodePixels;
    hide Undigit;
    ghost var before := a[..];
    var scale;
    ok, why, nx, ny, scale := Decode(s, a);
    if !ok {
      return;
    }
    ghost var img := a[..];
    DecodedSize(s, before);
    SomeLevels(nx, ny);
    var nel := nx * ny;
    var w := new int[nel];
    for i := 0 to nel
      invariant w[..i] == img[..i] && a[..] == img
    {
      w[i] := a[i];
    }
    assert w[..] == img[..nel];
    Undigitize(w, scale);
    Hinv(w, nx, ny);
    ghost var r := w[..];
    for i := 0 to nel
      invariant a[..i] == r[..i] && a[nel..] == img[nel..] && w[..] == r
    {
      a[i] := w[i];
    }
    assert r[..nel] == r;
  }

  // A stream that is decoded has the magic number and a size that fits the array and a 32-bit integer.
  lemma DecodedSize(s: seq<byte>, before: seq<int>)
    ensures var d := DecodeStream(s, before); d.Decoded? ==>
            ByteAt(s, 0) == 0xDD && ByteAt(s, 1) == 0x99 && d.nx >= 2 && d.ny >= 2 &&
            4 <= d.nx * d.ny <= |before| == |d.img| && d.nx * d.ny <= INT_MAX
  {
    hide DecodeFrom;
    hide ReadSigns;
    hide NumberAt;
    hide Signed;
    hide ByteAt;
    var nx, ny := Signed(NumberAt(s, 2, 4), 32), Signed(NumberAt(s, 6, 4), 32);
    if nx >= 2 && ny >= 2 && nx <= Truncated(INT_MAX, ny) {
      ProductFits(nx, ny);
    }
  }

  lemma ProductFits(nx: nat, ny: nat)
    requires ny > 0 && nx <= Truncated(INT_MAX, ny)
    ensures nx * ny <= INT_MAX
  {
    TruncatedSign(INT_MAX, ny);
    Remainder(INT_MAX, ny);
    MulMonotone(nx, INT_MAX / ny, ny);
  }

  // ---- losslessness ----

  lemma CoefficientBounds(t: seq<int>, s: seq<int>, nx: nat, ny: nat, b: nat)
    requires Coefficients(t, s, nx, ny) && Levels(nx, ny) > 0 && forall x :: 0 <= x < |s| ==> Abs(s[x]) <= b
    ensures forall x :: 0 <= x < |t| ==> Abs(t[x]) <= Growth(b, Levels(nx, ny))
  {
    hide Levels;
    hide Transform;
    hide Growth;
    var m, w := View(s, nx, ny), View(t, nx, ny);
    forall i, j | 0 <= i < nx && 0 <= j < ny
      ensures Abs(m[i][j]) <= b
    {
      ViewGet(s, nx, ny, i, j);
    }
    TransformBounds(m, nx, ny, Levels(nx, ny), b);
    forall x | 0 <= x < |t|
      ensures Abs(t[x]) <= Growth(b, Levels(nx, ny))
    {
      var i, j := IndexSplit(x, nx, ny);
      ViewGet(t, nx, ny, i, j);
    }
  }

  lemma RestoresCoefficients(r: seq<int>, t: seq<int>, s: seq<int>, nx: nat, ny: nat)
    requires Coefficients(t, s, nx, ny) && Restores(r, t, nx, ny)
    ensures r == s
  {
    hide View;
    hide Transform;
    hide InverseTransform;
    Lossless(View(s, nx, ny), nx, ny, Levels(nx, ny));
    ViewInjective(r, s, nx, ny);
  }

  // How far a pixel can be off after quantisation with the given scale.
  function PixelBound(scale: int, levels: nat): nat
    requires scale > 1
  {
    (6 * (scale / 2) + 11 * levels + 6) / 4
  }

  // An image restored from quantised coefficients.
  lemma RestoresNearly(r: seq<int>, t: seq<int>, s: seq<int>, nx: nat, ny: nat, scale: int)
    requires Coefficients(t, s, nx, ny) && scale > 1 && Restores(r, Undigits(Digits(t, scale), scale), nx, ny)
    ensures |r| == |s| && forall x :: 0 <= x < |s| ==> Abs(r[x] - s[x]) <= PixelBound(scale, Levels(nx, ny))
  {
    hide Transform;
    hide InverseTransform;
    hide Levels;
    hide Undigit;
    hide Digit;
    var q, n := Undigits(Digits(t, scale), scale), Levels(nx, ny);
    QuantisedApart(q, t, nx, ny, scale);
    PixelError(View(q, nx, ny), View(s, nx, ny), nx, ny, n, scale / 2);
    ApartPixels(r, s, nx, ny, (6 * (scale / 2) + 11 * n + 6) / 4);
  }

  lemma QuantisedApart(q: seq<int>, t: seq<int>, nx: nat, ny: nat, scale: int)
    requires |t| == nx * ny && scale > 1 && q == Undigits(Digits(t, scale), scale)
    ensures Apart(View(q, nx, ny), View(t, nx, ny), nx, ny, scale / 2)
  {
    hide Digit;
    hide Undigit;
    var v, w := View(q, nx, ny), View(t, nx, ny);
    forall i, j | 0 <= i < nx && 0 <= j < ny
      ensures Abs(v[i][j] - w[i][j]) <= scale / 2
    {
      ViewGet(q, nx, ny, i, j);
      ViewGet(t, nx, ny, i, j);
      DigitError(t[i * ny + j], scale);
    }
  }

  lemma ApartPixels(r: seq<int>, s: seq<int>, nx: nat, ny: nat, b: nat)
    requires |r| == |s| == nx * ny && Apart(View(r, nx, ny), View(s, nx, ny), nx, ny, b)
    ensures forall x :: 0 <= x < |s| ==> Abs(r[x] - s[x]) <= b
  {
    hide View;
    forall x | 0 <= x < |s|
      ensures Abs(r[x] - s[x]) <= b
    {
      var i, j := IndexSplit(x, nx, ny);
      ViewGet(r, nx, ny, i, j);
      ViewGet(s, nx, ny, i, j);
      assert Abs(View(r, nx, ny)[i][j] - View(s, nx, ny)[i][j]) <= b;
    }
  }

  // s comes back as r: the same without quantisation, and every pixel close with it.
  ghost predicate ComesBack(r: seq<int>, s: seq<int>, nx: nat, ny: nat, scale: int)
    requires nx > 0 && ny > 0
  {
    if scale <= 1 then r == s else
    |r| == |s| && forall x :: 0 <= x < |s| ==> Abs(r[x] - s[x]) <= PixelBound(scale, Levels(nx, ny))
  }

  lemma Quantised(r: seq<int>, t: seq<int>, s: seq<int>, nx: nat, ny: nat, scale: int)
    requires Coefficients(t, s, nx, ny) && Restores(r, Undigits(Digits(t, scale), scale), nx, ny)
    ensures ComesBack(r, s, nx, ny, scale)
  {
    hide Coefficients;
    hide Restores;
    hide Levels;
    hide PixelBound;
    SizeOf(t, s, nx, ny);
    if scale <= 1 {
      Unscaled(t, scale);
      RestoresCoefficients(r, t, s, nx, ny);
    } else {
      RestoresNearly(r, t, s, nx, ny, scale);
    }
  }

  lemma SmallDigits(t: seq<int>, scale: int, b: nat)
    requires forall x :: 0 <= x < |t| ==> Abs(t[x]) <= b
    ensures forall x :: 0 <= x < |t| ==> Abs(Digits(t, scale)[x]) <= b
  {
    hide Digit;
    forall x | 0 <= x < |t|
      ensures Abs(Digits(t, scale)[x]) <= b
    {
      DigitShrinks(t[x], scale);
    }
  }

  // What was compressed into the buffer is decompressed to the same image without quantisation, and with it to one that
  // is nowhere far off. The pixels must be small enough for their coefficients to fit the coder.
  method CompressDecompress(a: array<int>, nx: nat, ny: nat, scale: int, nbytes: nat, b: array<int>, ghost bound: nat)
    returns (ok: bool, out: seq<byte>, ghost t: seq<int>)
    requires nx >= 2 && ny >= 2 && a.Length == nx * ny <= INT_MAX && a.Length <= b.Length && a != b
    requires -INT_MAX - 1 <= scale <= INT_MAX
    requires forall x :: 0 <= x < a.Length ==> Abs(a[x]) <= bound
    requires Growth(bound, Levels(nx, ny)) < LIMIT
    modifies a, b
    ensures Coefficients(t, old(a[..]), nx, ny) && IsImage(Digits(t, scale), nx, ny)
    ensures Encodes(out, Digits(t, scale), nx, ny, scale) && ok == (|out| < nbytes)
    ensures ok ==> ComesBack(b[..nx * ny], old(a[..]), nx, ny, scale) && b[nx * ny..] == old(b[nx * ny..])
  {
    hide Encodes;
    hide Growth;
    hide Coefficients;
    hide Restores;
    hide ComesBack;
    hide DecodeStream;
    hide Levels;
    hide Digits;
    hide Undigits;
    ghost var s, before := a[..], b[..];
    ok, out, t := Hcompress(a, nx, ny, scale, nbytes);
    if !ok {
      return;
    }
    SomeLevels(nx, ny);
    CoefficientBounds(t, s, nx, ny, bound);
    SizeOf(t, s, nx, ny);
    ghost var q := Digits(t, scale);
    SmallDigits(t, scale, Growth(bound, Levels(nx, ny)));
    StreamRoundTrip(out, q, nx, ny, scale, before);
    var decoded, why, nx', ny' := Hdecompress(out, b);
    ghost var d := q + before[nx * ny..];
    assert d[..nx * ny] == q && d[nx * ny..] == before[nx * ny..];
    Quantised(b[..nx * ny], t, s, nx, ny, scale);
  }

  lemma SizeOf(t: seq<int>, s: seq<int>, nx: nat, ny: nat)
    requires Coefficients(t, s, nx, ny)
    ensures |t| == |s| == nx * ny && nx * ny > 0
  {
  }
}
