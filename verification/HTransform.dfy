/**
  The H-transform and its inverse on a flat row-major image, in place, and the theorem
  that the inverse restores every integer image.
 */
module HTransform {
  import opened Powers
  import opened Grids
  import opened HQuad
  import opened HShuffle
  import opened HBlock
  import opened HLevel
  import opened HButterfly

  // ---- sizes, units and levels ----

  // The size of one dimension after k halvings, rounded up each time.
  function Top(n: nat, k: nat): (t: nat)
    ensures t <= n
    ensures n > 0 ==> t > 0
  {
    if k == 0 then n else (Top(n, k - 1) + 1) / 2
  }

  // Top(n, k) is n divided by 2^k, rounded up.
  lemma {:induction false} TopIsCeiling(n: nat, k: nat)
    requires n > 0
    ensures (Top(n, k) - 1) * Pow2(k) < n <= Top(n, k) * Pow2(k)
  {
    if k > 0 {
      TopIsCeiling(n, k - 1);
      var t, h, c := Top(n, k - 1), Top(n, k), Pow2(k - 1);
      MulMonotone(2 * h - 2, t - 1, c);
      MulMonotone(t, 2 * h, c);
      MulAssociates(h - 1, c);
      MulAssociates(h, c);
    }
  }

  lemma MulAssociates(x: int, c: int)
    ensures (2 * x) * c == x * (2 * c)
  {
  }

  lemma CeilingUnique(t: int, h: int, n: nat, c: nat)
    requires (t - 1) * c < n <= t * c && (h - 1) * c < n <= h * c
    ensures t == h
  {
    MulMonotone(t, h - 1, c);
    MulMonotone(h, t - 1, c);
  }

  // The largest of the two dimensions is down to one cell after Log2Up levels.
  lemma TopEndsAtOne(n: nat, k: nat)
    requires 0 < n <= Pow2(k)
    ensures Top(n, k) == 1
  {
    TopIsCeiling(n, k);
    CeilingUnique(Top(n, k), 1, n, Pow2(k));
  }

  function Divisor(k: nat): nat
  {
    if k == 0 then 1 else 2
  }

  // What the cells entering level k are multiples of.
  function Grain(k: nat): (g: nat)
    ensures g > 0
  {
    if k == 0 then 1 else 2 * Pow2(k)
  }

  lemma GrainIsUnit(k: nat)
    ensures Unit(Pow2(k), Divisor(k), Grain(k))
  {
    if k > 0 {
      assert Pow2(k) == 2 * Pow2(k - 1);
    }
  }

  ghost function ForwardLevel(m: Grid, nx: nat, ny: nat, k: nat): (r: Grid)
    requires IsGrid(m, nx, ny)
    ensures IsGrid(r, nx, ny)
  {
    var nxt, nyt := Top(nx, k), Top(ny, k);
    Regroup(Forward(m, nx, ny, nxt, nyt, Pow2(k), Divisor(k)), nx, ny, nxt, nyt, false)
  }

  ghost function InverseLevel(m: Grid, nx: nat, ny: nat, k: nat): (r: Grid)
    requires IsGrid(m, nx, ny)
    ensures IsGrid(r, nx, ny)
  {
    var nxt, nyt := Top(nx, k), Top(ny, k);
    Inverse(Regroup(m, nx, ny, nxt, nyt, true), nx, ny, nxt, nyt, Pow2(k), Final(Divisor(k)))
  }

  // The first n levels of the transform.
  ghost function Transform(m: Grid, nx: nat, ny: nat, n: nat): (r: Grid)
    requires IsGrid(m, nx, ny)
    ensures IsGrid(r, nx, ny)
  {
    if n == 0 then m else ForwardLevel(Transform(m, nx, ny, n - 1), nx, ny, n - 1)
  }

  // Undo levels n - 1 down to 0.
  ghost function Untransform(m: Grid, nx: nat, ny: nat, n: nat): (r: Grid)
    requires IsGrid(m, nx, ny)
    ensures IsGrid(r, nx, ny)
    decreases n
  {
    if n == 0 then m else Untransform(InverseLevel(m, nx, ny, n - 1), nx, ny, n - 1)
  }

  function SnapSum(x: int, u: nat): int
    requires u > 0
  {
    FloorTo(x + (if x >= 0 then 2 * u else 2 * u - 1), 4 * u)
  }

  // The inverse transform: the sum of all pixels is rounded to its multiple first.
  ghost function InverseTransform(m: Grid, nx: nat, ny: nat, n: nat): (r: Grid)
    requires IsGrid(m, nx, ny) && nx > 0 && ny > 0 && n > 0
    ensures IsGrid(r, nx, ny)
  {
    Untransform(m[0 := m[0][0 := SnapSum(m[0][0], Pow2(n - 1))]], nx, ny, n)
  }

  // ---- the round trip ----

  lemma LevelRoundTrip(m: Grid, nx: nat, ny: nat, k: nat)
    requires IsGrid(m, nx, ny)
    requires Multiples(m, nx, ny, Top(nx, k), Top(ny, k), Grain(k))
    ensures InverseLevel(ForwardLevel(m, nx, ny, k), nx, ny, k) == m
  {
    var nxt, nyt, u, d := Top(nx, k), Top(ny, k), Pow2(k), Divisor(k);
    GrainIsUnit(k);
    var f := Forward(m, nx, ny, nxt, nyt, u, d);
    RegroupUndone(f, nx, ny, nxt, nyt);
    InverseForward(m, nx, ny, nxt, nyt, u, d, Grain(k));
  }

  // The sums of level k are grouped at the top left for level k + 1.
  lemma LevelSource(m: Grid, nx: nat, ny: nat, k: nat, i: nat, j: nat)
    requires IsGrid(m, nx, ny) && i < Top(nx, k + 1) && j < Top(ny, k + 1)
    ensures 2 * i < Top(nx, k) && 2 * j < Top(ny, k)
    ensures ForwardLevel(m, nx, ny, k)[i][j]
         == ForwardCell(m, nx, ny, Top(nx, k), Top(ny, k), Pow2(k), Divisor(k), 2 * i, 2 * j)
  {
    var nxt, nyt := Top(nx, k), Top(ny, k);
    assert i < (nxt + 1) / 2 && j < (nyt + 1) / 2;
    hide Top;
    hide ForwardCell;
    hide Pow2;
    var f := Forward(m, nx, ny, nxt, nyt, Pow2(k), Divisor(k));
    assert ForwardLevel(m, nx, ny, k)[i][j] == RegroupCell(f, nx, ny, nxt, nyt, false, i, j) == f[2 * i][2 * j];
  }

  lemma LevelCell(m: Grid, nx: nat, ny: nat, k: nat, i: nat, j: nat)
    requires IsGrid(m, nx, ny) && i < Top(nx, k + 1) && j < Top(ny, k + 1)
    ensures Multiple(ForwardLevel(m, nx, ny, k)[i][j], Grain(k + 1))
  {
    hide ForwardCell;
    hide ForwardLevel;
    hide Pow2;
    hide Multiple;
    hide Grain;
    LevelSource(m, nx, ny, k, i, j);
    SumsAreMultiples(m, nx, ny, Top(nx, k), Top(ny, k), Pow2(k), Divisor(k), 2 * i, 2 * j);
    GrainNext(k);
  }

  lemma GrainNext(k: nat)
    ensures Grain(k + 1) == 4 * Pow2(k)
  {
  }

  lemma LevelMultiples(m: Grid, nx: nat, ny: nat, k: nat)
    requires IsGrid(m, nx, ny)
    ensures Multiples(ForwardLevel(m, nx, ny, k), nx, ny, Top(nx, k + 1), Top(ny, k + 1), Grain(k + 1))
  {
    var r := ForwardLevel(m, nx, ny, k);
    hide ForwardLevel;
    hide Multiple;
    hide Grain;
    forall i, j | 0 <= i < Top(nx, k + 1) && 0 <= j < Top(ny, k + 1)
      ensures Multiple(r[i][j], Grain(k + 1))
    {
      LevelCell(m, nx, ny, k, i, j);
    }
  }

  lemma AnyMultiples(m: Grid, nx: nat, ny: nat)
    requires IsGrid(m, nx, ny)
    ensures Multiples(m, nx, ny, Top(nx, 0), Top(ny, 0), Grain(0))
  {
  }

  lemma TransformMultiples(m: Grid, nx: nat, ny: nat, k: nat)
    requires IsGrid(m, nx, ny)
    ensures Multiples(Transform(m, nx, ny, k), nx, ny, Top(nx, k), Top(ny, k), Grain(k))
  {
    hide Multiples;
    hide Grain;
    hide Top;
    hide ForwardLevel;
    if k == 0 {
      AnyMultiples(m, nx, ny);
    } else {
      LevelMultiples(Transform(m, nx, ny, k - 1), nx, ny, k - 1);
    }
  }

  lemma {:induction false} UntransformTransform(m: Grid, nx: nat, ny: nat, n: nat)
    requires IsGrid(m, nx, ny)
    ensures Untransform(Transform(m, nx, ny, n), nx, ny, n) == m
  {
    hide Multiples;
    hide ForwardLevel;
    hide InverseLevel;
    if n > 0 {
      TransformMultiples(m, nx, ny, n - 1);
      LevelRoundTrip(Transform(m, nx, ny, n - 1), nx, ny, n - 1);
      UntransformTransform(m, nx, ny, n - 1);
    }
  }

  // The transform is lossless: odd sizes and negative pixels included.
  lemma Lossless(m: Grid, nx: nat, ny: nat, n: nat)
    requires IsGrid(m, nx, ny) && nx > 0 && ny > 0 && n > 0
    ensures InverseTransform(Transform(m, nx, ny, n), nx, ny, n) == m
  {
    var t, u := Transform(m, nx, ny, n), Pow2(n - 1);
    TransformMultiples(m, nx, ny, n);
    assert Multiple(t[0][0], Grain(n)) && Grain(n) == 4 * u;
    SnapExact(t[0][0], u);
    assert t[0][0 := t[0][0]] == t[0];
    assert t[0 := t[0]] == t;
    UntransformTransform(m, nx, ny, n);
  }

  lemma SnapExact(x: int, u: nat)
    requires u > 0 && Multiple(x, 4 * u)
    ensures SnapSum(x, u) == x
  {
    var q := x / (4 * u);
    FloorScale(q, 2 * u, 4 * u, 1);
    FloorScale(q, 2 * u - 1, 4 * u, 1);
  }

  // ---- the code ----

  // The H-transform of the nx x ny image a, in place.
  method Htrans(a: array<int>, nx: nat, ny: nat)
    requires a.Length == nx * ny && nx > 0 && ny > 0
    modifies a
    ensures View(a[..], nx, ny) == Transform(View(old(a[..]), nx, ny), nx, ny, Levels(nx, ny))
  {
    var nmax := if nx > ny then nx else ny;
    var log2n := Log2Up(nmax);
    var tmp := new int[(nmax + 1) / 2];
    ghost var m := View(a[..], nx, ny);
    var d, u := 1, 1;
    var nxtop, nytop := nx, ny;
    hide View;
    hide ForwardLevel;
    var k := 0;
    while k < log2n
      invariant 0 <= k <= log2n && u == Pow2(k) && d == Divisor(k)
      invariant nxtop == Top(nx, k) && nytop == Top(ny, k)
      invariant View(a[..], nx, ny) == Transform(m, nx, ny, k)
    {
      ForwardOneLevel(a, nx, ny, nxtop, nytop, d, u, tmp, k);
      nxtop := (nxtop + 1) / 2;
      nytop := (nytop + 1) / 2;
      d := 2;
      u := 2 * u;
      k := k + 1;
    }
  }

  // The number of levels: log2 of the larger dimension, rounded up.
  function Levels(nx: nat, ny: nat): nat
    requires nx > 0 && ny > 0
  {
    Log2Up(if nx > ny then nx else ny)
  }

  method ForwardOneLevel(a: array<int>, nx: nat, ny: nat, nxtop: nat, nytop: nat, d: nat, u: nat, tmp: array<int>,
                         ghost k: nat)
    requires a.Length == nx * ny && nx > 0 && ny > 0 && a != tmp && tmp.Length >= nx / 2 && tmp.Length >= ny / 2
    requires nxtop == Top(nx, k) && nytop == Top(ny, k) && u == Pow2(k) && d == Divisor(k)
    modifies a, tmp
    ensures View(a[..], nx, ny) == ForwardLevel(View(old(a[..]), nx, ny), nx, ny, k)
  {
    hide View;
    hide Forward;
    hide Regroup;
    ForwardBlock(a, nx, ny, nxtop, nytop, d, u);
    RegroupBlock(a, nx, ny, nxtop, nytop, false, tmp);
  }

  method InverseOneLevel(a: array<int>, nx: nat, ny: nat, nxtop: nat, nytop: nat, e: nat, u: nat, tmp: array<int>,
                         ghost k: nat)
    requires a.Length == nx * ny && nx > 0 && ny > 0 && a != tmp && tmp.Length >= nx / 2 && tmp.Length >= ny / 2
    requires nxtop == Top(nx, k) && nytop == Top(ny, k) && u == Pow2(k) && e == Final(Divisor(k))
    modifies a, tmp
    ensures View(a[..], nx, ny) == InverseLevel(View(old(a[..]), nx, ny), nx, ny, k)
  {
    hide View;
    hide Inverse;
    hide Regroup;
    RegroupBlock(a, nx, ny, nxtop, nytop, true, tmp);
    InverseBlock(a, nx, ny, nxtop, nytop, e, u);
  }

  // ntop is n divided by c rounded up, and nf is what is left of n past (ntop - 1)*c.
  ghost predicate SizeState(n: nat, ntop: nat, nf: nat, c: nat)
  {
    n == (ntop - 1) * c + nf && 1 <= nf <= c && ntop > 0
  }

  lemma SizeIsTop(n: nat, ntop: nat, nf: nat, k: nat)
    requires SizeState(n, ntop, nf, Pow2(k))
    ensures ntop == Top(n, k)
  {
    var c := Pow2(k);
    MulMonotone(0, ntop - 1, c);
    TopIsCeiling(n, k);
    assert ntop * c == (ntop - 1) * c + c;
    CeilingUnique(ntop, Top(n, k), n, c);
  }

  // One step of the sequence that runs the sizes back up.
  method NextSize(ghost n: nat, ntop: nat, nf: nat, c: nat) returns (ntop': nat, nf': nat)
    requires c > 0 && SizeState(n, ntop, nf, 2 * c)
    ensures SizeState(n, ntop', nf', c)
  {
    ntop' := 2 * ntop;
    nf' := nf;
    assert (ntop - 1) * (2 * c) == (2 * ntop - 2) * c == (2 * ntop - 1) * c - c;
    if nf <= c {
      ntop' := ntop' - 1;
    } else {
      nf' := nf' - c;
    }
  }

  // Round the sum of all pixels to a multiple of bit2 = 4*u.
  method RoundFirst(a: array<int>, ghost nx: nat, ghost ny: nat, u: nat)
    requires a.Length == nx * ny && nx > 0 && ny > 0 && u > 0
    modifies a
    ensures var m := View(old(a[..]), nx, ny);
            View(a[..], nx, ny) == m[0 := m[0][0 := SnapSum(m[0][0], u)]]
  {
    ViewGet(a[..], nx, ny, 0, 0);
    ViewSet(a[..], nx, ny, 0, 0, SnapSum(a[0], u));
    a[0] := SnapSum(a[0], u);
    assert a[..] == old(a[..])[0 := SnapSum(old(a[0]), u)];
  }

  // Undo the levels below log2n, the last one first.
  method UndoLevels(a: array<int>, nx: nat, ny: nat, log2n: nat, tmp: array<int>)
    requires a.Length == nx * ny && nx > 0 && ny > 0 && nx <= Pow2(log2n) && ny <= Pow2(log2n)
    requires a != tmp && tmp.Length >= nx / 2 && tmp.Length >= ny / 2
    modifies a, tmp
    ensures View(a[..], nx, ny) == Untransform(View(old(a[..]), nx, ny), nx, ny, log2n)
  {
    ghost var w := View(a[..], nx, ny);
    var nxtop, nytop, nxf, nyf := 1, 1, nx, ny;
    var c := Pow2(log2n);
    var bit0 := c / 2;
    StartSize(nx, c);
    StartSize(ny, c);
    hide View;
    hide SizeState;
    hide InverseLevel;
    hide Untransform;
    hide Pow2;
    var k := log2n;
    while k > 0
      invariant 0 <= k <= log2n && c == Pow2(k) && bit0 == c / 2
      invariant SizeState(nx, nxtop, nxf, c) && SizeState(ny, nytop, nyf, c)
      invariant Untransform(View(a[..], nx, ny), nx, ny, k) == Untransform(w, nx, ny, log2n)
    {
      k := k - 1;
      PowHalves(k);
      UntransformStep(View(a[..], nx, ny), nx, ny, k);
      nxtop, nxf, nytop, nyf := InverseStep(a, nx, ny, nxtop, nxf, nytop, nyf, c / 2, bit0, tmp, k);
      c := c / 2;
      bit0 := bit0 / 2;
    }
    UntransformNone(View(a[..], nx, ny), nx, ny);
  }

  // The inverse H-transform without smoothing. A single pixel has no level to undo.
  method Hinv(a: array<int>, nx: nat, ny: nat)
    requires a.Length == nx * ny && nx > 0 && ny > 0 && (nx > 1 || ny > 1)
    modifies a
    ensures View(a[..], nx, ny) == InverseTransform(View(old(a[..]), nx, ny), nx, ny, Levels(nx, ny))
  {
    var nmax := if nx > ny then nx else ny;
    var log2n := Log2Up(nmax);
    var tmp := new int[(nmax + 1) / 2];
    var bit0 := Pow2(log2n - 1);
    hide View;
    hide SnapSum;
    hide Untransform;
    RoundFirst(a, nx, ny, bit0);
    UndoLevels(a, nx, ny, log2n, tmp);
  }

  lemma PowHalves(k: nat)
    ensures Pow2(k + 1) / 2 == Pow2(k) && Pow2(k + 1) == 2 * Pow2(k)
    ensures k > 0 ==> Pow2(k) / 2 == Pow2(k - 1)
  {
  }

  lemma UntransformStep(m: Grid, nx: nat, ny: nat, k: nat)
    requires IsGrid(m, nx, ny)
    ensures Untransform(m, nx, ny, k + 1) == Untransform(InverseLevel(m, nx, ny, k), nx, ny, k)
  {
  }

  // Run the sizes up to those of level k and undo it.
  method InverseStep(a: array<int>, nx: nat, ny: nat, nxtop: nat, nxf: nat, nytop: nat, nyf: nat, c: nat, u: nat,
                     tmp: array<int>, k: nat)
    returns (nxtop': nat, nxf': nat, nytop': nat, nyf': nat)
    requires a.Length == nx * ny && nx > 0 && ny > 0 && a != tmp && tmp.Length >= nx / 2 && tmp.Length >= ny / 2
    requires SizeState(nx, nxtop, nxf, 2 * c) && SizeState(ny, nytop, nyf, 2 * c) && c == Pow2(k) == u
    modifies a, tmp
    ensures SizeState(nx, nxtop', nxf', c) && SizeState(ny, nytop', nyf', c)
    ensures View(a[..], nx, ny) == InverseLevel(View(old(a[..]), nx, ny), nx, ny, k)
  {
    hide View;
    hide InverseLevel;
    hide SizeState;
    nxtop', nxf' := NextSize(nx, nxtop, nxf, c);
    nytop', nyf' := NextSize(ny, nytop, nyf, c);
    SizeIsTop(nx, nxtop', nxf', k);
    SizeIsTop(ny, nytop', nyf', k);
    InverseOneLevel(a, nx, ny, nxtop', nytop', if k == 0 then 4 else 2, u, tmp, k);
  }

  lemma StartSize(n: nat, c: nat)
    requires 0 < n <= c
    ensures SizeState(n, 1, n, c)
  {
  }

  lemma UntransformNone(m: Grid, nx: nat, ny: nat)
    requires IsGrid(m, nx, ny)
    ensures Untransform(m, nx, ny, 0) == m
  {
  }

  // Compressing without quantisation and expanding again restores the image.
  method RoundTrip(a: array<int>, nx: nat, ny: nat) returns (t: seq<int>)
    requires a.Length == nx * ny && nx > 0 && ny > 0 && (nx > 1 || ny > 1)
    modifies a
    ensures |t| == nx * ny && View(t, nx, ny) == Transform(View(old(a[..]), nx, ny), nx, ny, Levels(nx, ny))
    ensures a[..] == old(a[..])
  {
    ghost var s := a[..];
    Htrans(a, nx, ny);
    t := a[..];
    Hinv(a, nx, ny);
    Lossless(View(s, nx, ny), nx, ny, Levels(nx, ny));
    ViewInjective(a[..], s, nx, ny);
  }
}
