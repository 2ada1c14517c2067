/** Shuffling every row and then every column of the top-left block of a grid. */
module HBlock {
  import opened Grids
  import opened HShuffle

  // Where a line of n elements takes element q from, when shuffled or unshuffled.
  function From(n: nat, q: nat, undo: bool): (p: nat)
    requires q < n
    ensures p < n
  {
    if undo then Shuffled(n, q) else Unshuffled(n, q)
  }

  ghost function RegroupCell(m: Grid, nx: nat, ny: nat, nxt: nat, nyt: nat, undo: bool, i: nat, j: nat): int
    requires IsGrid(m, nx, ny) && nxt <= nx && nyt <= ny && i < nx && j < ny
  {
    if i < nxt && j < nyt then m[From(nxt, i, undo)][From(nyt, j, undo)] else m[i][j]
  }

  // Both dimensions of the nxt x nyt block regrouped.
  ghost function Regroup(m: Grid, nx: nat, ny: nat, nxt: nat, nyt: nat, undo: bool): (r: Grid)
    requires IsGrid(m, nx, ny) && nxt <= nx && nyt <= ny
    ensures IsGrid(r, nx, ny)
    ensures forall i, j {:trigger r[i][j]} :: 0 <= i < nx && 0 <= j < ny ==>
            r[i][j] == RegroupCell(m, nx, ny, nxt, nyt, undo, i, j)
  {
    seq(nx, i requires 0 <= i < nx => seq(ny, j requires 0 <= j < ny =>
      RegroupCell(m, nx, ny, nxt, nyt, undo, i, j)))
  }

  lemma GridsEqual(m: Grid, w: Grid, nx: nat, ny: nat)
    requires IsGrid(m, nx, ny) && IsGrid(w, nx, ny)
    requires forall i, j :: 0 <= i < nx && 0 <= j < ny ==> m[i][j] == w[i][j]
    ensures m == w
  {
    forall i | 0 <= i < nx
      ensures m[i] == w[i]
    {
    }
  }

  lemma RegroupUndone(m: Grid, nx: nat, ny: nat, nxt: nat, nyt: nat)
    requires IsGrid(m, nx, ny) && nxt <= nx && nyt <= ny
    ensures Regroup(Regroup(m, nx, ny, nxt, nyt, false), nx, ny, nxt, nyt, true) == m
  {
    var r := Regroup(m, nx, ny, nxt, nyt, false);
    var w := Regroup(r, nx, ny, nxt, nyt, true);
    forall i, j | 0 <= i < nx && 0 <= j < ny
      ensures w[i][j] == m[i][j]
    {
      if i < nxt && j < nyt {
        ShuffledInverse(nxt, i);
        ShuffledInverse(nyt, j);
        assert w[i][j] == RegroupCell(r, nx, ny, nxt, nyt, true, i, j);
      }
    }
    GridsEqual(w, m, nx, ny);
  }

  // ---- rows and columns as lines ----

  lemma RowLine(s: seq<int>, t: seq<int>, nx: nat, ny: nat, i: nat, n: nat)
    requires |s| == |t| == nx * ny && i < nx && 0 < n <= ny
    requires SameOff(s, t, ny * i, 1, n)
    ensures Fits(s, ny * i, 1, n) && Fits(t, ny * i, 1, n)
    ensures forall q :: 0 <= q < n ==> View(s, nx, ny)[i][q] == LineOf(s, ny * i, 1, n)[q]
    ensures forall q :: 0 <= q < n ==> View(t, nx, ny)[i][q] == LineOf(t, ny * i, 1, n)[q]
    ensures forall p, q :: 0 <= p < nx && 0 <= q < ny && (p != i || q >= n) ==>
              View(t, nx, ny)[p][q] == View(s, nx, ny)[p][q]
  {
    IndexBound(i, n - 1, nx, ny);
    forall p, q | 0 <= p < nx && 0 <= q < ny && (p != i || q >= n)
      ensures View(t, nx, ny)[p][q] == View(s, nx, ny)[p][q]
    {
      ViewGet(s, nx, ny, p, q);
      ViewGet(t, nx, ny, p, q);
      forall k: nat | k < n
        ensures p * ny + q != Pos(ny * i, 1, k)
      {
        if p * ny + q == i * ny + k {
          IndexUnique(p, q, i, k, ny);
        }
      }
    }
  }

  lemma ColumnLine(s: seq<int>, t: seq<int>, nx: nat, ny: nat, j: nat, n: nat)
    requires |s| == |t| == nx * ny && j < ny && 0 < n <= nx
    requires SameOff(s, t, j, ny, n)
    ensures Fits(s, j, ny, n) && Fits(t, j, ny, n)
    ensures forall p :: 0 <= p < n ==> View(s, nx, ny)[p][j] == LineOf(s, j, ny, n)[p]
    ensures forall p :: 0 <= p < n ==> View(t, nx, ny)[p][j] == LineOf(t, j, ny, n)[p]
    ensures forall p, q :: 0 <= p < nx && 0 <= q < ny && (q != j || p >= n) ==>
              View(t, nx, ny)[p][q] == View(s, nx, ny)[p][q]
  {
    IndexBound(n - 1, j, nx, ny);
    forall p, q | 0 <= p < nx && 0 <= q < ny && (q != j || p >= n)
      ensures View(t, nx, ny)[p][q] == View(s, nx, ny)[p][q]
    {
      ViewGet(s, nx, ny, p, q);
      ViewGet(t, nx, ny, p, q);
      forall k: nat | k < n
        ensures p * ny + q != Pos(j, ny, k)
      {
        if p * ny + q == k * ny + j {
          IndexUnique(p, q, k, j, ny);
        }
      }
    }
  }

  // Column q of row p after regrouping the first n elements of the rows before i.
  ghost function RowsCell(m: Grid, p: nat, q: nat, lo: nat, hi: nat, n: nat, undo: bool): int
    requires p < |m| && q < |m[p]| && n <= |m[p]|
  {
    m[p][if lo <= p < hi && q < n then From(n, q, undo) else q]
  }

  method RegroupRow(a: array<int>, nx: nat, ny: nat, i: nat, n: nat, undo: bool, tmp: array<int>)
    requires a.Length == nx * ny && i < nx && 0 < n <= ny && a != tmp && tmp.Length >= n / 2
    modifies a, tmp
    ensures forall p, q :: 0 <= p < nx && 0 <= q < ny ==>
              View(a[..], nx, ny)[p][q] ==
              RowsCell(View(old(a[..]), nx, ny), p, q, i, i + 1, n, undo)
  {
    ghost var s := a[..];
    SameOffReflexive(s, ny * i, 1, n);
    RowLine(s, s, nx, ny, i, n);
    if undo {
      Unshuffle(a, ny * i, n, 1, tmp);
    } else {
      Shuffle(a, ny * i, n, 1, tmp);
    }
    hide Fits;
    hide LineOf;
    hide SameOff;
    RowLine(s, a[..], nx, ny, i, n);
  }

  method RegroupColumn(a: array<int>, nx: nat, ny: nat, j: nat, n: nat, undo: bool, tmp: array<int>)
    requires a.Length == nx * ny && j < ny && 0 < n <= nx && a != tmp && tmp.Length >= n / 2
    modifies a, tmp
    ensures forall p, q :: 0 <= p < nx && 0 <= q < ny ==>
              View(a[..], nx, ny)[p][q] ==
              View(old(a[..]), nx, ny)[if q == j && p < n then From(n, p, undo) else p][q]
  {
    ghost var s := a[..];
    SameOffReflexive(s, j, ny, n);
    ColumnLine(s, s, nx, ny, j, n);
    if undo {
      Unshuffle(a, j, n, ny, tmp);
    } else {
      Shuffle(a, j, n, ny, tmp);
    }
    hide Fits;
    hide LineOf;
    hide SameOff;
    ColumnLine(s, a[..], nx, ny, j, n);
  }

  method RegroupBlock(a: array<int>, nx: nat, ny: nat, nxt: nat, nyt: nat, undo: bool, tmp: array<int>)
    requires a.Length == nx * ny && 0 < nxt <= nx && 0 < nyt <= ny
    requires a != tmp && tmp.Length >= nxt / 2 && tmp.Length >= nyt / 2
    modifies a, tmp
    ensures View(a[..], nx, ny) == Regroup(View(old(a[..]), nx, ny), nx, ny, nxt, nyt, undo)
  {
    ghost var m := View(a[..], nx, ny);
    hide View;
    var i := 0;
    while i < nxt
      invariant 0 <= i <= nxt
      invariant forall p, q :: 0 <= p < nx && 0 <= q < ny ==>
                  View(a[..], nx, ny)[p][q] == RowsCell(m, p, q, 0, i, nyt, undo)
    {
      RegroupRow(a, nx, ny, i, nyt, undo, tmp);
      i := i + 1;
    }
    ghost var rows := View(a[..], nx, ny);
    var j := 0;
    while j < nyt
      invariant 0 <= j <= nyt
      invariant forall p, q :: 0 <= p < nx && 0 <= q < ny ==>
                  View(a[..], nx, ny)[p][q] == rows[if q < j && p < nxt then From(nxt, p, undo) else p][q]
    {
      ghost var w := View(a[..], nx, ny);
      RegroupColumn(a, nx, ny, j, nxt, undo, tmp);
      forall p, q | 0 <= p < nx && 0 <= q < ny
        ensures View(a[..], nx, ny)[p][q] == rows[if q < j + 1 && p < nxt then From(nxt, p, undo) else p][q]
      {
        assert View(a[..], nx, ny)[p][q] == w[if q == j && p < nxt then From(nxt, p, undo) else p][q];
      }
      j := j + 1;
    }
    GridsEqual(View(a[..], nx, ny), Regroup(m, nx, ny, nxt, nyt, undo), nx, ny);
  }
}
