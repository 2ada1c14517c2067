/** Flat row-major arrays seen as grids of nx rows of ny cells. */
module Grids {

  type Grid = seq<seq<int>>

  ghost predicate IsGrid(m: Grid, nx: nat, ny: nat)
  {
    |m| == nx && forall i :: 0 <= i < nx ==> |m[i]| == ny
  }

  lemma MulMonotone(a: int, b: int, c: nat)
    ensures a <= b ==> a * c <= b * c
  {
  }

  lemma IndexBound(i: int, j: int, nx: nat, ny: nat)
    requires 0 <= i < nx && 0 <= j < ny
    ensures 0 <= i * ny + j < nx * ny
  {
    assert (i + 1) * ny <= nx * ny;
  }

  lemma IndexUnique(i: int, j: int, p: int, q: int, ny: nat)
    requires 0 <= j < ny && 0 <= q < ny && i * ny + j == p * ny + q
    ensures i == p && j == q
  {
    MulMonotone(i + 1, p, ny);
    MulMonotone(p + 1, i, ny);
  }

  // Row i, column j of s is s[i*ny + j].
  ghost function View(s: seq<int>, nx: nat, ny: nat): (m: Grid)
    requires |s| == nx * ny
    ensures IsGrid(m, nx, ny)
  {
    seq(nx, i requires 0 <= i < nx => ViewRow(s, nx, ny, i))
  }

  ghost function ViewRow(s: seq<int>, nx: nat, ny: nat, i: nat): (row: seq<int>)
    requires |s| == nx * ny && i < nx
    ensures |row| == ny
  {
    seq(ny, j requires 0 <= j < ny => (IndexBound(i, j, nx, ny); s[i * ny + j]))
  }

  lemma ViewGet(s: seq<int>, nx: nat, ny: nat, i: nat, j: nat)
    requires |s| == nx * ny && i < nx && j < ny
    ensures 0 <= i * ny + j < |s|
    ensures View(s, nx, ny)[i][j] == s[i * ny + j]
  {
    IndexBound(i, j, nx, ny);
  }

  lemma ViewSet(s: seq<int>, nx: nat, ny: nat, i: nat, j: nat, v: int)
    requires |s| == nx * ny && i < nx && j < ny
    ensures 0 <= i * ny + j < |s|
    ensures View(s[i * ny + j := v], nx, ny) == View(s, nx, ny)[i := View(s, nx, ny)[i][j := v]]
  {
    IndexBound(i, j, nx, ny);
    var t := s[i * ny + j := v];
    var m, w := View(s, nx, ny), View(t, nx, ny);
    forall p, q | 0 <= p < nx && 0 <= q < ny
      ensures w[p][q] == if p == i && q == j then v else m[p][q]
    {
      IndexBound(p, q, nx, ny);
      if p * ny + q == i * ny + j {
        IndexUnique(p, q, i, j, ny);
      }
    }
    var m' := m[i := m[i][j := v]];
    forall p | 0 <= p < nx
      ensures w[p] == m'[p]
    {
    }
  }

  // Every flat position is some row and column.
  lemma IndexSplit(r: nat, nx: nat, ny: nat) returns (i: nat, j: nat)
    requires r < nx * ny
    ensures i < nx && j < ny && r == i * ny + j
  {
    i, j := r / ny, r % ny;
    MulMonotone(nx, i, ny);
  }

  // Equal grids come from equal arrays.
  lemma ViewInjective(s: seq<int>, t: seq<int>, nx: nat, ny: nat)
    requires |s| == |t| == nx * ny && View(s, nx, ny) == View(t, nx, ny)
    ensures s == t
  {
    forall r | 0 <= r < |s|
      ensures s[r] == t[r]
    {
      var i, j := IndexSplit(r, nx, ny);
      ViewGet(s, nx, ny, i, j);
      ViewGet(t, nx, ny, i, j);
    }
  }
}
