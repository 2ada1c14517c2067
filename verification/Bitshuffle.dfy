/**
  Bitshuffle: the transposes of bytes, bits and rows that make up the bit transpose of a
  block of elements, its inverse, and the blocks and leftovers of a whole buffer.
 */
module Bitshuffle {
  import opened Grids
  import opened Powers
  import opened BitKernel

  function Product(a: nat, b: nat): nat
  {
    a * b
  }

  // ---- index arithmetic ----

  // The place of row i, column j in rows of n.
  function At(i: nat, j: nat, n: nat): nat
  {
    i * n + j
  }

  lemma AtBelow(i: nat, j: nat, m: nat, n: nat)
    requires i < m && j < n
    ensures At(i, j, n) < Product(m, n)
  {
    IndexBound(i, j, m, n);
  }

  lemma AtBack(i: nat, j: nat, n: nat)
    requires j < n
    ensures At(i, j, n) / n == i && At(i, j, n) % n == j
  {
    QuotientUnique(i * n + j, n, i, j);
  }

  lemma AtSplit(y: nat, m: nat, n: nat) returns (i: nat, j: nat)
    requires y < Product(m, n)
    ensures i < m && j < n && y == At(i, j, n)
  {
    i, j := IndexSplit(y, m, n);
  }

  // Three levels of rows regroup.
  lemma AtRegroup(i: nat, j: nat, k: nat, m: nat, n: nat)
    ensures At(At(i, j, m), k, n) == At(i, At(j, k, n), Product(m, n))
  {
    assert (i * m + j) * n + k == i * (m * n) + (j * n + k);
  }

  lemma ProductRegroup(a: nat, b: nat, c: nat)
    ensures Product(Product(a, b), c) == Product(a, Product(b, c)) && Product(a, b) == Product(b, a)
  {
  }

  // ---- transposing elements ----

  predicate HasSize(s: seq<octet>, a: nat, b: nat, w: nat)
  {
    |s| == Product(Product(a, b), w)
  }

  // Element (i, j) of lda rows of ldb elements of w bytes.
  function ElemByte(s: seq<octet>, lda: nat, ldb: nat, w: nat, i: nat, j: nat, k: nat): octet
    requires HasSize(s, lda, ldb, w) && i < lda && j < ldb && k < w
  {
    AtBelow(i, j, lda, ldb);
    AtBelow(At(i, j, ldb), k, Product(lda, ldb), w);
    s[At(At(i, j, ldb), k, w)]
  }

  // out holds the ldb x lda transpose of s.
  ghost predicate Transposed(s: seq<octet>, out: seq<octet>, lda: nat, ldb: nat, w: nat)
  {
    HasSize(s, lda, ldb, w) && HasSize(out, ldb, lda, w) &&
    forall i: nat, j: nat, k: nat {:trigger ElemByte(out, ldb, lda, w, j, i, k)} :: i < lda && j < ldb && k < w ==>
      ElemByte(out, ldb, lda, w, j, i, k) == ElemByte(s, lda, ldb, w, i, j, k)
  }

  // Where the byte y of the transpose comes from.
  function Target(s: seq<octet>, lda: nat, ldb: nat, w: nat, y: nat): octet
    requires HasSize(s, lda, ldb, w) && y < |s|
  {
    ProductRegroup(lda, ldb, w);
    AtRange(y, Product(ldb, lda), w);
    AtRange(y / w, ldb, lda);
    ElemByte(s, lda, ldb, w, y / w % lda, y / w / lda, y % w)
  }

  lemma AtRange(y: nat, m: nat, n: nat)
    requires y < Product(m, n)
    ensures n > 0 && 0 <= y / n < m && 0 <= y % n < n && y == At(y / n, y % n, n)
  {
    MulMonotone(m, y / n, n);
  }

  lemma TargetAt(s: seq<octet>, lda: nat, ldb: nat, w: nat, i: nat, j: nat, k: nat)
    requires HasSize(s, lda, ldb, w) && i < lda && j < ldb && k < w
    ensures var y := At(At(j, i, lda), k, w); y < |s| && Target(s, lda, ldb, w, y) == ElemByte(s, lda, ldb, w, i, j, k)
  {
    hide ElemByte;
    ProductRegroup(lda, ldb, w);
    AtBelow(j, i, ldb, lda);
    AtBelow(At(j, i, lda), k, Product(ldb, lda), w);
    hide Product;
    AtBack(At(j, i, lda), k, w);
    AtBack(j, i, lda);
  }

  // The bytes in done are those of the transpose.
  ghost predicate Right(s: seq<octet>, out: seq<octet>, lda: nat, ldb: nat, w: nat, y: nat)
  {
    HasSize(s, lda, ldb, w) && y < |s| == |out| && out[y] == Target(s, lda, ldb, w, y)
  }

  lemma StoreRight(s: seq<octet>, out: seq<octet>, lda: nat, ldb: nat, w: nat, i: nat, j: nat, k: nat, v: octet)
    requires HasSize(s, lda, ldb, w) && |out| == |s| && i < lda && j < ldb && k < w &&
             v == ElemByte(s, lda, ldb, w, i, j, k)
    ensures var x := At(At(j, i, lda), k, w);
            x < |out| && Cell(s, out[x := v], lda, ldb, w, i, j, k) &&
            forall p: nat, q: nat, r: nat {:trigger Cell(s, out[x := v], lda, ldb, w, p, q, r)} ::
              Cell(s, out, lda, ldb, w, p, q, r) ==> Cell(s, out[x := v], lda, ldb, w, p, q, r)
  {
    hide Target;
    hide ElemByte;
    hide HasSize;
    TargetAt(s, lda, ldb, w, i, j, k);
  }

  ghost predicate Cell(s: seq<octet>, out: seq<octet>, lda: nat, ldb: nat, w: nat, i: nat, j: nat, k: nat)
  {
    Right(s, out, lda, ldb, w, At(At(j, i, lda), k, w))
  }

  lemma AllRight(s: seq<octet>, out: seq<octet>, lda: nat, ldb: nat, w: nat)
    requires HasSize(s, lda, ldb, w) && |out| == |s|
    requires forall i: nat, j: nat, k: nat :: i < lda && j < ldb && k < w ==> Cell(s, out, lda, ldb, w, i, j, k)
    ensures Transposed(s, out, lda, ldb, w)
  {
    hide Target;
    ProductRegroup(lda, ldb, w);
    forall i: nat, j: nat, k: nat | i < lda && j < ldb && k < w
      ensures ElemByte(out, ldb, lda, w, j, i, k) == ElemByte(s, lda, ldb, w, i, j, k)
    {
      assert Cell(s, out, lda, ldb, w, i, j, k);
      TargetAt(s, lda, ldb, w, i, j, k);
    }
  }

  // Copy one byte of element (i, j) to its place in the transpose.
  method Store(s: seq<octet>, out: array<octet>, lda: nat, ldb: nat, w: nat, i: nat, j: nat, k: nat)
    requires HasSize(s, lda, ldb, w) && out.Length == |s| && i < lda && j < ldb && k < w
    modifies out
    ensures Cell(s, out[..], lda, ldb, w, i, j, k)
    ensures forall p: nat, q: nat, r: nat {:trigger Cell(s, out[..], lda, ldb, w, p, q, r)} ::
              Cell(s, old(out[..]), lda, ldb, w, p, q, r) ==> Cell(s, out[..], lda, ldb, w, p, q, r)
  {
    hide Cell;
    hide At;
    ghost var was, v := out[..], ElemByte(s, lda, ldb, w, i, j, k);
    StoreRight(s, was, lda, ldb, w, i, j, k, v);
    out[At(At(j, i, lda), k, w)] := ElemByte(s, lda, ldb, w, i, j, k);
    assert out[..] == was[At(At(j, i, lda), k, w) := v];
  }

  // The elements (p, q) before (i, j) in row-major order are stored.
  ghost predicate RowsStored(s: seq<octet>, out: seq<octet>, lda: nat, ldb: nat, w: nat, i: nat, j: nat)
  {
    forall p: nat, q: nat, r: nat {:trigger Cell(s, out, lda, ldb, w, p, q, r)} ::
      r < w && q < ldb && (p < i || (p == i && q < j)) ==> Cell(s, out, lda, ldb, w, p, q, r)
  }

  // Copy an element of w bytes.
  method CopyElem(s: seq<octet>, out: array<octet>, lda: nat, ldb: nat, w: nat, i: nat, j: nat)
    requires HasSize(s, lda, ldb, w) && out.Length == |s| && i < lda && j < ldb &&
             RowsStored(s, out[..], lda, ldb, w, i, j)
    modifies out
    ensures RowsStored(s, out[..], lda, ldb, w, i, j + 1)
  {
    hide Cell;
    hide HasSize;
    for k := 0 to w
      invariant RowsStored(s, out[..], lda, ldb, w, i, j)
      invariant forall r: nat {:trigger Cell(s, out[..], lda, ldb, w, i, j, r)} :: r < k ==>
                Cell(s, out[..], lda, ldb, w, i, j, r)
    {
      Store(s, out, lda, ldb, w, i, j, k);
    }
  }

  lemma AllStored(s: seq<octet>, out: seq<octet>, lda: nat, ldb: nat, w: nat)
    requires HasSize(s, lda, ldb, w) && |out| == |s| && RowsStored(s, out, lda, ldb, w, lda, 0)
    ensures Transposed(s, out, lda, ldb, w)
  {
    hide Cell;
    hide Transposed;
    AllRight(s, out, lda, ldb, w);
  }

  // The general transpose, element by element.
  method TransElem(s: seq<octet>, lda: nat, ldb: nat, w: nat) returns (out: array<octet>)
    requires HasSize(s, lda, ldb, w)
    ensures fresh(out) && Transposed(s, out[..], lda, ldb, w)
  {
    hide Cell;
    hide HasSize;
    hide Transposed;
    out := new octet[|s|];
    for ii := 0 to lda
      invariant RowsStored(s, out[..], lda, ldb, w, ii, 0)
    {
      for jj := 0 to ldb
        invariant RowsStored(s, out[..], lda, ldb, w, ii, jj)
      {
        CopyElem(s, out, lda, ldb, w, ii, jj);
      }
    }
    AllStored(s, out[..], lda, ldb, w);
  }

  // In rows i to i + 7, the bytes before column j, and in column j the first k, are stored.
  ghost predicate BandStored(s: seq<octet>, out: seq<octet>, lda: nat, ldb: nat, i: nat, j: nat, k: nat)
  {
    forall p: nat, q: nat {:trigger Cell(s, out, lda, ldb, 1, p, q, 0)} ::
      q < ldb && (p < i || (p < i + 8 && q < j) || (p < i + k && q == j)) ==> Cell(s, out, lda, ldb, 1, p, q, 0)
  }

  // Eight rows at a time, column by column.
  method TransBand(s: seq<octet>, out: array<octet>, lda: nat, ldb: nat, ii: nat)
    requires HasSize(s, lda, ldb, 1) && out.Length == |s| && ii + 7 < lda && BandStored(s, out[..], lda, ldb, ii, 0, 0)
    modifies out
    ensures BandStored(s, out[..], lda, ldb, ii + 8, 0, 0)
  {
    hide Cell;
    hide HasSize;
    for jj := 0 to ldb
      invariant BandStored(s, out[..], lda, ldb, ii, jj, 0)
    {
      for kk := 0 to 8
        invariant BandStored(s, out[..], lda, ldb, ii, jj, kk)
      {
        Store(s, out, lda, ldb, 1, ii + kk, jj, 0);
      }
    }
  }

  // Transpose the bytes within elements: by eight elements, and what is left one by one.
  method TransByteElem(s: seq<octet>, size: nat, es: nat) returns (out: array<octet>)
    requires HasSize(s, size, es, 1)
    ensures fresh(out) && Transposed(s, out[..], size, es, 1)
  {
    hide Cell;
    hide HasSize;
    hide Transposed;
    out := new octet[|s|];
    var ii := 0;
    while ii + 7 < size
      invariant ii % 8 == 0 && ii <= size && BandStored(s, out[..], size, es, ii, 0, 0)
    {
      TransBand(s, out, size, es, ii);
      ii := ii + 8;
    }
    assert ii == size - size % 8;
    while ii < size
      invariant ii <= size && RowsStored(s, out[..], size, es, 1, ii, 0)
    {
      for jj := 0 to es
        invariant RowsStored(s, out[..], size, es, 1, ii, jj)
      {
        Store(s, out, size, es, 1, ii, jj, 0);
      }
      ii := ii + 1;
    }
    AllStored(s, out[..], size, es, 1);
  }

  // ---- transposing bits ----

  // Word m of eight bytes.
  function Eight(s: seq<octet>, m: nat): seq<octet>
    requires 8 * m + 8 <= |s|
  {
    s[8 * m..8 * m + 8]
  }

  // Byte r of word m, transposed.
  function Turned(s: seq<octet>, m: nat, r: nat): octet
    requires 8 * m + 8 <= |s|
  {
    ByteOf(Trans8x8(Load(Eight(s, m))), r)
  }

  lemma TurnedBit(s: seq<octet>, m: nat, r: nat, c: nat)
    requires 8 * m + 8 <= |s| && r < 8 && c < 8
    ensures Bit(Turned(s, m, r), c) == Bit(s[8 * m + c], r)
  {
    hide Bit;
    hide Load;
    hide Trans8x8;
    hide ByteOf;
    Kernel(Eight(s, m), r, c);
  }

  // Bit row r holds byte r of every word.
  ghost predicate BitRows(s: seq<octet>, out: seq<octet>, words: nat)
  {
    |s| == |out| == 8 * words &&
    forall m: nat, r: nat {:trigger Turned(s, m, r)} :: m < words && r < 8 ==>
      HasByte(out, At(r, m, words), Turned(s, m, r))
  }

  predicate HasByte(out: seq<octet>, x: nat, v: octet)
  {
    x < |out| && out[x] == v
  }

  lemma AtDistinct(i: nat, j: nat, p: nat, q: nat, n: nat)
    requires j < n && q < n && At(i, j, n) == At(p, q, n)
    ensures i == p && j == q
  {
    IndexUnique(i, j, p, q, n);
  }

  ghost predicate BitRowsUpTo(s: seq<octet>, out: seq<octet>, words: nat, m0: nat, r0: nat)
  {
    |s| == |out| == 8 * words &&
    forall m: nat, r: nat {:trigger Turned(s, m, r)} :: m < words && r < 8 && (m < m0 || (m == m0 && r < r0)) ==>
      HasByte(out, At(r, m, words), Turned(s, m, r))
  }

  lemma BitRowStored(s: seq<octet>, out: seq<octet>, words: nat, m0: nat, r0: nat)
    requires BitRowsUpTo(s, out, words, m0, r0) && m0 < words && r0 < 8
    ensures var x := At(r0, m0, words); x < |out| && BitRowsUpTo(s, out[x := Turned(s, m0, r0)], words, m0, r0 + 1)
  {
    hide Turned;
    hide At;
    AtBelow(r0, m0, 8, words);
    var x := At(r0, m0, words);
    forall m: nat, r: nat | m < words && r < 8 && (m < m0 || (m == m0 && r < r0))
      ensures At(r, m, words) != x
    {
      if At(r, m, words) == x {
        AtDistinct(r, m, r0, m0, words);
      }
    }
  }

  // One word: transpose it and deal its bytes out to the eight bit rows.
  method TransWord(s: seq<octet>, out: array<octet>, words: nat, ii: nat)
    requires ii < words && BitRowsUpTo(s, out[..], words, ii, 0)
    modifies out
    ensures BitRowsUpTo(s, out[..], words, ii, 8)
  {
    hide BitRowsUpTo;
    hide Load;
    hide Trans8x8;
    hide LowByte;
    hide Shifted;
    hide ShiftByte;
    hide At;
    RowsSize(s, out[..], words, ii, 0);
    var x := Trans8x8(Load(Eight(s, ii)));
    ghost var x0 := x;
    ShiftNone(x0);
    for kk := 0 to 8
      invariant x == Shifted(x0, kk) && BitRowsUpTo(s, out[..], words, ii, kk)
    {
      BitRowStored(s, out[..], words, ii, kk);
      ghost var was := out[..];
      out[At(kk, ii, words)] := LowByte(x);
      assert out[..] == was[At(kk, ii, words) := Turned(s, ii, kk)];
      ShiftNext(x0, kk);
      x := ShiftByte(x);
    }
  }

  lemma ShiftNone(x: bv64)
    ensures Shifted(x, 0) == x
  {
  }

  lemma ShiftNext(x: bv64, k: nat)
    ensures Shifted(x, k + 1) == ShiftByte(Shifted(x, k))
  {
  }

  lemma RowsSize(s: seq<octet>, out: seq<octet>, words: nat, m0: nat, r0: nat)
    requires BitRowsUpTo(s, out, words, m0, r0)
    ensures |s| == |out| == 8 * words
  {
  }

  // Transpose the bits of every word of eight bytes.
  method TransBitByte(s: seq<octet>, words: nat) returns (out: array<octet>)
    requires |s| == 8 * words
    ensures fresh(out) && BitRows(s, out[..], words)
  {
    hide Turned;
    hide At;
    out := new octet[|s|];
    for ii := 0 to words
      invariant BitRowsUpTo(s, out[..], words, ii, 0)
    {
      TransWord(s, out, words, ii);
    }
  }

  // Row g of eight elements of es bytes: byte r of word (g, j) becomes byte j of element r.
  ghost predicate Elements(s: seq<octet>, out: seq<octet>, groups: nat, es: nat)
  {
    |s| == |out| == 8 * Product(groups, es) &&
    forall g: nat, j: nat, r: nat {:trigger ElementByte(s, out, groups, es, g, j, r)} ::
      g < groups && j < es && r < 8 ==> ElementByte(s, out, groups, es, g, j, r)
  }

  ghost predicate ElementByte(s: seq<octet>, out: seq<octet>, groups: nat, es: nat, g: nat, j: nat, r: nat)
  {
    8 * At(g, j, es) + 8 <= |s| && HasByte(out, At(At(g, r, 8), j, es), Turned(s, At(g, j, es), r))
  }

  // The words of columns before j0, and in column j0 those of groups before g0, are done, and r0 bytes of the next.
  ghost predicate ElementsUpTo(s: seq<octet>, out: seq<octet>, groups: nat, es: nat, j0: nat, g0: nat, r0: nat)
  {
    |s| == |out| == 8 * Product(groups, es) &&
    forall g: nat, j: nat, r: nat {:trigger ElementByte(s, out, groups, es, g, j, r)} ::
      g < groups && j < es && r < 8 && (j < j0 || (j == j0 && (g < g0 || (g == g0 && r < r0)))) ==>
        ElementByte(s, out, groups, es, g, j, r)
  }

  lemma ElementDistinct(g: nat, j: nat, r: nat, g': nat, j': nat, r': nat, es: nat)
    requires r < 8 && r' < 8 && j < es && j' < es && At(At(g, r, 8), j, es) == At(At(g', r', 8), j', es)
    ensures g == g' && j == j' && r == r'
  {
    AtDistinct(At(g, r, 8), j, At(g', r', 8), j', es);
    AtDistinct(g, r, g', r', 8);
  }

  lemma WordInside(groups: nat, es: nat, g: nat, j: nat, r: nat)
    requires g < groups && j < es && r < 8
    ensures At(g, j, es) < Product(groups, es) && At(At(g, r, 8), j, es) < 8 * Product(groups, es)
  {
    AtBelow(g, j, groups, es);
    AtBelow(g, r, groups, 8);
    AtBelow(At(g, r, 8), j, Product(groups, 8), es);
    ProductRegroup(groups, 8, es);
    ProductRegroup(8, groups, es);
  }

  lemma ElementStored(s: seq<octet>, out: seq<octet>, groups: nat, es: nat, j0: nat, g0: nat, r0: nat)
    requires ElementsUpTo(s, out, groups, es, j0, g0, r0) && g0 < groups && j0 < es && r0 < 8
    ensures 8 * At(g0, j0, es) + 8 <= |s|
    ensures var x := At(At(g0, r0, 8), j0, es);
            x < |out| && ElementsUpTo(s, out[x := Turned(s, At(g0, j0, es), r0)], groups, es, j0, g0, r0 + 1)
  {
    hide Turned;
    hide At;
    hide Product;
    WordInside(groups, es, g0, j0, r0);
    var x := At(At(g0, r0, 8), j0, es);
    var next := out[x := Turned(s, At(g0, j0, es), r0)];
    forall g: nat, j: nat, r: nat | g < groups && j < es && r < 8 &&
      (j < j0 || (j == j0 && (g < g0 || (g == g0 && r < r0))))
      ensures ElementByte(s, next, groups, es, g, j, r)
    {
      assert ElementByte(s, out, groups, es, g, j, r);
      if At(At(g, r, 8), j, es) == x {
        ElementDistinct(g, j, r, g0, j0, r0, es);
      }
    }
    assert ElementByte(s, next, groups, es, g0, j0, r0);
  }

  lemma ElementsSize(s: seq<octet>, out: seq<octet>, groups: nat, es: nat, j0: nat, g0: nat, r0: nat)
    requires ElementsUpTo(s, out, groups, es, j0, g0, r0)
    ensures |s| == |out| == 8 * Product(groups, es)
  {
  }

  // One word: its transposed bytes go to eight consecutive elements.
  method DealWord(s: seq<octet>, out: array<octet>, ghost groups: nat, es: nat, ghost g: nat, ghost j: nat, ii: nat,
                  jj: nat)
    requires ElementsUpTo(s, out[..], groups, es, j, g, 0) && g < groups && j < es && jj == 8 * j &&
             ii == 8 * Product(g, es)
    modifies out
    ensures ElementsUpTo(s, out[..], groups, es, j, g, 8)
  {
    hide ElementsUpTo;
    hide Load;
    hide Trans8x8;
    hide LowByte;
    hide Shifted;
    hide ShiftByte;
    hide Product;
    hide At;
    ElementsSize(s, out[..], groups, es, j, g, 0);
    WordInside(groups, es, g, j, 0);
    WordStart(g, j, es);
    var x := Trans8x8(Load(s[ii + jj..ii + jj + 8]));
    ghost var x0 := x;
    ShiftNone(x0);
    for kk := 0 to 8
      invariant x == Shifted(x0, kk) && ElementsUpTo(s, out[..], groups, es, j, g, kk)
    {
      ElementStored(s, out[..], groups, es, j, g, kk);
      ElementPlace(g, kk, j, es);
      ghost var was := out[..];
      out[ii + jj / 8 + kk * es] := LowByte(x);
      assert out[..] == was[At(At(g, kk, 8), j, es) := Turned(s, At(g, j, es), kk)];
      ShiftNext(x0, kk);
      x := ShiftByte(x);
    }
  }

  lemma WordStart(g: nat, j: nat, es: nat)
    ensures 8 * Product(g, es) + 8 * j == 8 * At(g, j, es)
  {
  }

  lemma ElementPlace(g: nat, r: nat, j: nat, es: nat)
    ensures At(At(g, r, 8), j, es) == 8 * Product(g, es) + 8 * j / 8 + r * es && r * es >= 0
  {
    assert (g * 8 + r) * es == 8 * (g * es) + r * es;
  }

  // Shuffle the bits within the bytes of every eight elements.
  method ShuffleBitEight(s: seq<octet>, groups: nat, es: nat) returns (out: array<octet>)
    requires |s| == 8 * Product(groups, es)
    ensures fresh(out) && Elements(s, out[..], groups, es)
  {
    hide ElementByte;
    out := new octet[|s|];
    var jj := 0;
    ghost var j := 0;
    while jj < 8 * es
      invariant jj == 8 * j && j <= es && ElementsUpTo(s, out[..], groups, es, j, 0, 0)
    {
      DealColumn(s, out, groups, es, j, jj);
      jj := jj + 8;
      j := j + 1;
    }
  }

  // The words of one column, in all groups.
  method DealColumn(s: seq<octet>, out: array<octet>, groups: nat, es: nat, ghost j: nat, jj: nat)
    requires ElementsUpTo(s, out[..], groups, es, j, 0, 0) && j < es && jj == 8 * j
    modifies out
    ensures ElementsUpTo(s, out[..], groups, es, j + 1, 0, 0)
  {
    hide ElementByte;
    hide Product;
    var ii := 0;
    ghost var g := 0;
    NoGroups(es);
    GroupNext(groups, es, 0);
    while ii + 8 * es - 1 < |s|
      invariant |s| == 8 * Product(groups, es) && g <= groups && ii == 8 * Product(g, es)
      invariant (ii + 8 * es - 1 < |s|) == (g < groups)
      invariant ElementsUpTo(s, out[..], groups, es, j, g, 0)
      decreases groups - g
    {
      DealWord(s, out, groups, es, g, j, ii, jj);
      GroupNext(groups, es, g + 1);
      ProductNext(g, es);
      ii := ii + 8 * es;
      g := g + 1;
    }
  }

  lemma NoGroups(es: nat)
    ensures Product(0, es) == 0
  {
  }

  lemma ProductNext(g: nat, es: nat)
    ensures Product(g + 1, es) == Product(g, es) + es
  {
  }

  lemma GroupNext(groups: nat, es: nat, g: nat)
    requires es > 0 && g <= groups
    ensures (8 * Product(g, es) + 8 * es - 1 < 8 * Product(groups, es)) == (g < groups)
  {
    MulMonotone(g + 1, groups, es);
    MulMonotone(groups, g, es);
    assert (g + 1) * es == g * es + es;
  }

  // ---- the bit transpose of a block ----

  // Row 8j + b, column i of out is bit b of byte j of element i, for 8n elements of es bytes.
  ghost predicate BitTransposed(s: seq<octet>, out: seq<octet>, n: nat, es: nat)
  {
    |s| == |out| == 8 * Product(n, es) &&
    forall q: nat, c: nat, j: nat, b: nat {:trigger BitMoved(s, out, n, es, q, c, j, b)} ::
      q < n && c < 8 && j < es && b < 8 ==> BitMoved(s, out, n, es, q, c, j, b)
  }

  // Element 8q + c, byte j, bit b.
  ghost predicate BitMoved(s: seq<octet>, out: seq<octet>, n: nat, es: nat, q: nat, c: nat, j: nat, b: nat)
  {
    c < 8 && b < 8 && At(At(q, c, 8), j, es) < |s| && At(At(j, b, 8), q, n) < |out| &&
    Bit(out[At(At(j, b, 8), q, n)], c) == Bit(s[At(At(q, c, 8), j, es)], b)
  }

  lemma SizesAgree(n: nat, es: nat)
    ensures Product(8 * n, es) == 8 * Product(n, es) && Product(Product(8 * n, es), 1) == 8 * Product(n, es)
    ensures Product(Product(8, es), n) == 8 * Product(n, es) && Product(es, n) == Product(n, es)
    ensures Product(Product(8 * es, n), 1) == 8 * Product(n, es)
  {
    assert (8 * n) * es == 8 * (n * es);
    assert (8 * es) * n == 8 * (es * n) == 8 * (n * es);
  }

  // Bytes to byte rows, byte rows to bit rows, and the bit rows of each byte together.
  lemma StepsTranspose(s: seq<octet>, t1: seq<octet>, t2: seq<octet>, out: seq<octet>, n: nat, es: nat)
    requires Transposed(s, t1, 8 * n, es, 1) && BitRows(t1, t2, Product(es, n)) && Transposed(t2, out, 8, es, n)
    ensures BitTransposed(s, out, n, es)
  {
    hide Transposed;
    hide BitRows;
    hide BitMoved;
    SizesAgree(n, es);
    StepSizes(s, t1, t2, out, n, es);
    hide Product;
    forall q: nat, c: nat, j: nat, b: nat | q < n && c < 8 && j < es && b < 8
      ensures BitMoved(s, out, n, es, q, c, j, b)
    {
      OneBitMoves(s, t1, t2, out, n, es, q, c, j, b);
    }
  }

  lemma StepSizes(s: seq<octet>, t1: seq<octet>, t2: seq<octet>, out: seq<octet>, n: nat, es: nat)
    requires Transposed(s, t1, 8 * n, es, 1) && BitRows(t1, t2, Product(es, n)) && Transposed(t2, out, 8, es, n)
    ensures HasSize(s, 8 * n, es, 1) && HasSize(t1, es, 8 * n, 1) && HasSize(t2, 8, es, n) && HasSize(out, es, 8, n)
    ensures |s| == Product(Product(8 * n, es), 1) && |out| == Product(Product(es, 8), n) == Product(Product(8, es), n)
  {
    ProductRegroup(es, 8, n);
  }

  lemma OneBitMoves(s: seq<octet>, t1: seq<octet>, t2: seq<octet>, out: seq<octet>, n: nat, es: nat, q: nat, c: nat,
                    j: nat, b: nat)
    requires Transposed(s, t1, 8 * n, es, 1) && BitRows(t1, t2, Product(es, n)) && Transposed(t2, out, 8, es, n)
    requires q < n && c < 8 && j < es && b < 8
    ensures BitMoved(s, out, n, es, q, c, j, b)
  {
    hide Turned;
    var i := At(q, c, 8);
    ByteMoved(s, t1, n, es, q, c, j);
    RowMoved(t2, out, n, es, q, j, b);
    AtRegroup(b, j, q, es, n);
    AtBelow(j, q, es, n);
    var m := At(j, q, n);
    hide Transposed;
    hide At;
    assert HasByte(t2, At(b, m, Product(es, n)), Turned(t1, m, b));
    TurnedBit(t1, m, b, c);
    hide Bit;
  }

  // After the byte transpose, byte j of element 8q + c is byte c of word (j, q).
  lemma ByteMoved(s: seq<octet>, t1: seq<octet>, n: nat, es: nat, q: nat, c: nat, j: nat)
    requires Transposed(s, t1, 8 * n, es, 1) && q < n && c < 8 && j < es
    ensures At(At(q, c, 8), j, es) < |s| && 8 * At(j, q, n) + c < |t1|
    ensures t1[8 * At(j, q, n) + c] == s[At(At(q, c, 8), j, es)]
  {
    var i := At(q, c, 8);
    assert i < 8 * n;
    assert ElemByte(t1, es, 8 * n, 1, j, i, 0) == ElemByte(s, 8 * n, es, 1, i, j, 0);
    WordByte(j, q, c, n);
    AtOne(s, 8 * n, es, i, j);
    AtOne(t1, es, 8 * n, j, i);
  }

  lemma WordByte(j: nat, q: nat, c: nat, n: nat)
    ensures At(j, At(q, c, 8), 8 * n) == 8 * At(j, q, n) + c
  {
    assert j * (8 * n) == 8 * (j * n);
  }

  lemma AtOne(s: seq<octet>, a: nat, b: nat, i: nat, j: nat)
    requires HasSize(s, a, b, 1) && i < a && j < b
    ensures At(i, j, b) < |s| && ElemByte(s, a, b, 1, i, j, 0) == s[At(i, j, b)]
  {
    AtBelow(i, j, a, b);
  }

  lemma RowMoved(t2: seq<octet>, out: seq<octet>, n: nat, es: nat, q: nat, j: nat, b: nat)
    requires Transposed(t2, out, 8, es, n) && q < n && j < es && b < 8
    ensures At(At(b, j, es), q, n) < |t2| && At(At(j, b, 8), q, n) < |out|
    ensures out[At(At(j, b, 8), q, n)] == t2[At(At(b, j, es), q, n)]
  {
    assert ElemByte(out, es, 8, n, j, b, q) == ElemByte(t2, 8, es, n, b, j, q);
    AtBelow(b, j, 8, es);
    AtBelow(At(b, j, es), q, Product(8, es), n);
    AtBelow(j, b, es, 8);
    AtBelow(At(j, b, 8), q, Product(es, 8), n);
  }

  // ---- one block ----

  // The bit transpose of size elements of es bytes, or the error code -80.
  method TransBitElem(s: seq<octet>, size: nat, es: nat) returns (count: int, out: array<octet>)
    requires |s| == Product(size, es)
    ensures fresh(out) && count == if size % 8 == 0 then |s| else -80
    ensures size % 8 == 0 ==> BitTransposed(s, out[..], size / 8, es)
  {
    if size % 8 != 0 {
      out := new octet[0];
      return -80, out;
    }
    var n := size / 8;
    SizesAgree(n, es);
    hide Product;
    hide Transposed;
    hide BitRows;
    var t1 := TransByteElem(s, size, es);
    ByteSize(s, t1[..], size, es);
    var t2 := TransBitByte(t1[..], Product(es, n));
    RowSize(t1[..], t2[..], Product(es, n));
    out := TransElem(t2[..], 8, es, n);
    StepsTranspose(s, t1[..], t2[..], out[..], n, es);
    count := |s|;
  }

  lemma ByteSize(s: seq<octet>, t: seq<octet>, lda: nat, ldb: nat)
    requires Transposed(s, t, lda, ldb, 1)
    ensures |t| == |s| == Product(Product(lda, ldb), 1)
  {
    ProductRegroup(lda, ldb, 1);
  }

  lemma RowSize(s: seq<octet>, out: seq<octet>, words: nat)
    requires BitRows(s, out, words)
    ensures |out| == |s| == 8 * words
  {
  }

  // Transpose the bytes of bit rows: 8es rows of n bytes.
  method TransByteBitrow(s: seq<octet>, n: nat, es: nat) returns (out: array<octet>)
    requires HasSize(s, 8 * es, n, 1)
    ensures fresh(out) && Transposed(s, out[..], 8 * es, n, 1)
  {
    hide Cell;
    hide HasSize;
    hide Transposed;
    out := new octet[|s|];
    for jj := 0 to es
      invariant BandStored(s, out[..], 8 * es, n, 8 * jj, 0, 0)
    {
      TransBand(s, out, 8 * es, n, 8 * jj);
    }
    AllStored(s, out[..], 8 * es, n, 1);
  }

  lemma OneBitBack(m: seq<octet>, t: seq<octet>, out: seq<octet>, n: nat, es: nat, q: nat, c: nat, j: nat, b: nat)
    requires Transposed(m, t, 8 * es, n, 1) && Elements(t, out, n, es) && q < n && c < 8 && j < es && b < 8
    ensures BitMoved(out, m, n, es, q, c, j, b)
  {
    hide Turned;
    hide Product;
    ByteMoved(m, t, es, n, j, b, q);
    assert ElementByte(t, out, n, es, q, j, c);
    hide Transposed;
    hide At;
    TurnedBit(t, At(q, j, es), c, b);
    hide Bit;
  }

  lemma StepsUntranspose(m: seq<octet>, t: seq<octet>, out: seq<octet>, n: nat, es: nat)
    requires Transposed(m, t, 8 * es, n, 1) && Elements(t, out, n, es)
    ensures BitTransposed(out, m, n, es)
  {
    hide BitMoved;
    hide ElementByte;
    SizesAgree(n, es);
    ProductRegroup(8 * es, n, 1);
    hide Product;
    forall q: nat, c: nat, j: nat, b: nat | q < n && c < 8 && j < es && b < 8
      ensures BitMoved(out, m, n, es, q, c, j, b)
    {
      OneBitBack(m, t, out, n, es, q, c, j, b);
    }
  }

  // The inverse: what it returns is what s is the bit transpose of.
  method UntransBitElem(s: seq<octet>, size: nat, es: nat) returns (count: int, out: array<octet>)
    requires |s| == Product(size, es)
    ensures fresh(out) && count == if size % 8 == 0 then |s| else -80
    ensures size % 8 == 0 ==> BitTransposed(out[..], s, size / 8, es)
  {
    if size % 8 != 0 {
      out := new octet[0];
      return -80, out;
    }
    var n := size / 8;
    SizesAgree(n, es);
    hide Product;
    hide Transposed;
    hide Elements;
    var t := TransByteBitrow(s, n, es);
    ByteSize(s, t[..], 8 * es, n);
    out := ShuffleBitEight(t[..], n, es);
    StepsUntranspose(s, t[..], out[..], n, es);
    count := |s|;
  }

  // Only one block of elements has a given bit transpose.
  lemma TransposeInjective(a: seq<octet>, b: seq<octet>, m: seq<octet>, n: nat, es: nat)
    requires BitTransposed(a, m, n, es) && BitTransposed(b, m, n, es)
    ensures a == b
  {
    hide Bit;
    hide BitMoved;
    SizesAgree(n, es);
    forall x | 0 <= x < |a|
      ensures a[x] == b[x]
    {
      AtRange(x, 8 * n, es);
      AtRange(x / es, n, 8);
      SameElement(a, b, m, n, es, x / es / 8, x / es % 8, x % es);
    }
  }

  lemma SameElement(a: seq<octet>, b: seq<octet>, m: seq<octet>, n: nat, es: nat, q: nat, c: nat, j: nat)
    requires BitTransposed(a, m, n, es) && BitTransposed(b, m, n, es) && q < n && c < 8 && j < es
    ensures At(At(q, c, 8), j, es) < |a| && At(At(q, c, 8), j, es) < |b|
    ensures a[At(At(q, c, 8), j, es)] == b[At(At(q, c, 8), j, es)]
  {
    hide Bit;
    hide At;
    hide Product;
    assert BitMoved(a, m, n, es, q, c, j, 0) && BitMoved(b, m, n, es, q, c, j, 0);
    var x := At(At(q, c, 8), j, es);
    forall k | 0 <= k < 8
      ensures Bit(a[x], k) == Bit(b[x], k)
    {
      assert BitMoved(a, m, n, es, q, c, j, k) && BitMoved(b, m, n, es, q, c, j, k);
    }
    SameBits(a[x], b[x]);
  }

  // ---- a whole buffer ----

  // Block by block, then what is left of whole groups of eight elements, then the leftovers as they are.
  ghost predicate Blocked(s: seq<octet>, out: seq<octet>, size: nat, es: nat, bs: nat)
    requires bs > 0
    decreases size
  {
    |s| == |out| == Product(size, es) &&
    if size >= bs then
      var k := Product(bs, es);
      k <= |s| && BitTransposed(s[..k], out[..k], bs / 8, es) && Blocked(s[k..], out[k..], size - bs, es, bs)
    else
      var k := Product(size - size % 8, es);
      k <= |s| && BitTransposed(s[..k], out[..k], size / 8, es) && s[k..] == out[k..]
  }

  // Only one buffer shuffles to a given one.
  lemma {:induction false} BlockedInjective(a: seq<octet>, b: seq<octet>, m: seq<octet>, size: nat, es: nat, bs: nat)
    requires bs > 0 && Blocked(a, m, size, es, bs) && Blocked(b, m, size, es, bs)
    ensures a == b
    decreases size
  {
    hide BitTransposed;
    hide Product;
    var k := Product(if size >= bs then bs else size - size % 8, es);
    TransposeInjective(a[..k], b[..k], m[..k], (if size >= bs then bs else size) / 8, es);
    if size >= bs {
      BlockedInjective(a[k..], b[k..], m[k..], size - bs, es, bs);
    }
    assert a == a[..k] + a[k..] && b == b[..k] + b[k..];
  }

  const TARGET_BLOCK_SIZE_B := 8192
  const MIN_RECOMMEND_BLOCK := 128

  // The largest multiple of 8 elements that fit the target size, but no less than the recommended minimum.
  function DefaultBlockSize(es: nat): (bs: nat)
    requires es > 0
    ensures bs >= MIN_RECOMMEND_BLOCK && bs % 8 == 0
    ensures bs == MIN_RECOMMEND_BLOCK || bs * es <= TARGET_BLOCK_SIZE_B
    ensures TARGET_BLOCK_SIZE_B < (bs + 8) * es
  {
    TargetFilled(es);
    var bs := TARGET_BLOCK_SIZE_B / es / 8 * 8;
    if bs > MIN_RECOMMEND_BLOCK then bs else MIN_RECOMMEND_BLOCK
  }

  lemma TargetFilled(es: nat)
    requires es > 0
    ensures var bs := TARGET_BLOCK_SIZE_B / es / 8 * 8;
            bs * es <= TARGET_BLOCK_SIZE_B < (bs + 8) * es &&
            (bs <= MIN_RECOMMEND_BLOCK ==> TARGET_BLOCK_SIZE_B < (MIN_RECOMMEND_BLOCK + 8) * es)
  {
    var q := TARGET_BLOCK_SIZE_B / es;
    var bs := q / 8 * 8;
    MulMonotone(bs, q, es);
    MulMonotone(q + 1, bs + 8, es);
    MulMonotone(bs + 8, MIN_RECOMMEND_BLOCK + 8, es);
  }

  // The block size that is used.
  function Chosen(bs: nat, es: nat): nat
    requires es > 0
  {
    if bs == 0 then DefaultBlockSize(es) else bs
  }

  // What one direction makes of a block.
  ghost predicate Made(s: seq<octet>, out: seq<octet>, n: nat, es: nat, undo: bool)
  {
    if undo then BitTransposed(out, s, n, es) else BitTransposed(s, out, n, es)
  }

  ghost predicate Shuffled(s: seq<octet>, out: seq<octet>, size: nat, es: nat, bs: nat, undo: bool)
    requires bs > 0
  {
    if undo then Blocked(out, s, size, es, bs) else Blocked(s, out, size, es, bs)
  }

  method Block(s: seq<octet>, size: nat, es: nat, undo: bool) returns (count: int, out: array<octet>)
    requires |s| == Product(size, es) && size % 8 == 0
    ensures fresh(out) && count == |s| && Made(s, out[..], size / 8, es, undo) && out.Length == |s|
  {
    hide Product;
    if undo {
      count, out := UntransBitElem(s, size, es);
    } else {
      count, out := TransBitElem(s, size, es);
    }
    MadeSize(s, out[..], size / 8, es, undo);
  }

  lemma MadeSize(s: seq<octet>, out: seq<octet>, n: nat, es: nat, undo: bool)
    requires Made(s, out, n, es, undo)
    ensures |s| == |out|
  {
  }

  // Whatever the rest is shuffled to, this block completes it.
  lemma BlockThen(s: seq<octet>, head: seq<octet>, tail: seq<octet>, size: nat, es: nat, bs: nat, undo: bool)
    requires 0 < bs <= size && |s| == Product(size, es) && |head| == Product(bs, es) <= |s|
    requires Made(s[..|head|], head, bs / 8, es, undo) && Shuffled(s[|head|..], tail, size - bs, es, bs, undo)
    ensures Shuffled(s, head + tail, size, es, bs, undo)
  {
    hide BitTransposed;
    hide Product;
    var k, out := |head|, head + tail;
    assert out[..k] == head && out[k..] == tail;
    TailSize(s[k..], tail, size - bs, es, bs, undo);
  }

  lemma TailSize(s: seq<octet>, out: seq<octet>, size: nat, es: nat, bs: nat, undo: bool)
    requires bs > 0 && Shuffled(s, out, size, es, bs, undo)
    ensures |s| == |out|
  {
  }

  lemma LastBlock(s: seq<octet>, head: seq<octet>, size: nat, es: nat, bs: nat, undo: bool)
    requires size < bs && |s| == Product(size, es) && |head| == Product(size - size % 8, es) <= |s|
    requires Made(s[..|head|], head, size / 8, es, undo)
    ensures Shuffled(s, head + s[|head|..], size, es, bs, undo)
  {
    hide BitTransposed;
    hide Product;
    var k, out := |head|, head + s[|head|..];
    assert out[..k] == head && out[k..] == s[k..];
  }

  lemma ProductGrows(a: nat, b: nat, es: nat)
    requires a <= b
    ensures Product(a, es) <= Product(b, es) && Product(b, es) - Product(a, es) == Product(b - a, es)
  {
    MulMonotone(a, b, es);
    assert b * es - a * es == (b - a) * es;
  }

  // After i blocks out holds done, and finishing the rest finishes the whole.
  ghost predicate Finishing(s: seq<octet>, done: seq<octet>, i: nat, size: nat, es: nat, bs: nat, undo: bool)
    requires bs > 0
  {
    Product(i, bs) <= size && |done| == Product(Product(i, bs), es) <= |s| &&
    forall tail: seq<octet> {:trigger done + tail} ::
      Shuffled(s[|done|..], tail, size - Product(i, bs), es, bs, undo) ==> Shuffled(s, done + tail, size, es, bs, undo)
  }

  lemma StartFinishing(s: seq<octet>, size: nat, es: nat, bs: nat, undo: bool)
    requires bs > 0
    ensures Finishing(s, [], 0, size, es, bs, undo)
  {
    hide Blocked;
    assert s[0..] == s;
    forall tail: seq<octet>
      ensures [] + tail == tail
    {
    }
  }

  lemma NextFinishing(s: seq<octet>, done: seq<octet>, head: seq<octet>, i: nat, size: nat, es: nat, bs: nat,
                      undo: bool)
    requires bs > 0 && |s| == Product(size, es) && Finishing(s, done, i, size, es, bs, undo)
    requires Product(i, bs) + bs <= size && |head| == Product(bs, es)
    requires |done| + |head| <= |s| && Made(s[|done|..|done| + |head|], head, bs / 8, es, undo)
    ensures Finishing(s, done + head, i + 1, size, es, bs, undo)
  {
    hide Shuffled;
    hide Made;
    var before := Product(i, bs);
    ProductNext(i, bs);
    ProductGrows(before, size, es);
    ProductGrows(bs, before + bs, es);
    ProductGrows(before + bs, size, es);
    hide Product;
    var rest := s[|done|..];
    assert rest[..|head|] == s[|done|..|done| + |head|];
    forall tail: seq<octet> | Shuffled(s[|done + head|..], tail, size - Product(i + 1, bs), es, bs, undo)
      ensures Shuffled(s, (done + head) + tail, size, es, bs, undo)
    {
      assert rest[|head|..] == s[|done + head|..];
      BlockThen(rest, head, tail, size - before, es, bs, undo);
      assert (done + head) + tail == done + (head + tail);
    }
  }

  // The next block, behind what is done.
  method NextBlock(s: seq<octet>, done: seq<octet>, ghost i: nat, size: nat, es: nat, bs: nat, undo: bool)
    returns (count: int, out: seq<octet>)
    requires bs > 0 && bs % 8 == 0 && |s| == Product(size, es) && Finishing(s, done, i, size, es, bs, undo) &&
             Product(i, bs) + bs <= size
    ensures Finishing(s, out, i + 1, size, es, bs, undo) && count == |out| - |done|
  {
    hide Finishing;
    hide Made;
    hide Product;
    DoneSize(s, done, i, size, es, bs, undo);
    BlockInside(i, size, es, bs);
    var block: array<octet>;
    count, block := Block(s[|done|..|done| + Product(bs, es)], bs, es, undo);
    NextFinishing(s, done, block[..], i, size, es, bs, undo);
    out := done + block[..];
  }

  lemma DoneSize(s: seq<octet>, done: seq<octet>, i: nat, size: nat, es: nat, bs: nat, undo: bool)
    requires bs > 0 && Finishing(s, done, i, size, es, bs, undo)
    ensures |done| == Product(Product(i, bs), es) <= |s| && Product(i, bs) <= size
  {
    hide Shuffled;
  }

  lemma BlockInside(i: nat, size: nat, es: nat, bs: nat)
    requires Product(i, bs) + bs <= size
    ensures Product(Product(i, bs), es) + Product(bs, es) <= Product(size, es)
  {
    var before := Product(i, bs);
    hide Product;
    ProductGrows(bs, before + bs, es);
    ProductGrows(before + bs, size, es);
  }

  // How many whole blocks there are.
  function BlockTotal(size: nat, bs: nat): nat
    requires bs > 0
  {
    NotNegative(size, bs);
    size / bs
  }

  lemma BlocksFit(i: nat, size: nat, bs: nat)
    requires bs > 0
    ensures i < BlockTotal(size, bs) ==> Product(i, bs) + bs <= size
    ensures Product(BlockTotal(size, bs), bs) == size - size % bs
  {
    ProductNext(i, bs);
    MulMonotone(i + 1, size / bs, bs);
  }

  lemma RestFinishes(s: seq<octet>, done: seq<octet>, tail: seq<octet>, i: nat, size: nat, es: nat, bs: nat, undo: bool)
    requires bs > 0 && Finishing(s, done, i, size, es, bs, undo) && |done| <= |s| && Product(i, bs) <= size
    requires Shuffled(s[|done|..], tail, size - Product(i, bs), es, bs, undo)
    ensures Shuffled(s, done + tail, size, es, bs, undo)
  {
    hide Shuffled;
    hide Product;
    assert done + tail == done + tail;
  }

  // The elements that fill no block: whole groups of eight are a block of their own, and the rest are copied.
  method LastElements(s: seq<octet>, size: nat, es: nat, bs: nat, undo: bool) returns (count: int, out: seq<octet>)
    requires bs % 8 == 0 && size < bs && |s| == Product(size, es)
    ensures Shuffled(s, out, size, es, bs, undo) && count == |s|
  {
    hide Made;
    hide Shuffled;
    hide Product;
    var last := size - size % 8;
    ProductGrows(last, size, es);
    var k := Product(last, es);
    var block: array<octet>;
    count, block := Block(s[..k], last, es, undo);
    LastBlock(s, block[..], size, es, bs, undo);
    out := block[..] + s[k..];
    count := count + (|s| - k);
  }

  method AllBlocks(s: seq<octet>, size: nat, es: nat, bs: nat, undo: bool) returns (count: int, out: seq<octet>)
    requires bs > 0 && bs % 8 == 0 && |s| == Product(size, es)
    ensures Finishing(s, out, BlockTotal(size, bs), size, es, bs, undo) && count == |out|
  {
    hide Finishing;
    hide Product;
    hide Shuffled;
    hide BlockTotal;
    out := [];
    count := 0;
    StartFinishing(s, size, es, bs, undo);
    for ii := 0 to BlockTotal(size, bs)
      invariant Finishing(s, out, ii, size, es, bs, undo) && count == |out|
    {
      BlocksFit(ii, size, bs);
      var n;
      n, out := NextBlock(s, out, ii, size, es, bs, undo);
      count := count + n;
    }
  }

  lemma Remaining(s: seq<octet>, done: seq<octet>, size: nat, es: nat, bs: nat, undo: bool)
    requires bs > 0 && |s| == Product(size, es) && Finishing(s, done, BlockTotal(size, bs), size, es, bs, undo)
    ensures |done| <= |s| && |s| - |done| == Product(size % bs, es) &&
            size - Product(BlockTotal(size, bs), bs) == size % bs
    ensures Product(BlockTotal(size, bs), bs) <= size
  {
    hide Finishing;
    hide Product;
    BlocksFit(0, size, bs);
    DoneSize(s, done, BlockTotal(size, bs), size, es, bs, undo);
    ProductGrows(size - size % bs, size, es);
  }

  // Shuffle a whole buffer, or unshuffle it; a block size that is not a multiple of eight is refused with -81.
  method BlockedWrap(s: seq<octet>, size: nat, es: nat, blockSize: nat, undo: bool)
    returns (count: int, out: seq<octet>)
    requires es > 0 && |s| == Product(size, es)
    ensures count == if Chosen(blockSize, es) % 8 == 0 then |s| else -81
    ensures Chosen(blockSize, es) % 8 == 0 ==>
      Chosen(blockSize, es) > 0 && |out| == |s| && Shuffled(s, out, size, es, Chosen(blockSize, es), undo)
  {
    hide Finishing;
    hide Product;
    hide Shuffled;
    hide BlockTotal;
    hide DefaultBlockSize;
    var bs := if blockSize == 0 then DefaultBlockSize(es) else blockSize;
    if bs % 8 != 0 {
      return -81, [];
    }
    count, out := AllBlocks(s, size, es, bs, undo);
    Remaining(s, out, size, es, bs, undo);
    var n, tail := LastElements(s[|out|..], size % bs, es, bs, undo);
    RestFinishes(s, out, tail, BlockTotal(size, bs), size, es, bs, undo);
    count := count + n;
    out := out + tail;
    TailSize(s, out, size, es, bs, undo);
  }

  // For every buffer, element size and block size that is accepted, unshuffling undoes shuffling.
  method RoundTrip(s: seq<octet>, size: nat, es: nat, blockSize: nat)
    returns (count: int, out: seq<octet>, back: seq<octet>)
    requires es > 0 && |s| == Product(size, es)
    ensures count == if blockSize % 8 == 0 then |s| else -81
    ensures blockSize % 8 == 0 ==>
      Chosen(blockSize, es) > 0 && Shuffled(s, out, size, es, Chosen(blockSize, es), false) && back == s
  {
    hide Blocked;
    var m;
    count, out := BlockedWrap(s, size, es, blockSize, false);
    back := out;
    if count >= 0 {
      m, back := BlockedWrap(out, size, es, blockSize, true);
      if blockSize % 8 == 0 {
        BlockedInjective(s, back, out, size, es, Chosen(blockSize, es));
      }
    }
  }
}
