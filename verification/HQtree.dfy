/** Coding and decoding the bit planes of one rectangle: each method against the function that specifies it. */
module HQtree {
  import opened Powers
  import opened Bits
  import opened HStream
  import opened HBitIO
  import opened HHuffman
  import opened HTransform
  import opened HPlanes
  import opened HScratch
  import opened HExpand
  import opened HInsert

  // ---- encoding ----

  // The bits of planes nb - 1 down to 0 of a rectangle.
  ghost function QuadBits(img: seq<int>, off: int, n: nat, nqx: nat, nqy: nat, nb: nat): (b: bits)
    requires Fits(off, n, nqx, nqy, |img|)
  {
    if nb == 0 then [] else
    PlaneBits(Plane(img, off, n, nqx, nqy, nb - 1), nqx, nqy) + QuadBits(img, off, n, nqx, nqy, nb - 1)
  }

  lemma {:induction false} TreeGrows(pl: seq<mark>, nqx: nat, nqy: nat, k: nat, d: nat)
    requires IsPlane(pl, nqx, nqy) && k <= d
    ensures |TreeBits(pl, nqx, nqy, k)| <= |TreeBits(pl, nqx, nqy, d)|
    decreases d
  {
    hide CodesBack;
    hide Level;
    if k < d {
      TreeGrows(pl, nqx, nqy, k, d - 1);
    }
  }

  // The front of the scratch array is level k.
  ghost predicate HoldsLevel(b: seq<nybble>, pl: seq<mark>, nqx: nat, nqy: nat, k: nat)
  {
    IsPlane(pl, nqx, nqy) && k > 0 && Cells(Top(nqx, k), Top(nqy, k)) <= |b| &&
    b[..Cells(Top(nqx, k), Top(nqy, k))] == Level(pl, nqx, nqy, k)
  }

  lemma TopNext(n: nat, k: nat)
    ensures Top(n, k + 1) == Half(Top(n, k))
    ensures n > 0 ==> Top(n, k) > 0
  {
  }

  lemma LevelNext(pl: seq<mark>, nqx: nat, nqy: nat, k: nat)
    requires IsPlane(pl, nqx, nqy) && k > 0
    ensures Level(pl, nqx, nqy, k + 1) == Packed(NonZero(Level(pl, nqx, nqy, k)), Top(nqx, k), Top(nqy, k))
  {
  }

  method ReduceLevel(b: array<nybble>, nx: nat, ny: nat, ghost pl: seq<mark>, ghost nqx: nat, ghost nqy: nat,
                     ghost k: nat)
    requires HoldsLevel(b[..], pl, nqx, nqy, k) && nx == Top(nqx, k) && ny == Top(nqy, k)
    modifies b
    ensures HoldsLevel(b[..], pl, nqx, nqy, k + 1) && Half(nx) == Top(nqx, k + 1) && Half(ny) == Top(nqy, k + 1)
  {
    hide Top;
    hide Cells;
    hide Half;
    hide Level;
    hide Packed;
    hide NonZero;
    TopNext(nqx, k);
    TopNext(nqy, k);
    LevelNext(pl, nqx, nqy, k);
    assert b[..][..Cells(nx, ny)] == b[..Cells(nx, ny)];
    Reduce(b, nx, ny);
    ghost var c := Cells(Half(nx), Half(ny));
    assert b[..][..c] == b[..c];
  }

  ghost predicate TreeOverflows(pl: seq<mark>, nqx: nat, nqy: nat)
    requires IsPlane(pl, nqx, nqy)
  {
    |TreeBits(pl, nqx, nqy, Depth(nqx, nqy))| >= 8 * BufferSize(nqx, nqy)
  }

  // Add the codes of level k.
  method CopyLevel(b: array<nybble>, buf: CodeBuffer, nx: nat, ny: nat, ghost pl: seq<mark>, ghost nqx: nat,
                   ghost nqy: nat, ghost k: nat)
    returns (full: bool)
    requires HoldsLevel(b[..], pl, nqx, nqy, k) && nx == Top(nqx, k) && ny == Top(nqy, k) && b.Length > 0
    requires buf.Valid() && buf.codes == TreeBits(pl, nqx, nqy, k - 1) && buf.buffer.Length == BufferSize(nqx, nqy)
    modifies buf, buf.buffer
    ensures b[..] == old(b[..])
    ensures !full ==> buf.Valid() && buf.codes == TreeBits(pl, nqx, nqy, k)
    ensures full == (|TreeBits(pl, nqx, nqy, k)| >= 8 * BufferSize(nqx, nqy))
  {
    hide CodeBuffer.Valid;
    hide CodesBack;
    hide TreeBits;
    hide Level;
    hide Top;
    hide BufferSize;
    TreeStep(pl, nqx, nqy, k);
    assert b[..][..Cells(nx, ny)] == b[..Cells(nx, ny)];
    full := buf.BufCopy(b, nx * ny);
  }

  // Add the codes of all levels, from level 1 up, unless the buffer fills.
  method CopyLevels(b: array<nybble>, buf: CodeBuffer, nqx: nat, nqy: nat, log2n: nat, ghost pl: seq<mark>)
    returns (full: bool)
    requires IsPlane(pl, nqx, nqy) && HoldsLevel(b[..], pl, nqx, nqy, 1) && log2n == Log2Up(Larger(nqx, nqy)) &&
             b.Length > 0
    requires buf.Valid() && buf.codes == [] && buf.buffer.Length == BufferSize(nqx, nqy)
    modifies b, buf, buf.buffer
    ensures !full ==> buf.Valid() && buf.codes == TreeBits(pl, nqx, nqy, Depth(nqx, nqy))
    ensures full == TreeOverflows(pl, nqx, nqy)
  {
    hide CodeBuffer.Valid;
    hide HoldsLevel;
    hide TreeBits;
    hide BufferSize;
    hide Top;
    hide Log2Up;
    NoLevels(pl, nqx, nqy);
    TopOne(nqx);
    TopOne(nqy);
    var nx, ny := (nqx + 1) / 2, (nqy + 1) / 2;
    full := CopyLevel(b, buf, nx, ny, pl, nqx, nqy, 1);
    if full {
      TreeGrows(pl, nqx, nqy, 1, Depth(nqx, nqy));
      return;
    }
    var k := 1;
    while k < log2n
      invariant 1 <= k <= Larger(1, log2n) && HoldsLevel(b[..], pl, nqx, nqy, k) && nx == Top(nqx, k) &&
                ny == Top(nqy, k)
      invariant buf.Valid() && buf.codes == TreeBits(pl, nqx, nqy, k)
      invariant |TreeBits(pl, nqx, nqy, k)| < 8 * BufferSize(nqx, nqy)
    {
      ReduceLevel(b, nx, ny, pl, nqx, nqy, k);
      nx, ny := (nx + 1) / 2, (ny + 1) / 2;
      full := CopyLevel(b, buf, nx, ny, pl, nqx, nqy, k + 1);
      if full {
        TreeGrows(pl, nqx, nqy, k + 1, Depth(nqx, nqy));
        return;
      }
      k := k + 1;
    }
  }

  lemma FirstOfPlane(b: seq<nybble>, pl: seq<mark>, nqx: nat, nqy: nat)
    requires IsPlane(pl, nqx, nqy) && Cells(Half(nqx), Half(nqy)) <= |b|
    requires b[..Cells(Half(nqx), Half(nqy))] == Packed(pl, nqx, nqy)
    ensures HoldsLevel(b, pl, nqx, nqy, 1)
    ensures Level(pl, nqx, nqy, 1) == Packed(pl, nqx, nqy)
  {
    hide Packed;
    TopOne(nqx);
    TopOne(nqy);
  }

  method WriteBdirect(w: BitWriter, a: array<int>, off: int, n: nat, nqx: nat, nqy: nat, scratch: array<nybble>,
                      bit: nat)
    requires Fits(off, n, nqx, nqy, a.Length) && Cells(Half(nqx), Half(nqy)) <= scratch.Length && w.Valid()
    modifies scratch, w
    ensures w.Valid() &&
            w.written == old(w.written) + (Msb(0, 4) + Nybbles(Level(Plane(a[..], off, n, nqx, nqy, bit), nqx, nqy, 1)))
  {
    hide BitWriter.Valid;
    hide Msb;
    hide Nybbles;
    hide Level;
    hide Plane;
    hide Packed;
    HalfCells(nqx, nqy);
    ghost var pl := Plane(a[..], off, n, nqx, nqy, bit);
    w.OutputNybble(0);
    OneBit(a, off, n, nqx, nqy, scratch, bit);
    assert scratch[..][..Cells(Half(nqx), Half(nqy))] == scratch[..Cells(Half(nqx), Half(nqy))];
    FirstOfPlane(scratch[..], pl, nqx, nqy);
    w.OutputNnybble((nqx + 1) / 2 * ((nqy + 1) / 2), scratch);
    Associative(old(w.written), Msb(0, 4), Nybbles(Level(pl, nqx, nqy, 1)));
  }

  // One bit plane.
  method EncodePlane(w: BitWriter, a: array<int>, off: int, n: nat, nqx: nat, nqy: nat, log2n: nat,
                     scratch: array<nybble>, buf: CodeBuffer, bit: nat)
    requires Fits(off, n, nqx, nqy, a.Length) && Cells(Half(nqx), Half(nqy)) <= scratch.Length && w.Valid()
    requires log2n == Log2Up(Larger(nqx, nqy)) && buf.buffer.Length == BufferSize(nqx, nqy)
    modifies scratch, w, buf, buf.buffer
    ensures w.Valid() && w.written == old(w.written) + PlaneBits(Plane(a[..], off, n, nqx, nqy, bit), nqx, nqy)
  {
    hide BitWriter.Valid;
    hide CodeBuffer.Valid;
    hide Msb;
    hide Nybbles;
    hide TreeBits;
    hide Level;
    hide Plane;
    hide Packed;
    hide Log2Up;
    hide Huff;
    HalfCells(nqx, nqy);
    ghost var pl, before := Plane(a[..], off, n, nqx, nqy, bit), w.written;
    buf.Reset();
    OneBit(a, off, n, nqx, nqy, scratch, bit);
    assert scratch[..][..Cells(Half(nqx), Half(nqy))] == scratch[..Cells(Half(nqx), Half(nqy))];
    FirstOfPlane(scratch[..], pl, nqx, nqy);
    var full := CopyLevels(scratch, buf, nqx, nqy, log2n, pl);
    if full {
      WriteBdirect(w, a, off, n, nqx, nqy, scratch, bit);
    } else {
      w.OutputNybble(15);
      buf.WriteTo(w);
      Associative(before, Msb(15, 4), Stream(pl, nqx, nqy));
    }
  }

  lemma QuadStep(img: seq<int>, off: int, n: nat, nqx: nat, nqy: nat, nb: nat, before: bits)
    requires Fits(off, n, nqx, nqy, |img|) && nb > 0
    ensures (before + PlaneBits(Plane(img, off, n, nqx, nqy, nb - 1), nqx, nqy)) +
            QuadBits(img, off, n, nqx, nqy, nb - 1) ==
            before + QuadBits(img, off, n, nqx, nqy, nb)
  {
    hide Plane;
    hide PlaneBits;
    Associative(before, PlaneBits(Plane(img, off, n, nqx, nqy, nb - 1), nqx, nqy),
      QuadBits(img, off, n, nqx, nqy, nb - 1));
  }

  // All the bit planes of a rectangle, the top one first.
  method QtreeEncode(w: BitWriter, a: array<int>, off: int, n: nat, nqx: nat, nqy: nat, nbitplanes: nat)
    requires Fits(off, n, nqx, nqy, a.Length) && w.Valid()
    modifies w
    ensures w.Valid() && w.written == old(w.written) + QuadBits(a[..], off, n, nqx, nqy, nbitplanes)
  {
    hide BitWriter.Valid;
    hide Plane;
    hide PlaneBits;
    hide Log2Up;
    hide Fits;
    FitsPositive(off, n, nqx, nqy, a.Length);
    HalfCells(nqx, nqy);
    var log2n := Log2Up(Larger(nqx, nqy));
    var bmax := BufferSize(nqx, nqy);
    var scratch := new nybble[2 * bmax];
    var buf := new CodeBuffer(bmax);
    ghost var img, total := a[..], w.written + QuadBits(a[..], off, n, nqx, nqy, nbitplanes);
    var bit: int := nbitplanes - 1;
    while bit >= 0
      invariant -1 <= bit < nbitplanes && w.Valid() && a[..] == img
      invariant w.written + QuadBits(img, off, n, nqx, nqy, bit + 1) == total
    {
      QuadStep(img, off, n, nqx, nqy, bit + 1, w.written);
      EncodePlane(w, a, off, n, nqx, nqy, log2n, scratch, buf, bit);
      bit := bit - 1;
    }
    assert w.written + [] == w.written;
  }

  lemma FitsPositive(off: int, n: nat, nqx: nat, nqy: nat, len: nat)
    requires Fits(off, n, nqx, nqy, len)
    ensures nqx > 0 && nqy > 0
  {
  }

  // ---- decoding ----

  // The levels from the top one down to level k.
  method ExpandLevel(r: BitReader, b: array<nybble>, nx: nat, ny: nat)
    requires r.Valid() && nx > 0 && ny > 0 && Cells(nx, ny) <= b.Length && Cells(Half(nx), Half(ny)) <= b.Length
    modifies r, b
    ensures r.Valid() && r.bitsToGo <= Larger(7, old(r.bitsToGo)) && old(r.Pos()) >= 0 && r.Pos() >= 0
    ensures Reading(b[..Cells(nx, ny)], r.Pos()) ==
            ReadBack(r.infile, old(r.Pos()), Spread(old(b[..Cells(Half(nx), Half(ny))]), nx, ny))
  {
    hide BitReader.Buffered;
    hide HuffAt;
    hide Spread;
    hide Cells;
    hide Half;
    hide ReadBack;
    r.PendingBelow();
    ghost var p := r.Pos();
    QtreeCopy(b, nx, ny);
    ghost var n, marks := Cells(nx, ny), b[..Cells(nx, ny)];
    var i: int := Cells(nx, ny) - 1;
    assert b[i + 1..n] == [];
    ReadDone(r.infile, p, marks, b[..n]);
    while i >= 0
      invariant -1 <= i < n && r.Valid() && r.bitsToGo <= Larger(7, old(r.bitsToGo)) && r.Pos() >= 0
      invariant b[..i + 1] == marks[..i + 1]
      invariant ReadFrom(r.infile, p, marks, r.Pos(), i + 1, b[..n])
    {
      ghost var q, was := r.Pos(), b[..n];
      if b[i] != 0 {
        b[i] := InputHuffman(r);
      }
      assert b[..n] == was[i := b[i]];
      ReadOne(r.infile, p, marks, q, r.Pos(), i, was, b[i]);
      r.PendingBelow();
      i := i - 1;
    }
    ReadAll(r.infile, p, marks, r.Pos(), b[..n]);
  }

  // After reading the marks from i on, which are done, what is left to read starts at q.
  ghost predicate ReadFrom(s: seq<byte>, p: nat, marks: seq<int>, q: nat, i: nat, b: seq<nybble>)
  {
    i <= |marks| == |b| &&
    ReadBack(s, p, marks) == var rest := ReadBack(s, q, marks[..i]); Reading(rest.values + b[i..], rest.next)
  }

  lemma ReadDone(s: seq<byte>, p: nat, marks: seq<int>, b: seq<nybble>)
    requires |marks| == |b|
    ensures ReadFrom(s, p, marks, p, |b|, b)
  {
    hide ReadBack;
    assert marks[..|b|] == marks;
    assert ReadBack(s, p, marks).values + [] == ReadBack(s, p, marks).values;
  }

  lemma ReadAll(s: seq<byte>, p: nat, marks: seq<int>, q: nat, b: seq<nybble>)
    requires ReadFrom(s, p, marks, q, 0, b)
    ensures ReadBack(s, p, marks) == Reading(b, q)
  {
    assert marks[..0] == [];
    NothingToRead(s, q);
    assert [] + b[0..] == b;
    hide ReadBack;
  }

  lemma NothingToRead(s: seq<byte>, q: nat)
    ensures ReadBack(s, q, []) == Reading([], q)
  {
  }

  lemma ReadOne(s: seq<byte>, p: nat, marks: seq<int>, q: nat, q': nat, i: nat, b: seq<nybble>, v: nybble)
    requires ReadFrom(s, p, marks, q, i + 1, b)
    requires if marks[i] != 0 then HuffAt(s, q) == Symbol(v, q') else v == 0 && q' == q
    ensures ReadFrom(s, p, marks, q', i, b[i := v])
  {
    hide ReadBack;
    hide HuffAt;
    var front := marks[..i + 1];
    ReadStep(s, q, front, v, q');
    assert front[..i] == marks[..i];
    var rest := ReadBack(s, q', marks[..i]);
    assert (rest.values + [v]) + b[i + 1..] == rest.values + b[i := v][i..];
  }

  lemma {:induction false} TopShrinks(n: nat, k: nat)
    requires k > 0
    ensures Top(n, k) <= Half(n)
  {
    TopOne(n);
    if k > 1 {
      TopShrinks(n, k - 1);
    }
  }

  lemma LevelFits(nqx: nat, nqy: nat, k: nat)
    requires k > 0 && nqx > 0 && nqy > 0
    ensures 0 < Cells(Top(nqx, k), Top(nqy, k)) <= Cells(Half(nqx), Half(nqy))
  {
    hide Top;
    hide Half;
    TopShrinks(nqx, k);
    TopShrinks(nqy, k);
    TopNext(nqx, k);
    TopNext(nqy, k);
    ProductBelow(Top(nqx, k), Half(nqx), Top(nqy, k), Half(nqy));
  }

  lemma ProductBelow(a: nat, b: nat, c: nat, d: nat)
    requires 0 < a <= b && 0 < c <= d
    ensures 0 < a * c <= b * d
  {
  }

  // The front of the scratch array and the reader are where decoding level k leaves them.
  ghost predicate AtLevel(s: seq<byte>, p: nat, nqx: nat, nqy: nat, k: nat, b: seq<nybble>, q: int)
  {
    nqx > 0 && nqy > 0 && 0 < k <= Depth(nqx, nqy) && q >= 0 && Cells(Top(nqx, k), Top(nqy, k)) <= |b| &&
    DecodeLevel(s, p, nqx, nqy, k) == Reading(b[..Cells(Top(nqx, k), Top(nqy, k))], q)
  }

  method ExpandNext(r: BitReader, b: array<nybble>, nx: nat, ny: nat, ghost p: nat, ghost nqx: nat, ghost nqy: nat,
                    ghost k: nat)
    requires r.Valid() && r.bitsToGo <= 7 && AtLevel(r.infile, p, nqx, nqy, k + 1, b[..], r.Pos())
    requires k > 0 && nx == Top(nqx, k) && ny == Top(nqy, k) && Cells(Half(nqx), Half(nqy)) <= b.Length
    modifies r, b
    ensures r.Valid() && r.bitsToGo <= 7 && AtLevel(r.infile, p, nqx, nqy, k, b[..], r.Pos())
  {
    hide BitReader.Buffered;
    hide Depth;
    hide Top;
    hide Cells;
    hide Half;
    hide Spread;
    hide ReadBack;
    hide DecodeLevel;
    LevelFits(nqx, nqy, k);
    TopNext(nqx, k);
    TopNext(nqy, k);
    DecodeStep(r.infile, p, nqx, nqy, k);
    ghost var c, d := Cells(nx, ny), Cells(Half(nx), Half(ny));
    assert b[..][..d] == b[..d];
    ExpandLevel(r, b, nx, ny);
    assert b[..][..c] == b[..c];
  }

  // The expansions, with the sizes run back up.
  method ExpandLevels(r: BitReader, b: array<nybble>, nqx: nat, nqy: nat, log2n: nat, ghost p: nat)
    requires r.Valid() && r.bitsToGo <= 7 && nqx > 0 && nqy > 0 && log2n == Log2Up(Larger(nqx, nqy)) > 0
    requires AtLevel(r.infile, p, nqx, nqy, log2n, b[..], r.Pos()) && Cells(Half(nqx), Half(nqy)) <= b.Length
    modifies r, b
    ensures r.Valid() && r.bitsToGo <= 7 && AtLevel(r.infile, p, nqx, nqy, 1, b[..], r.Pos())
  {
    hide BitReader.Buffered;
    hide AtLevel;
    hide Top;
    hide Cells;
    hide Half;
    hide Log2Up;
    hide SizeState;
    var nx, ny, nfx, nfy, c := 1, 1, nqx, nqy, Pow2(log2n);
    StartSize(nqx, c);
    StartSize(nqy, c);
    ghost var lev := log2n;
    hide Pow2;
    for k := 1 to log2n
      invariant lev == log2n - k + 1 && c == Pow2(lev)
      invariant SizeState(nqx, nx, nfx, c) && SizeState(nqy, ny, nfy, c)
      invariant r.Valid() && r.bitsToGo <= 7 && AtLevel(r.infile, p, nqx, nqy, lev, b[..], r.Pos())
    {
      lev := lev - 1;
      PowHalves(lev);
      c := c / 2;
      nx, nfx := NextSize(nqx, nx, nfx, c);
      ny, nfy := NextSize(nqy, ny, nfy, c);
      SizeIsTop(nqx, nx, nfx, lev);
      SizeIsTop(nqy, ny, nfy, lev);
      ExpandNext(r, b, nx, ny, p, nqx, nqy, lev);
    }
  }

  lemma TopLevelRead(s: seq<byte>, p: nat, nqx: nat, nqy: nat, b: seq<nybble>, q: int)
    requires nqx > 0 && nqy > 0 && |b| > 0 && q >= 0 && HuffAt(s, p) == Symbol(b[0], q)
    ensures AtLevel(s, p, nqx, nqy, Depth(nqx, nqy), b, q)
  {
    hide HuffAt;
    hide Depth;
    hide Top;
    DepthEndsAtOne(nqx, nqy);
    assert b[..1] == [b[0]];
  }

  // The quadtree of one plane.
  method DecodeTree(r: BitReader, b: array<nybble>, nqx: nat, nqy: nat, log2n: nat)
    requires r.Valid() && r.bitsToGo <= 7 && nqx > 0 && nqy > 0 && log2n == Log2Up(Larger(nqx, nqy))
    requires Cells(Half(nqx), Half(nqy)) <= b.Length
    modifies r, b
    ensures r.Valid() && r.bitsToGo <= 7 && old(r.Pos()) >= 0 &&
            AtLevel(r.infile, old(r.Pos()), nqx, nqy, 1, b[..], r.Pos())
  {
    hide BitReader.Buffered;
    hide AtLevel;
    hide HuffAt;
    hide Log2Up;
    hide Cells;
    hide Half;
    HalfCells(nqx, nqy);
    ghost var p := r.Pos();
    b[0] := InputHuffman(r);
    r.PendingBelow();
    TopLevelRead(r.infile, p, nqx, nqy, b[..], r.Pos());
    if log2n > 0 {
      ExpandLevels(r, b, nqx, nqy, log2n, p);
    }
  }

  lemma TreePlane(s: seq<byte>, p: nat, nqx: nat, nqy: nat, b: seq<nybble>, q: int)
    requires AtLevel(s, p + 4, nqx, nqy, 1, b, q) && NybbleAt(s, p) == 15
    ensures q >= 0 && Cells(Half(nqx), Half(nqy)) <= |b|
    ensures DecodePlane(s, p, nqx, nqy) == GoodPlane(b[..Cells(Half(nqx), Half(nqy))], q)
  {
    hide NybbleAt;
    hide DecodeLevel;
    hide Depth;
    hide Cells;
    hide Top;
    hide Half;
    TopOne(nqx);
    TopOne(nqy);
  }

  lemma DirectPlane(s: seq<byte>, p: nat, nqx: nat, nqy: nat, b: seq<nybble>, c: nat)
    requires nqx > 0 && nqy > 0 && NybbleAt(s, p) == 0 && c == Cells(Half(nqx), Half(nqy)) <= |b|
    requires forall k :: 0 <= k < c ==> b[k] == BitsAt(s, p + 4 + 4 * k, 4)
    ensures DecodePlane(s, p, nqx, nqy) == GoodPlane(b[..c], p + 4 + 4 * c)
  {
    hide BitsAt;
    hide Cells;
    hide Half;
    assert b[..c] == NybblesAt(s, p + 4, c);
  }

  // One plane's nybbles into the front of b; false means a bad format code.
  method InputPlane(r: BitReader, b: array<nybble>, nqx: nat, nqy: nat, log2n: nat) returns (ok: bool)
    requires r.Valid() && r.bitsToGo <= 7 && nqx > 0 && nqy > 0 && log2n == Log2Up(Larger(nqx, nqy))
    requires Cells(Half(nqx), Half(nqy)) <= b.Length
    modifies r, b
    ensures r.Valid() && r.bitsToGo <= 7 && old(r.Pos()) >= 0 && r.Pos() >= 0
    ensures DecodePlane(r.infile, old(r.Pos()), nqx, nqy) ==
            if ok then GoodPlane(b[..Cells(Half(nqx), Half(nqy))], r.Pos()) else BadPlane
  {
    hide BitReader.Buffered;
    hide BitsAt;
    hide AtLevel;
    hide Log2Up;
    hide Cells;
    HalfCells(nqx, nqy);
    ghost var p, c := r.Pos(), Cells(Half(nqx), Half(nqy));
    var f := r.InputNybble();
    if f == 0 {
      r.InputNnybble(Cells((nqx + 1) / 2, (nqy + 1) / 2), b);
      DirectPlane(r.infile, p, nqx, nqy, b[..], c);
      assert b[..][..c] == b[..c];
      ok := true;
    } else if f != 15 {
      r.PendingBelow();
      ok := false;
    } else {
      DecodeTree(r, b, nqx, nqy, log2n);
      TreePlane(r.infile, p, nqx, nqy, b[..], r.Pos());
      assert b[..][..c] == b[..c];
      ok := true;
    }
  }

  datatype QuadResult = BadQuad | GoodQuad(img: seq<int>, next: nat)

  // Planes nb - 1 down to 0, set one by one in the rectangle of img.
  ghost function DecodeQuad(s: seq<byte>, p: nat, img: seq<int>, off: int, n: nat, nqx: nat, nqy: nat, nb: nat)
    : (r: QuadResult)
    requires Fits(off, n, nqx, nqy, |img|)
    ensures r.GoodQuad? ==> |r.img| == |img|
    decreases nb
  {
    if nb == 0 then GoodQuad(img, p) else
    var pr := DecodePlane(s, p, nqx, nqy);
    if pr.BadPlane? then BadQuad else
    DecodeQuad(s, pr.next, Inserted(img, Spread(pr.values, nqx, nqy), off, n, nqx, nqy, nb - 1), off, n, nqx, nqy,
      nb - 1)
  }

  // Decode the bit planes of a rectangle; false means a bad format code.
  method QtreeDecode(r: BitReader, a: array<int>, off: int, n: nat, nqx: nat, nqy: nat, nbitplanes: nat)
    returns (ok: bool)
    requires r.Valid() && r.bitsToGo <= 7 && Fits(off, n, nqx, nqy, a.Length)
    modifies r, a
    ensures r.Valid() && r.bitsToGo <= 7 && old(r.Pos()) >= 0
    ensures ok == DecodeQuad(r.infile, old(r.Pos()), old(a[..]), off, n, nqx, nqy, nbitplanes).GoodQuad?
    ensures ok ==>
            r.Pos() >= 0 &&
              DecodeQuad(r.infile, old(r.Pos()), old(a[..]), off, n, nqx, nqy, nbitplanes) == GoodQuad(a[..], r.Pos())
  {
    hide BitReader.Buffered;
    hide DecodePlane;
    hide Inserted;
    hide Spread;
    hide Log2Up;
    hide Cells;
    hide Half;
    hide Fits;
    FitsPositive(off, n, nqx, nqy, a.Length);
    HalfCells(nqx, nqy);
    r.PendingBelow();
    var log2n := Log2Up(Larger(nqx, nqy));
    var scratch := new nybble[Cells(Half(nqx), Half(nqy))];
    ghost var result := DecodeQuad(r.infile, r.Pos(), a[..], off, n, nqx, nqy, nbitplanes);
    var bit: int := nbitplanes - 1;
    while bit >= 0
      invariant -1 <= bit < nbitplanes && r.Valid() && r.bitsToGo <= 7 && r.Pos() >= 0
      invariant DecodeQuad(r.infile, r.Pos(), a[..], off, n, nqx, nqy, bit + 1) == result
    {
      ok := InputPlane(r, scratch, nqx, nqy, log2n);
      if !ok {
        return;
      }
      BitIns(scratch, nqx, nqy, a, off, n, bit);
      bit := bit - 1;
    }
    ok := true;
  }
}
