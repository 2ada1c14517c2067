/** How long an H-compressed stream can get: planes never take much more than their bit maps. */
module HLength {
  import opened Powers
  import opened Bits
  import opened Grids
  import opened HStream
  import opened HBitIO
  import opened HHuffman
  import opened HTransform
  import opened HPlanes
  import opened HScratch
  import opened HQtree
  import opened HBody
  import opened HSigns
  import opened HCoder
  import opened HRoundTrip

  // The most bits that a plane takes: the format code, its bit map, and up to three bits more when the last byte of the
  // buffer of codes is half used.
  function PlaneBound(nqx: nat, nqy: nat): nat
  {
    var c := Cells(Half(nqx), Half(nqy));
    4 + 4 * c + if c % 2 == 1 then 3 else 0
  }

  // A plane takes no more than its quadtree, and hardly more than its bit map.
  lemma PlaneLength(pl: seq<mark>, nqx: nat, nqy: nat)
    requires IsPlane(pl, nqx, nqy)
    ensures var c := Cells(Half(nqx), Half(nqy));
            |PlaneBits(pl, nqx, nqy)| <= 4 + 4 * c + if c % 2 == 1 then 3 else 0
    ensures |PlaneBits(pl, nqx, nqy)| <= 4 + |Stream(pl, nqx, nqy)|
  {
    hide Level;
    hide TreeBits;
    hide Depth;
    hide Nybbles;
    hide Msb;
    hide Top;
    hide Cells;
    hide Half;
    TopOne(nqx);
    TopOne(nqy);
    SomeCells(nqx, nqy);
  }

  // A plane goes out as its bit map exactly if its codes take at least as many bits as the bit map does in whole bytes.
  lemma FormatChoice(pl: seq<mark>, nqx: nat, nqy: nat)
    requires IsPlane(pl, nqx, nqy)
    ensures var c := Cells(Half(nqx), Half(nqy));
            |PlaneBits(pl, nqx, nqy)| >= 4 &&
            (PlaneBits(pl, nqx, nqy)[..4] == Msb(0, 4) <==>
             |TreeBits(pl, nqx, nqy, Depth(nqx, nqy))| >= 4 * (c + c % 2))
  {
    hide Level;
    hide TreeBits;
    hide Stream;
    hide Depth;
    hide Nybbles;
    hide Msb;
    hide Top;
    hide Cells;
    hide Half;
    FormatCodes();
    var t := |TreeBits(pl, nqx, nqy, Depth(nqx, nqy))|;
    if t >= 8 * BufferSize(nqx, nqy) {
      Prefix(Msb(0, 4), Nybbles(Level(pl, nqx, nqy, 1)));
    } else {
      Prefix(Msb(15, 4), Stream(pl, nqx, nqy));
    }
  }

  lemma FormatCodes()
    ensures Msb(0, 4) != Msb(15, 4)
  {
    assert Msb(15, 4)[3] && !Msb(0, 4)[3];
  }

  lemma Prefix(s: bits, t: bits)
    ensures (s + t)[..|s|] == s
  {
  }

  lemma SomeCells(nqx: nat, nqy: nat)
    requires nqx > 0 && nqy > 0
    ensures Cells(Half(nqx), Half(nqy)) > 0
  {
    MulMonotone(1, Half(nqx), Half(nqy));
  }

  lemma {:induction false} QuadLength(img: seq<int>, off: int, n: nat, nqx: nat, nqy: nat, nb: nat)
    requires Fits(off, n, nqx, nqy, |img|)
    ensures |QuadBits(img, off, n, nqx, nqy, nb)| <= nb * PlaneBound(nqx, nqy)
  {
    hide PlaneBits;
    hide Plane;
    hide PlaneBound;
    FitsPositive(off, n, nqx, nqy, |img|);
    if nb > 0 {
      PlaneBounded(Plane(img, off, n, nqx, nqy, nb - 1), nqx, nqy);
      QuadLength(img, off, n, nqx, nqy, nb - 1);
      OneMore(nb, PlaneBound(nqx, nqy));
    }
  }

  lemma PlaneBounded(pl: seq<mark>, nqx: nat, nqy: nat)
    requires IsPlane(pl, nqx, nqy)
    ensures |PlaneBits(pl, nqx, nqy)| <= PlaneBound(nqx, nqy)
  {
    hide PlaneBits;
    PlaneLength(pl, nqx, nqy);
  }

  lemma OneMore(n: nat, x: nat)
    requires n > 0
    ensures n * x == (n - 1) * x + x
  {
  }

  function PlanesBound(n: nat, nqx: nat, nqy: nat): nat
  {
    hide PlaneBound;
    ProductNotNegative(n, PlaneBound(nqx, nqy));
    n * PlaneBound(nqx, nqy)
  }

  // The bits of the quadrants from q on, and of the end mark.
  function BodyBound(nx: nat, ny: nat, nb: PlaneCounts, q: nat): nat
    requires q <= 4
    decreases 4 - q
  {
    if q == 4 then 4 else
    var r := Quadrant(nx, ny, q);
    PlanesBound(CountOf(nb, q), r.nqx, r.nqy) + BodyBound(nx, ny, nb, q + 1)
  }

  lemma {:induction false} BodyLength(img: seq<int>, nx: nat, ny: nat, nb: PlaneCounts, q: nat)
    requires IsImage(img, nx, ny) && q <= 4
    ensures |BodyFrom(img, nx, ny, nb, q)| <= BodyBound(nx, ny, nb, q)
    decreases 4 - q
  {
    hide QuadBits;
    hide PlaneBound;
    if q < 4 {
      var r := Quadrant(nx, ny, q);
      QuadrantFits(nx, ny, q, |img|);
      QuadLength(img, r.off, ny, r.nqx, r.nqy, CountOf(nb, q));
      BodyLength(img, nx, ny, nb, q + 1);
    }
  }

  // The bytes of a stream: header, body, and a sign bit for every pixel.
  function StreamBound(nx: nat, ny: nat, nb: PlaneCounts): nat
  {
    25 + (BodyBound(nx, ny, nb, 0) + 7) / 8 + (nx * ny + 7) / 8
  }

  // Encoding succeeds in every buffer that is larger than the bound.
  lemma StreamLength(out: seq<byte>, orig: seq<int>, nx: nat, ny: nat, scale: int)
    requires IsImage(orig, nx, ny) && |orig| == nx * ny && |orig| > 0 && Encodes(out, orig, nx, ny, scale)
    ensures |out| <= StreamBound(nx, ny, Counts(Coded(orig), nx, ny))
  {
    hide Counts;
    hide BodyFrom;
    hide BodyBound;
    hide Unpack;
    hide SignBits;
    BodyLength(Coded(orig), nx, ny, Counts(Coded(orig), nx, ny), 0);
  }

  // The same in terms of how large the coefficients are.
  lemma {:induction false} BodyBoundGrows(nx: nat, ny: nat, a: PlaneCounts, b: PlaneCounts, q: nat)
    requires q <= 4 && a.nb0 <= b.nb0 && a.nb1 <= b.nb1 && a.nb2 <= b.nb2
    ensures BodyBound(nx, ny, a, q) <= BodyBound(nx, ny, b, q)
    decreases 4 - q
  {
    hide PlaneBound;
    if q < 4 {
      var r := Quadrant(nx, ny, q);
      MulMonotone(CountOf(a, q), CountOf(b, q), PlaneBound(r.nqx, r.nqy));
      BodyBoundGrows(nx, ny, a, b, q + 1);
    }
  }

  lemma CountsBelow(mags: seq<int>, nx: nat, ny: nat, b: nat)
    requires nx * ny == |mags| && ny > 0 && forall x :: 0 <= x < |mags| ==> mags[x] < Pow2(b)
    ensures var nb := Counts(mags, nx, ny); nb.nb0 <= b && nb.nb1 <= b && nb.nb2 <= b
  {
    hide MaxOf;
    hide BitLength;
    hide Pow2;
    var n := Cells(nx, ny);
    MaxBelow(mags, n, nx, ny, 0, Pow2(b));
    MaxBelow(mags, n, nx, ny, 1, Pow2(b));
    MaxBelow(mags, n, nx, ny, 2, Pow2(b));
    BitLengthBelow(MaxOf(mags, n, nx, ny, 0), b);
    BitLengthBelow(MaxOf(mags, n, nx, ny, 1), b);
    BitLengthBelow(MaxOf(mags, n, nx, ny, 2), b);
  }

  // With magnitudes of b bits, a buffer larger than the bound for b planes is always large enough.
  lemma LengthForBits(out: seq<byte>, orig: seq<int>, nx: nat, ny: nat, scale: int, b: nat)
    requires IsImage(orig, nx, ny) && |orig| == nx * ny && |orig| > 0 && Encodes(out, orig, nx, ny, scale)
    requires forall x :: 0 < x < |orig| ==> -(Pow2(b) as int) < orig[x] < Pow2(b)
    ensures |out| <= StreamBound(nx, ny, PlaneCounts(b, b, b))
  {
    hide Encodes;
    hide BodyBound;
    hide Counts;
    hide Pow2;
    var mags := Coded(orig);
    assert forall x :: 0 <= x < |mags| ==> mags[x] < Pow2(b);
    StreamLength(out, orig, nx, ny, scale);
    CountsBelow(mags, nx, ny, b);
    BodyBoundGrows(nx, ny, Counts(mags, nx, ny), PlaneCounts(b, b, b), 0);
  }
}
