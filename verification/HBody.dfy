/** The four quadrants of an image and the body of the code stream. */
module HBody {
  import opened Powers
  import opened Bits
  import opened Grids
  import opened HStream
  import opened HBitIO
  import opened HPlanes
  import opened HScratch
  import opened HQtree
  import opened HQuadrants

  // ---- the quadrants ----

  datatype Rect = Rect(off: nat, nqx: nat, nqy: nat)

  // Quadrants 0 and 1 hold the upper rows, 0 and 2 the left columns.
  function Quadrant(nx: nat, ny: nat, q: nat): Rect
  {
    var nx2, ny2 := Half(nx), Half(ny);
    Rect((if q >= 2 then ny * nx2 else 0) + (if q % 2 == 1 then ny2 else 0),
         if q >= 2 then nx / 2 else nx2, if q % 2 == 1 then ny / 2 else ny2)
  }

  lemma Offsets(nx: nat, ny: nat)
    ensures Quadrant(nx, ny, 0) == Rect(0, Half(nx), Half(ny)) &&
            Quadrant(nx, ny, 1) == Rect(Half(ny), Half(nx), ny / 2)
    ensures ny * Half(nx) >= 0
    ensures Quadrant(nx, ny, 2) == Rect(ny * Half(nx), nx / 2, Half(ny))
    ensures Quadrant(nx, ny, 3) == Rect(ny * Half(nx) + Half(ny), nx / 2, ny / 2)
  {
  }

  // Every quadrant has pixels exactly if the image has at least two rows and two columns.
  lemma NoneEmpty(nx: nat, ny: nat)
    requires nx > 0 && ny > 0
    ensures (forall q :: 0 <= q < 4 ==> Quadrant(nx, ny, q).nqx > 0 && Quadrant(nx, ny, q).nqy > 0) <==>
            nx >= 2 && ny >= 2
  {
    Offsets(nx, ny);
    assert Quadrant(nx, ny, 1).nqy == ny / 2 && Quadrant(nx, ny, 2).nqx == nx / 2;
  }

  lemma QuadrantFits(nx: nat, ny: nat, q: nat, len: nat)
    requires nx >= 2 && ny >= 2 && q < 4 && nx * ny <= len
    ensures var r := Quadrant(nx, ny, q); Fits(r.off, ny, r.nqx, r.nqy, len)
  {
    var r := Quadrant(nx, ny, q);
    var top := if q >= 2 then Half(nx) else 0;
    assert r.off == ny * top + (if q % 2 == 1 then Half(ny) else 0);
    LastRow(ny, top, r.nqx, nx);
  }

  lemma LastRow(ny: nat, top: nat, rows: nat, nx: nat)
    requires top + rows <= nx && rows > 0
    ensures ny * top + ny * (rows - 1) + ny <= nx * ny
  {
    MulMonotone(top + rows, nx, ny);
    assert (top + rows) * ny == ny * top + ny * (rows - 1) + ny;
  }

  // The quadrant of a place.
  function QuadOf(x: nat, nx: nat, ny: nat): (q: nat)
    requires ny > 0
    ensures q < 4
  {
    (if x / ny >= Half(nx) then 2 else 0) + (if x % ny >= Half(ny) then 1 else 0)
  }

  lemma SplitPlace(x: nat, i: nat, j: nat, top: nat, left: nat, ny: nat)
    requires x == i * ny + j && j < ny && left < ny
    ensures var off := ny * top + left;
            if j >= left then Row(x, off, ny) == i - top && Col(x, off, ny) == j - left
            else Row(x, off, ny) == i - top - 1 && Col(x, off, ny) == ny + j - left
  {
    var off := ny * top + left;
    assert x - off == ny * (i - top) + (j - left);
    if j >= left {
      QuotientUnique(x - off, ny, i - top, j - left);
    } else {
      assert ny * (i - top) == ny * (i - top - 1) + ny;
      QuotientUnique(x - off, ny, i - top - 1, ny + j - left);
    }
  }

  lemma InsideImage(x: nat, nx: nat, ny: nat)
    requires ny > 0
    ensures x / ny < nx <==> x < nx * ny
  {
    MulMonotone(nx, x / ny, ny);
    MulMonotone(x / ny + 1, nx, ny);
  }

  // The quadrants do not overlap and together they are the image.
  lemma InQuadrant(nx: nat, ny: nat, q: nat, x: nat)
    requires nx >= 2 && ny >= 2 && q < 4
    ensures var r := Quadrant(nx, ny, q);
            InRect(x, r.off, ny, r.nqx, r.nqy) == (x < nx * ny && QuadOf(x, nx, ny) == q)
  {
    hide Row;
    hide Col;
    hide Half;
    hide Quadrant;
    var i, j := x / ny, x % ny;
    var top, left := if q >= 2 then Half(nx) else 0, if q % 2 == 1 then Half(ny) else 0;
    QuadrantIs(nx, ny, q, top, left);
    SplitPlace(x, i, j, top, left, ny);
    InsideImage(x, nx, ny);
  }

  lemma QuadrantIs(nx: nat, ny: nat, q: nat, top: nat, left: nat)
    requires nx >= 2 && ny >= 2 && q < 4 && top == (if q >= 2 then Half(nx) else 0) &&
             left == (if q % 2 == 1 then Half(ny) else 0)
    ensures var r := Quadrant(nx, ny, q);
            r.off == ny * top + left && r.nqx == (if q >= 2 then nx - Half(nx) else Half(nx)) &&
            r.nqy == if q % 2 == 1 then ny - Half(ny) else Half(ny)
    ensures Half(nx) < nx && Half(ny) < ny
  {
  }

  // ---- the body ----

  // How many bit planes each quadrant has.
  datatype PlaneCounts = PlaneCounts(nb0: nat, nb1: nat, nb2: nat)

  function CountOf(nb: PlaneCounts, q: nat): nat
  {
    if q == 0 then nb.nb0 else if q < 3 then nb.nb1 else nb.nb2
  }

  ghost predicate IsImage(img: seq<int>, nx: nat, ny: nat)
  {
    nx >= 2 && ny >= 2 && nx * ny <= |img|
  }

  ghost function QuadrantBits(img: seq<int>, nx: nat, ny: nat, nb: PlaneCounts, q: nat): bits
    requires IsImage(img, nx, ny) && q < 4
  {
    QuadrantFits(nx, ny, q, |img|);
    var r := Quadrant(nx, ny, q);
    QuadBits(img, r.off, ny, r.nqx, r.nqy, CountOf(nb, q))
  }

  // Quadrants q to 3 and the zero nybble that ends the body.
  ghost function BodyFrom(img: seq<int>, nx: nat, ny: nat, nb: PlaneCounts, q: nat): bits
    requires IsImage(img, nx, ny) && q <= 4
    decreases 4 - q
  {
    if q == 4 then Msb(0, 4) else QuadrantBits(img, nx, ny, nb, q) + BodyFrom(img, nx, ny, nb, q + 1)
  }

  lemma AppendQuadrant(img: seq<int>, nx: nat, ny: nat, nb: PlaneCounts, q: nat, before: bits)
    requires IsImage(img, nx, ny) && q < 4
    ensures (before + QuadrantBits(img, nx, ny, nb, q)) + BodyFrom(img, nx, ny, nb, q + 1) ==
            before + BodyFrom(img, nx, ny, nb, q)
  {
    hide QuadrantBits;
    Associative(before, QuadrantBits(img, nx, ny, nb, q), BodyFrom(img, nx, ny, nb, q + 1));
  }

  method EncodeQuadrant(w: BitWriter, a: array<int>, off: nat, nx: nat, ny: nat, nqx: nat, nqy: nat, count: nat,
                        ghost nb: PlaneCounts, ghost q: nat, ghost total: bits)
    requires IsImage(a[..], nx, ny) && q < 4 && Rect(off, nqx, nqy) == Quadrant(nx, ny, q) && count == CountOf(nb, q)
    requires w.Valid() && w.written + BodyFrom(a[..], nx, ny, nb, q) == total
    modifies w
    ensures w.Valid() && w.written + BodyFrom(a[..], nx, ny, nb, q + 1) == total
  {
    hide BitWriter.Valid;
    hide QuadBits;
    hide BodyFrom;
    hide Fits;
    QuadrantFits(nx, ny, q, a.Length);
    AppendQuadrant(a[..], nx, ny, nb, q, w.written);
    QtreeEncode(w, a, off, ny, nqx, nqy, count);
  }

  // The quadrants one by one, and the end mark, padded to a whole byte.
  method DoEncode(w: BitWriter, a: array<int>, nx: nat, ny: nat, nb: PlaneCounts)
    requires IsImage(a[..], nx, ny) && w.Valid()
    modifies w
    ensures Packs(w.out, old(w.written) + BodyFrom(a[..], nx, ny, nb, 0))
  {
    hide BitWriter.Valid;
    hide BodyFrom;
    hide Half;
    hide Quadrant;
    hide IsImage;
    Offsets(nx, ny);
    hide Msb;
    hide Packs;
    var nx2, ny2 := Half(nx), Half(ny);
    ghost var total := w.written + BodyFrom(a[..], nx, ny, nb, 0);
    EncodeQuadrant(w, a, 0, nx, ny, nx2, ny2, nb.nb0, nb, 0, total);
    EncodeQuadrant(w, a, ny2, nx, ny, nx2, ny / 2, nb.nb1, nb, 1, total);
    EncodeQuadrant(w, a, ny * nx2, nx, ny, nx / 2, ny2, nb.nb1, nb, 2, total);
    EncodeQuadrant(w, a, ny * nx2 + ny2, nx, ny, nx / 2, ny / 2, nb.nb2, nb, 3, total);
    BodyEnd(a[..], nx, ny, nb);
    w.OutputNybble(0);
    w.Done();
  }

  lemma BodyEnd(img: seq<int>, nx: nat, ny: nat, nb: PlaneCounts)
    requires IsImage(img, nx, ny)
    ensures BodyFrom(img, nx, ny, nb, 4) == Msb(0, 4)
  {
  }

  // ---- decoding ----

  ghost function DecodeQuadrant(s: seq<byte>, p: nat, img: seq<int>, nx: nat, ny: nat, nb: PlaneCounts, q: nat)
    : (r: QuadResult)
    requires IsImage(img, nx, ny) && q < 4
    ensures r.GoodQuad? ==> |r.img| == |img|
  {
    QuadrantFits(nx, ny, q, |img|);
    var r := Quadrant(nx, ny, q);
    DecodeQuad(s, p, img, r.off, ny, r.nqx, r.nqy, CountOf(nb, q))
  }

  ghost function DecodeFrom(s: seq<byte>, p: nat, img: seq<int>, nx: nat, ny: nat, nb: PlaneCounts, q: nat)
    : (r: QuadResult)
    requires IsImage(img, nx, ny) && q <= 4
    ensures r.GoodQuad? ==> |r.img| == |img|
    decreases 4 - q
  {
    if q == 4 then if NybbleAt(s, p) == 0 then GoodQuad(img, p + 4) else BadQuad
    else
      var r := DecodeQuadrant(s, p, img, nx, ny, nb, q);
      if r.BadQuad? then BadQuad else DecodeFrom(s, r.next, r.img, nx, ny, nb, q + 1)
  }

  // One quadrant; result is what the whole body decodes to.
  method InputQuadrant(r: BitReader, a: array<int>, off: nat, nx: nat, ny: nat, nqx: nat, nqy: nat, count: nat,
                       ghost nb: PlaneCounts, ghost q: nat, ghost result: QuadResult)
    returns (ok: bool)
    requires IsImage(a[..], nx, ny) && q < 4 && Rect(off, nqx, nqy) == Quadrant(nx, ny, q) && count == CountOf(nb, q)
    requires r.Valid() && r.bitsToGo <= 7 && r.Pos() >= 0 &&
             DecodeFrom(r.infile, r.Pos(), a[..], nx, ny, nb, q) == result
    modifies r, a
    ensures r.Valid() && r.bitsToGo <= 7
    ensures !ok ==> result == BadQuad
    ensures IsImage(a[..], nx, ny)
    ensures ok ==> r.Pos() >= 0 && DecodeFrom(r.infile, r.Pos(), a[..], nx, ny, nb, q + 1) == result
  {
    hide BitReader.Buffered;
    hide DecodeQuad;
    hide NybbleAt;
    hide Fits;
    QuadrantFits(nx, ny, q, a.Length);
    ok := QtreeDecode(r, a, off, ny, nqx, nqy, count);
  }

  method InputQuadrants(r: BitReader, a: array<int>, nx: nat, ny: nat, nb: PlaneCounts) returns (ok: bool)
    requires IsImage(a[..], nx, ny) && r.Valid() && r.bitsToGo <= 7
    modifies r, a
    ensures r.Valid() && r.bitsToGo <= 7 && old(r.Pos()) >= 0
    ensures ok == DecodeFrom(r.infile, old(r.Pos()), old(a[..]), nx, ny, nb, 0).GoodQuad?
    ensures ok ==>
            r.Pos() >= 0 && DecodeFrom(r.infile, old(r.Pos()), old(a[..]), nx, ny, nb, 0) == GoodQuad(a[..], r.Pos())
  {
    hide BitReader.Buffered;
    hide DecodeFrom;
    hide BitsAt;
    hide Half;
    hide Quadrant;
    hide IsImage;
    Offsets(nx, ny);
    r.PendingBelow();
    var nx2, ny2 := Half(nx), Half(ny);
    ghost var result := DecodeFrom(r.infile, r.Pos(), a[..], nx, ny, nb, 0);
    ok := InputQuadrant(r, a, 0, nx, ny, nx2, ny2, nb.nb0, nb, 0, result);
    if !ok { return; }
    ok := InputQuadrant(r, a, ny2, nx, ny, nx2, ny / 2, nb.nb1, nb, 1, result);
    if !ok { return; }
    ok := InputQuadrant(r, a, ny * nx2, nx, ny, nx / 2, ny2, nb.nb1, nb, 2, result);
    if !ok { return; }
    ok := InputQuadrant(r, a, ny * nx2 + ny2, nx, ny, nx / 2, ny / 2, nb.nb2, nb, 3, result);
    if !ok { return; }
    var eof := r.InputNybble();
    DecodeEnd(r.infile, r.Pos() - 4, a[..], nx, ny, nb, eof);
    ok := eof == 0;
  }

  lemma DecodeEnd(s: seq<byte>, p: int, img: seq<int>, nx: nat, ny: nat, nb: PlaneCounts, v: nybble)
    requires IsImage(img, nx, ny) && p >= 0 && v == BitsAt(s, p, 4)
    ensures DecodeFrom(s, p, img, nx, ny, nb, 4) == if v == 0 then GoodQuad(img, p + 4) else BadQuad
  {
    hide BitsAt;
  }

  // ---- the round trip of the body ----

  // Quadrants below q are those of orig, the others are still zero.
  ghost predicate DecodedUpTo(img: seq<int>, orig: seq<int>, nx: nat, ny: nat, q: nat)
  {
    |img| == |orig| && ny > 0 &&
    forall x {:trigger img[x]} :: 0 <= x < |img| ==>
      img[x] == if x < nx * ny && QuadOf(x, nx, ny) >= q then 0 else orig[x]
  }

  // Every magnitude fits the bit planes of its quadrant.
  ghost predicate CountsSuffice(img: seq<int>, nx: nat, ny: nat, nb: PlaneCounts)
  {
    IsImage(img, nx, ny) &&
    forall x {:trigger img[x]} :: 0 <= x < nx * ny ==> 0 <= img[x] < Pow2(CountOf(nb, QuadOf(x, nx, ny)))
  }

  lemma HighOfSmall(v: int, nb: nat)
    requires 0 <= v < Pow2(nb)
    ensures High(v, nb) == 0
  {
    QuotientUnique(v, Pow2(nb), 0, v);
  }

  lemma QuadrantUnread(img: seq<int>, orig: seq<int>, nx: nat, ny: nat, nb: PlaneCounts, q: nat)
    requires DecodedUpTo(img, orig, nx, ny, q) && CountsSuffice(orig, nx, ny, nb) && q < 4
    ensures var r := Quadrant(nx, ny, q); ReadDownTo(img, orig, r.off, ny, r.nqx, r.nqy, CountOf(nb, q))
  {
    hide InRect;
    hide QuadOf;
    hide Quadrant;
    hide High;
    var r := Quadrant(nx, ny, q);
    forall x | 0 <= x < |img| && InRect(x, r.off, ny, r.nqx, r.nqy)
      ensures img[x] == High(orig[x], CountOf(nb, q))
    {
      InQuadrant(nx, ny, q, x);
      HighOfSmall(orig[x], CountOf(nb, q));
    }
  }

  lemma QuadrantRead(img: seq<int>, orig: seq<int>, nx: nat, ny: nat, q: nat)
    requires IsImage(orig, nx, ny) && DecodedUpTo(img, orig, nx, ny, q) && q < 4
    ensures var r := Quadrant(nx, ny, q); DecodedUpTo(Merged(img, orig, r.off, ny, r.nqx, r.nqy), orig, nx, ny, q + 1)
  {
    hide InRect;
    hide QuadOf;
    hide Quadrant;
    var r := Quadrant(nx, ny, q);
    var next := Merged(img, orig, r.off, ny, r.nqx, r.nqy);
    forall x | 0 <= x < |img|
      ensures next[x] == if x < nx * ny && QuadOf(x, nx, ny) >= q + 1 then 0 else orig[x]
    {
      InQuadrant(nx, ny, q, x);
    }
  }

  lemma QuadrantRoundTrip(s: seq<byte>, p: nat, img: seq<int>, orig: seq<int>, nx: nat, ny: nat, nb: PlaneCounts,
                          q: nat)
    requires DecodedUpTo(img, orig, nx, ny, q) && CountsSuffice(orig, nx, ny, nb) && q < 4
    requires At(s, p, QuadrantBits(orig, nx, ny, nb, q))
    ensures |img| == |orig|
    ensures var d := DecodeQuadrant(s, p, img, nx, ny, nb, q);
            d.GoodQuad? && DecodedUpTo(d.img, orig, nx, ny, q + 1) && d.next == p + |QuadrantBits(orig, nx, ny, nb, q)|
  {
    hide At;
    hide Fits;
    hide Quadrant;
    hide Merged;
    hide ReadDownTo;
    hide QuadBits;
    hide DecodeQuad;
    hide QuadOf;
    QuadrantFits(nx, ny, q, |img|);
    QuadrantUnread(img, orig, nx, ny, nb, q);
    QuadrantRead(img, orig, nx, ny, q);
    var r := Quadrant(nx, ny, q);
    QuadRoundTrip(s, p, img, orig, r.off, ny, r.nqx, r.nqy, CountOf(nb, q));
  }

  lemma AllDecoded(img: seq<int>, orig: seq<int>, nx: nat, ny: nat)
    requires DecodedUpTo(img, orig, nx, ny, 4)
    ensures img == orig
  {
    hide QuadOf;
  }

  // From zeros, decoding what the quadrants were coded to restores them all.
  lemma {:induction false} BodyRoundTrip(s: seq<byte>, p: nat, img: seq<int>, orig: seq<int>, nx: nat, ny: nat,
                                         nb: PlaneCounts, q: nat)
    requires DecodedUpTo(img, orig, nx, ny, q) && CountsSuffice(orig, nx, ny, nb) && q <= 4
    requires At(s, p, BodyFrom(orig, nx, ny, nb, q))
    ensures |img| == |orig|
    ensures DecodeFrom(s, p, img, nx, ny, nb, q) == GoodQuad(orig, p + |BodyFrom(orig, nx, ny, nb, q)|)
    decreases 4 - q
  {
    hide At;
    hide Msb;
    hide NybbleAt;
    hide QuadrantBits;
    hide DecodeQuadrant;
    hide QuadOf;
    if q == 4 {
      AllDecoded(img, orig, nx, ny);
      NybbleThere(s, p, 0);
    } else {
      AtSplit(s, p, QuadrantBits(orig, nx, ny, nb, q), BodyFrom(orig, nx, ny, nb, q + 1));
      QuadrantRoundTrip(s, p, img, orig, nx, ny, nb, q);
      var d := DecodeQuadrant(s, p, img, nx, ny, nb, q);
      BodyRoundTrip(s, d.next, d.img, orig, nx, ny, nb, q + 1);
    }
  }
}
