/** Decoding the coded bit planes of a rectangle restores it, and leaves the image around it alone. */
module HQuadrants {
  import opened Powers
  import opened Bits
  import opened Grids
  import opened HStream
  import opened HPlanes
  import opened HScratch
  import opened HInsert
  import opened HQtree

  // ---- bit by bit ----

  // v without its low nb bits.
  function High(v: int, nb: nat): int
  {
    v / Pow2(nb) * Pow2(nb)
  }

  lemma HighSplits(v: int, nb: nat)
    requires nb > 0
    ensures High(v, nb - 1) == High(v, nb) + Bit(v, nb - 1) * Pow2(nb - 1)
    ensures Bit(High(v, nb), nb - 1) == 0
  {
    var p := Pow2(nb - 1);
    DivDiv(v, p, 2);
    var h := v / p;
    assert p * 2 == Pow2(nb);
    QuotientTimes(v / Pow2(nb) * 2, p);
    HighIs(v / Pow2(nb), p);
  }

  lemma HighIs(q: int, p: nat)
    requires p > 0
    ensures q * (2 * p) == q * 2 * p && (q * 2 * p) / p == q * 2
  {
    QuotientTimes(q * 2, p);
  }

  lemma QuotientTimes(q: int, p: nat)
    requires p > 0
    ensures q * p / p == q
  {
    QuotientUnique(q * p, p, q, 0);
  }

  // Setting the next bit of a number that has been read down to bit nb.
  lemma SetNext(v: int, nb: nat)
    requires nb > 0
    ensures OrMark(High(v, nb), Bit(v, nb - 1), nb - 1) == High(v, nb - 1)
  {
    hide High;
    HighSplits(v, nb);
    hide Bit;
    if Bit(v, nb - 1) == 1 {
      assert 1 * Pow2(nb - 1) == Pow2(nb - 1);
    }
  }

  // ---- a rectangle ----

  // In the rectangle img holds orig down to bit nb.
  ghost predicate ReadDownTo(img: seq<int>, orig: seq<int>, off: int, n: nat, nqx: nat, nqy: nat, nb: nat)
  {
    n > 0 && |img| == |orig| &&
    forall x {:trigger img[x]} :: 0 <= x < |img| && InRect(x, off, n, nqx, nqy) ==> img[x] == High(orig[x], nb)
  }

  // The rectangle of orig, and img around it.
  ghost function Merged(img: seq<int>, orig: seq<int>, off: int, n: nat, nqx: nat, nqy: nat): (r: seq<int>)
    requires n > 0 && |img| == |orig|
    ensures |r| == |img|
  {
    seq(|img|, x requires 0 <= x < |img| => if InRect(x, off, n, nqx, nqy) then orig[x] else img[x])
  }

  lemma CellOfPlane(orig: seq<int>, off: int, n: nat, nqx: nat, nqy: nat, bit: nat, x: nat)
    requires Fits(off, n, nqx, nqy, |orig|) && x < |orig| && InRect(x, off, n, nqx, nqy)
    ensures 0 <= Col(x, off, n)
    ensures Cell(Plane(orig, off, n, nqx, nqy, bit), nqx, nqy, Row(x, off, n), Col(x, off, n)) == Bit(orig[x], bit)
  {
    hide Row;
    hide Col;
    hide Place;
    hide Plane;
    hide Bit;
    PlaceBack(x, off, n);
    PlaneAt(orig, off, n, nqx, nqy, bit, Row(x, off, n), Col(x, off, n));
  }

  lemma InsertNext(img: seq<int>, orig: seq<int>, off: int, n: nat, nqx: nat, nqy: nat, nb: nat)
    requires Fits(off, n, nqx, nqy, |orig|) && nb > 0 && ReadDownTo(img, orig, off, n, nqx, nqy, nb)
    ensures var next := Inserted(img, Plane(orig, off, n, nqx, nqy, nb - 1), off, n, nqx, nqy, nb - 1);
            ReadDownTo(next, orig, off, n, nqx, nqy, nb - 1) &&
            Merged(next, orig, off, n, nqx, nqy) == Merged(img, orig, off, n, nqx, nqy)
  {
    hide Row;
    hide Col;
    hide Fits;
    hide Plane;
    hide Cell;
    hide Cells;
    hide High;
    hide OrMark;
    hide Bit;
    FitsPositive(off, n, nqx, nqy, |orig|);
    var pl := Plane(orig, off, n, nqx, nqy, nb - 1);
    var next := Inserted(img, pl, off, n, nqx, nqy, nb - 1);
    forall x | 0 <= x < |img| && InRect(x, off, n, nqx, nqy)
      ensures next[x] == High(orig[x], nb - 1)
    {
      CellOfPlane(orig, off, n, nqx, nqy, nb - 1, x);
      SetNext(orig[x], nb);
    }
    forall x | 0 <= x < |img| && !InRect(x, off, n, nqx, nqy)
      ensures next[x] == img[x]
    {
    }
  }

  lemma AllRead(img: seq<int>, orig: seq<int>, off: int, n: nat, nqx: nat, nqy: nat)
    requires ReadDownTo(img, orig, off, n, nqx, nqy, 0)
    ensures Merged(img, orig, off, n, nqx, nqy) == img
  {
    hide InRect;
    assert forall v :: High(v, 0) == v;
  }

  // Decoding a rectangle's planes restores it and leaves the rest alone.
  lemma {:induction false} QuadRoundTrip(s: seq<byte>, p: nat, img: seq<int>, orig: seq<int>, off: int, n: nat,
                                         nqx: nat, nqy: nat, nb: nat)
    requires Fits(off, n, nqx, nqy, |orig|) && ReadDownTo(img, orig, off, n, nqx, nqy, nb)
    requires At(s, p, QuadBits(orig, off, n, nqx, nqy, nb))
    ensures DecodeQuad(s, p, img, off, n, nqx, nqy, nb) ==
            GoodQuad(Merged(img, orig, off, n, nqx, nqy), p + |QuadBits(orig, off, n, nqx, nqy, nb)|)
    decreases nb
  {
    hide At;
    hide Fits;
    hide ReadDownTo;
    hide Merged;
    hide Inserted;
    hide Plane;
    hide PlaneBits;
    hide DecodePlane;
    hide Level;
    hide Spread;
    hide Half;
    hide Cells;
    SameSize(img, orig, off, n, nqx, nqy, nb);
    if nb == 0 {
      AllRead(img, orig, off, n, nqx, nqy);
    } else {
      var pl := Plane(orig, off, n, nqx, nqy, nb - 1);
      AtSplit(s, p, PlaneBits(pl, nqx, nqy), QuadBits(orig, off, n, nqx, nqy, nb - 1));
      PlaneRoundTrip(s, p, pl, nqx, nqy);
      InsertNext(img, orig, off, n, nqx, nqy, nb);
      var next := Inserted(img, pl, off, n, nqx, nqy, nb - 1);
      QuadRoundTrip(s, p + |PlaneBits(pl, nqx, nqy)|, next, orig, off, n, nqx, nqy, nb - 1);
    }
  }

  lemma SameSize(img: seq<int>, orig: seq<int>, off: int, n: nat, nqx: nat, nqy: nat, nb: nat)
    requires ReadDownTo(img, orig, off, n, nqx, nqy, nb)
    ensures n > 0 && |img| == |orig|
  {
  }
}
