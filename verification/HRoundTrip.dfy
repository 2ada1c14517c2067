/** The round trip of the code stream: header, body and signs. */
module HRoundTrip {
  import opened Powers
  import opened Bits
  import opened MsbWriters
  import opened Grids
  import opened HStream
  import opened HPlanes
  import opened HScratch
  import opened HQtree
  import opened HBody
  import opened HSigns
  import opened HCoder

  // ---- where the parts of the stream are ----

  lemma MsbInjective(x: byte, y: byte)
    requires Msb(x, 8) == Msb(y, 8)
    ensures x == y
  {
    hide Msb;
    hide Value;
    WordIsPow();
    ValueOfMsb(x, 8);
    ValueOfMsb(y, 8);
  }

  lemma {:induction false} UnpackInjective(a: seq<byte>, b: seq<byte>)
    requires |a| == |b| && Unpack(a) == Unpack(b)
    ensures a == b
    decreases |a|
  {
    hide Msb;
    if a != [] {
      var n := |a| - 1;
      SplitEqual(Unpack(a[..n]), Msb(a[n], 8), Unpack(b[..n]), Msb(b[n], 8));
      UnpackInjective(a[..n], b[..n]);
      MsbInjective(a[n], b[n]);
      assert a == a[..n] + [a[n]] && b == b[..n] + [b[n]];
    }
  }

  lemma UnpackParts(o: seq<byte>, n: nat)
    requires n <= |o|
    ensures Unpack(o) == Unpack(o[..n]) + Unpack(o[n..])
  {
    hide Unpack;
    assert o == o[..n] + o[n..];
    UnpackConcat(o[..n], o[n..]);
  }

  // The header's bytes come first.
  lemma HeaderFirst(o: seq<byte>, h: seq<byte>, body: bits)
    requires Packs(o, Unpack(h) + body)
    ensures |h| <= |o| && o[..|h|] == h
  {
    hide Unpack;
    hide Packs;
    hide Zeros;
    var z := PackedIs(o, Unpack(h) + body);
    var first, rest := o[..|h|], o[|h|..];
    UnpackParts(o, |h|);
    Associative(Unpack(h), body, z);
    SplitEqual(Unpack(first), Unpack(rest), Unpack(h), body + z);
    UnpackInjective(first, h);
  }

  lemma FoundAt(s: seq<byte>, k: nat, b: seq<byte>, t: bits)
    requires k + |b| <= |s| && s[k..k + |b|] == b && Packs(b, t)
    ensures At(s, 8 * k, t)
  {
    hide At;
    hide Unpack;
    AtBytes(s, k, b);
    AtSplit(s, 8 * k, t, Zeros(8 * |b| - |t|));
  }

  lemma PartsOf(out: seq<byte>, orig: seq<int>, nx: nat, ny: nat, scale: int)
    requires IsImage(orig, nx, ny) && |orig| > 0 && Encodes(out, orig, nx, ny, scale)
    ensures |out| >= 25 && out[..25] == Header(nx, ny, scale, orig[0], Counts(Coded(orig), nx, ny))
    ensures At(out, 200, Body(orig, nx, ny))
    ensures At(out, SignPlace(200 + |Body(orig, nx, ny)|), SignBits(orig[0 := 0]))
  {
    hide At;
    hide Unpack;
    hide Header;
    hide Body;
    hide Counts;
    hide Coded;
    hide SignBits;
    var h, body := Header(nx, ny, scale, orig[0], Counts(Coded(orig), nx, ny)), Body(orig, nx, ny);
    var k := 25 + (|body| + 7) / 8;
    HeaderFirst(out[..k], h, body);
    assert out[..k][..25] == out[..25];
    assert out[0..k] == out[..k];
    FoundAt(out, 0, out[..k], Unpack(h) + body);
    AtSplit(out, 0, Unpack(h), body);
    assert out[k..k + |out[k..]|] == out[k..];
    FoundAt(out, k, out[k..], SignBits(orig[0 := 0]));
    assert 8 * k == SignPlace(200 + |body|);
  }

  // ---- reading the header ----

  lemma ByteOf(s: seq<byte>, h: seq<byte>, k: nat)
    requires |h| <= |s| && s[..|h|] == h && k < |h|
    ensures ByteAt(s, k) == h[k]
  {
  }

  lemma FieldOf(s: seq<byte>, h: seq<byte>, k: nat, n: nat)
    requires |h| <= |s| && s[..|h|] == h && k + n <= |h|
    ensures s[k..k + n] == h[k..k + n]
  {
    assert s[..|h|][k..k + n] == s[k..k + n];
  }

  lemma HeaderFields(nx: int, ny: int, scale: int, sumall: int, nb: PlaneCounts)
    ensures var h := Header(nx, ny, scale, sumall, nb);
            h[0] == 0xDD && h[1] == 0x99 && h[2..6] == BigEndian(nx, 4) && h[6..10] == BigEndian(ny, 4) &&
            h[10..14] == BigEndian(scale, 4) && h[14..22] == BigEndian(sumall, 8) &&
            h[22] == nb.nb0 % 256 && h[23] == nb.nb1 % 256 && h[24] == nb.nb2 % 256
  {
    hide BigEndian;
  }

  lemma WidthsArePow()
    ensures Pow2(31) == 0x8000_0000 && Pow2(63) == 0x8000_0000_0000_0000 && Pow2(60) == LIMIT
  {
    WordIsPow();
    assert Pow2(32) == 2 * Pow2(31);
    Pow2Add(32, 31);
    assert Pow2(28) == 0x1000_0000 by {
      assert Pow2(32) == 16 * Pow2(28) by { Pow2Add(4, 28); assert Pow2(4) == 16; }
    }
    Pow2Add(32, 28);
  }

  lemma FieldRead(s: seq<byte>, h: seq<byte>, k: nat, v: int, n: nat)
    requires |h| <= |s| && s[..|h|] == h && k + n <= |h| && h[k..k + n] == BigEndian(v, n)
    requires (n == 4 && -0x8000_0000 <= v < 0x8000_0000) ||
             (n == 8 && -0x8000_0000_0000_0000 <= v < 0x8000_0000_0000_0000)
    ensures Signed(NumberAt(s, k, n), 8 * n) == v
  {
    hide NumberAt;
    hide BigEndian;
    hide Signed;
    hide Pow2;
    WidthsArePow();
    FieldOf(s, h, k, n);
    SignedThere(s, k, v, n);
  }

  lemma HeaderRead(s: seq<byte>, nx: int, ny: int, scale: int, sumall: int, nb: PlaneCounts)
    requires |s| >= 25 && s[..25] == Header(nx, ny, scale, sumall, nb)
    requires -0x8000_0000 <= nx < 0x8000_0000 && -0x8000_0000 <= ny < 0x8000_0000 && -0x8000_0000 <= scale < 0x8000_0000
    requires -0x8000_0000_0000_0000 <= sumall < 0x8000_0000_0000_0000
    ensures ByteAt(s, 0) == 0xDD && ByteAt(s, 1) == 0x99
    ensures Signed(NumberAt(s, 2, 4), 32) == nx && Signed(NumberAt(s, 6, 4), 32) == ny
    ensures Signed(NumberAt(s, 10, 4), 32) == scale && Signed(NumberAt(s, 14, 8), 64) == sumall
    ensures ByteAt(s, 22) == nb.nb0 % 256 && ByteAt(s, 23) == nb.nb1 % 256 && ByteAt(s, 24) == nb.nb2 % 256
  {
    hide Header;
    hide BigEndian;
    hide NumberAt;
    hide Signed;
    var h := Header(nx, ny, scale, sumall, nb);
    HeaderFields(nx, ny, scale, sumall, nb);
    FieldRead(s, h, 2, nx, 4);
    FieldRead(s, h, 6, ny, 4);
    FieldRead(s, h, 10, scale, 4);
    FieldRead(s, h, 14, sumall, 8);
    ByteOf(s, h, 0);
    ByteOf(s, h, 1);
    ByteOf(s, h, 22);
    ByteOf(s, h, 23);
    ByteOf(s, h, 24);
  }

  lemma {:induction false} MaxBelow(s: seq<int>, n: nat, nx: nat, ny: nat, c: nat, bound: nat)
    requires n <= |s| && ny > 0 && bound > 0 && forall x :: 0 <= x < n ==> s[x] < bound
    ensures MaxOf(s, n, nx, ny, c) < bound
  {
    if n > 0 {
      MaxBelow(s, n - 1, nx, ny, c, bound);
    }
  }

  // Magnitudes below the limit need at most 60 bit planes, which the header's bytes hold.
  lemma CountsAreBytes(orig: seq<int>, nx: nat, ny: nat, scale: int)
    requires Encodable(orig, nx, ny, scale) && |orig| > 0
    ensures var nb := Counts(Coded(orig), nx, ny); nb.nb0 <= 60 && nb.nb1 <= 60 && nb.nb2 <= 60
  {
    hide MaxOf;
    hide BitLength;
    hide Pow2;
    var s, n := Coded(orig), Cells(nx, ny);
    WidthsArePow();
    assert forall x :: 0 <= x < n ==> s[x] < LIMIT;
    MaxBelow(s, n, nx, ny, 0, LIMIT);
    MaxBelow(s, n, nx, ny, 1, LIMIT);
    MaxBelow(s, n, nx, ny, 2, LIMIT);
    BitLengthBelow(MaxOf(s, n, nx, ny, 0), 60);
    BitLengthBelow(MaxOf(s, n, nx, ny, 1), 60);
    BitLengthBelow(MaxOf(s, n, nx, ny, 2), 60);
  }

  // ---- a larger array behind the image changes nothing ----

  lemma PlanePrefix(img: seq<int>, tail: seq<int>, off: int, n: nat, nqx: nat, nqy: nat, bit: nat)
    requires Fits(off, n, nqx, nqy, |img|)
    ensures Plane(img + tail, off, n, nqx, nqy, bit) == Plane(img, off, n, nqx, nqy, bit)
  {
    hide Bit;
    hide Place;
    forall x | 0 <= x < Cells(nqx, nqy)
      ensures PlaneCell(img + tail, off, n, nqx, nqy, bit, x) == PlaneCell(img, off, n, nqx, nqy, bit, x)
    {
      RowBelow(x, nqx, nqy);
      FitsPlace(off, n, nqx, nqy, |img|, x / nqy, x % nqy);
    }
  }

  lemma {:induction false} QuadPrefix(img: seq<int>, tail: seq<int>, off: int, n: nat, nqx: nat, nqy: nat, nb: nat)
    requires Fits(off, n, nqx, nqy, |img|)
    ensures QuadBits(img + tail, off, n, nqx, nqy, nb) == QuadBits(img, off, n, nqx, nqy, nb)
  {
    hide Plane;
    hide PlaneBits;
    if nb > 0 {
      PlanePrefix(img, tail, off, n, nqx, nqy, nb - 1);
      QuadPrefix(img, tail, off, n, nqx, nqy, nb - 1);
    }
  }

  lemma {:induction false} BodyPrefix(img: seq<int>, tail: seq<int>, nx: nat, ny: nat, nb: PlaneCounts, q: nat)
    requires IsImage(img, nx, ny) && q <= 4
    ensures BodyFrom(img + tail, nx, ny, nb, q) == BodyFrom(img, nx, ny, nb, q)
    decreases 4 - q
  {
    hide Msb;
    hide QuadBits;
    if q < 4 {
      QuadrantFits(nx, ny, q, |img|);
      var r := Quadrant(nx, ny, q);
      hide Quadrant;
      QuadPrefix(img, tail, r.off, ny, r.nqx, r.nqy, CountOf(nb, q));
      BodyPrefix(img, tail, nx, ny, nb, q + 1);
    }
  }

  // ---- the round trip ----

  // The magnitudes, in front of what else the decoder's array holds.
  lemma PixelsDecoded(s: seq<byte>, mags: seq<int>, tail: seq<int>, nx: nat, ny: nat, nb: PlaneCounts)
    requires IsImage(mags, nx, ny) && |mags| == nx * ny && CountsSuffice(mags, nx, ny, nb)
    requires At(s, 200, BodyFrom(mags, nx, ny, nb, 0))
    ensures DecodeFrom(s, 200, seq(nx * ny, _ => 0) + tail, nx, ny, nb, 0) ==
            GoodQuad(mags + tail, 200 + |BodyFrom(mags, nx, ny, nb, 0)|)
  {
    hide At;
    hide BodyFrom;
    hide DecodeFrom;
    hide QuadOf;
    BodyPrefix(mags, tail, nx, ny, nb, 0);
    BodyRoundTrip(s, 200, seq(nx * ny, _ => 0) + tail, mags + tail, nx, ny, nb, 0);
  }

  lemma PixelsRoundTrip(s: seq<byte>, orig: seq<int>, nx: nat, ny: nat, scale: int, before: seq<int>)
    requires Encodable(orig, nx, ny, scale) && IsImage(orig, nx, ny) && |orig| > 0 && Encodes(s, orig, nx, ny, scale)
    requires nx * ny <= |before|
    ensures DecodePixels(s, before, nx, ny, scale) == Decoded(nx, ny, scale, orig + before[nx * ny..])
  {
    hide At;
    hide Encodes;
    hide BodyFrom;
    hide DecodeFrom;
    hide ReadSigns;
    hide SignBits;
    hide Header;
    hide Signed;
    hide NumberAt;
    hide ByteAt;
    hide SignPlace;
    hide CountsSuffice;
    hide Counts;
    hide Magnitudes;
    hide Truncated;
    SizeChecks(nx, ny);
    var mags, tail := Coded(orig), before[nx * ny..];
    var nb := Counts(mags, nx, ny);
    PartsOf(s, orig, nx, ny, scale);
    HeaderRead(s, nx, ny, scale, orig[0], nb);
    CountsAreBytes(orig, nx, ny, scale);
    CountsCover(mags, nx, ny);
    PixelsDecoded(s, mags, tail, nx, ny, nb);
    var q := SignPlace(200 + |Body(orig, nx, ny)|);
    SignsRoundTrip(s, q, orig[0 := 0]);
    assert (mags + tail)[..nx * ny] == mags && (mags + tail)[nx * ny..] == tail;
    assert (orig[0 := 0] + tail)[0 := orig[0]] == orig + tail;
  }

  lemma SizeChecks(nx: nat, ny: nat)
    requires nx >= 2 && ny >= 2 && nx * ny <= INT_MAX
    ensures nx <= INT_MAX && ny <= INT_MAX && nx <= Truncated(INT_MAX, ny)
  {
    MulMonotone(1, nx, ny);
    MulMonotone(1, ny, nx);
    MulMonotone(INT_MAX / ny + 1, nx, ny);
  }

  // Decoding an encoded image gives back its dimensions, its scale and every coefficient.
  lemma StreamRoundTrip(out: seq<byte>, orig: seq<int>, nx: nat, ny: nat, scale: int, before: seq<int>)
    requires Encodable(orig, nx, ny, scale) && IsImage(orig, nx, ny) && |orig| > 0 && Encodes(out, orig, nx, ny, scale)
    requires nx * ny <= |before|
    ensures DecodeStream(out, before) == Decoded(nx, ny, scale, orig + before[nx * ny..])
  {
    hide Encodes;
    hide Header;
    hide Signed;
    hide NumberAt;
    hide ByteAt;
    hide Counts;
    hide Coded;
    hide DecodePixels;
    hide Truncated;
    hide At;
    hide SignBits;
    PartsOf(out, orig, nx, ny, scale);
    SizeChecks(nx, ny);
    HeaderRead(out, nx, ny, scale, orig[0], Counts(Coded(orig), nx, ny));
    PixelsRoundTrip(out, orig, nx, ny, scale, before);
  }
}
