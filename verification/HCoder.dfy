/**
  The H-compress code stream: magic number, dimensions, scale, the sum of all pixels, the
  bit plane counts, the coded magnitudes and the sign bits; and the theorem that decoding
  an encoded image restores it.
 */
module HCoder {
  import opened Powers
  import opened Bits
  import opened HStream
  import opened HBitIO
  import opened HPlanes
  import opened HScratch
  import opened HQtree
  import opened HBody
  import opened HSigns

  // ---- numbers as bytes ----

  // The low n bytes of v, most significant first.
  function BigEndian(v: int, n: nat): (b: seq<byte>)
    ensures |b| == n
    decreases n
  {
    if n == 0 then [] else BigEndian(v / 256, n - 1) + [v % 256]
  }

  function NumberAt(s: seq<byte>, k: nat, n: nat): (v: nat)
  {
    if n == 0 then 0 else 256 * NumberAt(s, k, n - 1) + ByteAt(s, k + n - 1)
  }

  // A two's complement number of the given width.
  function Signed(v: int, width: nat): int
    requires width > 0
  {
    if v < Pow2(width - 1) then v else v - Pow2(width)
  }

  lemma ByteModulo(v: int, p: nat)
    requires p > 0
    ensures v % (256 * p) == 256 * (v / 256 % p) + v % 256
  {
    var q := v / 256;
    assert v == 256 * (p * (q / p) + q % p) + v % 256;
    assert 256 * (p * (q / p) + q % p) == (256 * p) * (q / p) + 256 * (q % p);
    QuotientUnique(v, 256 * p, q / p, 256 * (q % p) + v % 256);
  }

  lemma EightMore(n: nat)
    requires n > 0
    ensures Pow2(8 * n) == 256 * Pow2(8 * (n - 1))
  {
    Pow2Add(8, 8 * (n - 1));
    assert Pow2(8) == 256 by { assert Pow2(4) == 16; Pow2Add(4, 4); }
  }

  lemma {:induction false} NumberThere(s: seq<byte>, k: nat, v: int, n: nat)
    requires k + n <= |s| && s[k..k + n] == BigEndian(v, n)
    ensures NumberAt(s, k, n) == v % Pow2(8 * n)
    decreases n
  {
    if n > 0 {
      var b := BigEndian(v / 256, n - 1);
      assert s[k..k + n - 1] == s[k..k + n][..n - 1] == b;
      assert s[k + n - 1] == s[k..k + n][n - 1] == v % 256;
      NumberThere(s, k, v / 256, n - 1);
      EightMore(n);
      ByteModulo(v, Pow2(8 * (n - 1)));
    }
  }

  lemma SignedBack(v: int, width: nat)
    requires width > 0 && -(Pow2(width - 1) as int) <= v < Pow2(width - 1)
    ensures Signed(v % Pow2(width), width) == v
  {
    var p := Pow2(width);
    assert p == 2 * Pow2(width - 1);
    if v >= 0 {
      QuotientUnique(v, p, 0, v);
    } else {
      QuotientUnique(v, p, -1, v + p);
    }
  }

  lemma SignedThere(s: seq<byte>, k: nat, v: int, n: nat)
    requires n > 0 && k + n <= |s| && s[k..k + n] == BigEndian(v, n) && -(Pow2(8 * n - 1) as int) <= v < Pow2(8 * n - 1)
    ensures Signed(NumberAt(s, k, n), 8 * n) == v
  {
    hide Signed;
    hide NumberAt;
    hide BigEndian;
    hide Pow2;
    NumberThere(s, k, v, n);
    SignedBack(v, 8 * n);
  }

  // Store a number of n bytes, from the last byte to the first.
  method WriteNumber(a: int, n: nat) returns (b: seq<byte>)
    ensures b == BigEndian(a, n)
  {
    b := [];
    var v := a;
    var i: int := n - 1;
    while i >= 0
      invariant -1 <= i < n && BigEndian(v, i + 1) + b == BigEndian(a, n)
    {
      assert (BigEndian(v / 256, i) + [v % 256]) + b == BigEndian(v / 256, i) + ([v % 256] + b);
      b := [v % 256] + b;
      v := v / 256;
      i := i - 1;
    }
  }

  method ReadNumber(s: seq<byte>, k: nat, n: nat) returns (a: nat)
    requires n > 0
    ensures a == NumberAt(s, k, n)
  {
    a := ByteAt(s, k);
    assert NumberAt(s, k, 1) == 256 * NumberAt(s, k, 0) + ByteAt(s, k);
    for i := 1 to n
      invariant a == NumberAt(s, k, i)
    {
      a := a * 256 + ByteAt(s, k + i);
    }
  }

  // ---- the stream ----

  const INT_MAX := 0x7fff_ffff

  // The largest magnitude the 64-bit coder can shift left by three.
  const LIMIT := 0x1000_0000_0000_0000

  function Header(nx: int, ny: int, scale: int, sumall: int, nb: PlaneCounts): (b: seq<byte>)
    ensures |b| == 25
  {
    [0xDD, 0x99] + BigEndian(nx, 4) + BigEndian(ny, 4) + BigEndian(scale, 4) + BigEndian(sumall, 8) +
    [nb.nb0 % 256, nb.nb1 % 256, nb.nb2 % 256]
  }

  // The magnitudes that are coded; the sum of all pixels goes into the header instead.
  function Coded(orig: seq<int>): (mags: seq<int>)
    requires |orig| > 0
    ensures |mags| == |orig|
    ensures forall x {:trigger mags[x]} :: 0 <= x < |mags| ==> mags[x] >= 0
  {
    Magnitudes(orig[0 := 0])
  }

  ghost function Body(orig: seq<int>, nx: nat, ny: nat): bits
    requires IsImage(orig, nx, ny)
  {
    BodyFrom(Coded(orig), nx, ny, Counts(Coded(orig), nx, ny), 0)
  }

  // out is the code stream of the image orig.
  ghost predicate Encodes(out: seq<byte>, orig: seq<int>, nx: nat, ny: nat, scale: int)
    requires IsImage(orig, nx, ny)
  {
    var h := Header(nx, ny, scale, orig[0], Counts(Coded(orig), nx, ny));
    var k := 25 + (|Body(orig, nx, ny)| + 7) / 8;
    k <= |out| && Packs(out[..k], Unpack(h) + Body(orig, nx, ny)) && Packs(out[k..], SignBits(orig[0 := 0]))
  }

  ghost predicate Encodable(orig: seq<int>, nx: nat, ny: nat, scale: int)
  {
    nx >= 2 && ny >= 2 && |orig| == nx * ny <= INT_MAX && -INT_MAX - 1 <= scale <= INT_MAX &&
    -0x8000_0000_0000_0000 <= orig[0] < 0x8000_0000_0000_0000 &&
    forall x {:trigger orig[x]} :: 0 < x < |orig| ==> -LIMIT < orig[x] < LIMIT
  }

  // Encode a, overwriting it; false means that noutmax bytes are too few.
  method Encode(a: array<int>, nx: nat, ny: nat, scale: int, noutmax: nat) returns (ok: bool, out: seq<byte>)
    requires nx >= 2 && ny >= 2 && a.Length == nx * ny
    modifies a
    ensures IsImage(old(a[..]), nx, ny) && Encodes(out, old(a[..]), nx, ny, scale)
    ensures ok == (|out| < noutmax)
  {
    hide BodyFrom;
    hide SignBits;
    hide Counts;
    hide BitWriter.Valid;
    hide BigEndian;
    ghost var orig := a[..];
    AtLeastFour(nx, ny);
    var b := WriteNumber(nx, 4);
    out := [0xDD, 0x99] + b;
    b := WriteNumber(ny, 4);
    out := out + b;
    b := WriteNumber(scale, 4);
    out := out + b;
    b := WriteNumber(a[0], 8);
    out := out + b;
    a[0] := 0;
    assert a[..] == orig[0 := 0];
    var signs := TakeSigns(a);
    var nb := CountPlanes(a, nx, ny);
    out := out + [nb.nb0 % 256, nb.nb1 % 256, nb.nb2 % 256];
    assert out == Header(nx, ny, scale, orig[0], nb);
    var w := new BitWriter(out);
    DoEncode(w, a, nx, ny, nb);
    out := w.out + signs;
    SplitPacked(w.out, signs, Header(nx, ny, scale, orig[0], nb), Body(orig, nx, ny));
    ok := |out| < noutmax;
  }

  lemma AtLeastFour(nx: nat, ny: nat)
    requires nx >= 2 && ny >= 2
    ensures nx * ny >= 4
  {
  }

  lemma SplitPacked(o: seq<byte>, signs: seq<byte>, h: seq<byte>, body: bits)
    requires Packs(o, Unpack(h) + body) && |h| == 25
    ensures var k := 25 + (|body| + 7) / 8; k == |o| && (o + signs)[..k] == o && (o + signs)[k..] == signs
  {
    hide Unpack;
  }

  // ---- decoding ----

  datatype Failure = BadMagic | DivisionByZero | Overflow | WrongAllocation | TooThin | BadBody

  datatype Outcome = Failed(why: Failure) | Decoded(nx: nat, ny: nat, scale: int, img: seq<int>)

  // Integer division that rounds towards zero.
  function Truncated(a: int, b: int): int
    requires b != 0
    decreases a < 0
  {
    if a < 0 then -Truncated(-a, b) else if b > 0 then a / b else -(a / -b)
  }

  function Zeroed(before: seq<int>, nel: nat): (r: seq<int>)
    requires nel <= |before|
    ensures |r| == |before|
  {
    seq(nel, _ => 0) + before[nel..]
  }

  function SignPlace(p: nat): nat
  {
    8 * ((p + 7) / 8)
  }

  ghost function DecodePixels(s: seq<byte>, before: seq<int>, nx: nat, ny: nat, scale: int): Outcome
    requires IsImage(before, nx, ny)
  {
    var nb := PlaneCounts(ByteAt(s, 22), ByteAt(s, 23), ByteAt(s, 24));
    var r := DecodeFrom(s, 200, Zeroed(before, nx * ny), nx, ny, nb, 0);
    if r.BadQuad? then Failed(BadBody) else
    var signed := ReadSigns(s, SignPlace(r.next), r.img[..nx * ny]).values + r.img[nx * ny..];
    AtLeastFour(nx, ny);
    Decoded(nx, ny, scale, signed[0 := Signed(NumberAt(s, 14, 8), 64)])
  }

  // What decoding s into an array that holds before comes to.
  ghost function DecodeStream(s: seq<byte>, before: seq<int>): Outcome
  {
    if ByteAt(s, 0) != 0xDD || ByteAt(s, 1) != 0x99 then Failed(BadMagic) else
    var nx, ny, scale := Signed(NumberAt(s, 2, 4), 32), Signed(NumberAt(s, 6, 4), 32), Signed(NumberAt(s, 10, 4), 32);
    if ny == 0 then Failed(DivisionByZero) else
    if nx > Truncated(INT_MAX, ny) then Failed(Overflow) else
    if nx * ny > |before| then Failed(WrongAllocation) else
    if nx < 2 || ny < 2 then Failed(TooThin) else
    DecodePixels(s, before, nx, ny, scale)
  }

  method InputPixels(s: seq<byte>, a: array<int>, nx: nat, ny: nat, ghost scale: int) returns (ok: bool)
    requires IsImage(a[..], nx, ny)
    modifies a
    ensures DecodePixels(s, old(a[..]), nx, ny, scale) == if ok then Decoded(nx, ny, scale, a[..]) else Failed(BadBody)
  {
    hide DecodeFrom;
    hide ReadSigns;
    hide NumberAt;
    hide BitReader.Buffered;
    hide Signed;
    ghost var before := a[..];
    AtLeastFour(nx, ny);
    var nel := nx * ny;
    var sumall := ReadNumber(s, 14, 8);
    var nb := PlaneCounts(ByteAt(s, 22), ByteAt(s, 23), ByteAt(s, 24));
    for i := 0 to nel
      invariant forall x :: 0 <= x < a.Length ==> a[x] == if x < i then 0 else before[x]
    {
      a[i] := 0;
    }
    assert a[..] == Zeroed(before, nel);
    var r := new BitReader(s, 25);
    ok := InputQuadrants(r, a, nx, ny, nb);
    if !ok {
      return;
    }
    ghost var img, p := a[..], r.Pos();
    assert img[..nel] == a[..nel] && img[nel..] == a[nel..];
    r.Start();
    StartOfSigns(p, r.Pos());
    InputSigns(r, a, nel);
    a[0] := Signed(sumall, 64);
  }

  lemma StartOfSigns(p: nat, q: int)
    requires q % 8 == 0 && p <= q <= p + 7
    ensures q == SignPlace(p)
  {
  }

  method Decode(s: seq<byte>, a: array<int>) returns (ok: bool, why: Failure, nx: int, ny: int, scale: int)
    modifies a
    ensures ok ==> nx >= 0 && ny >= 0
    ensures DecodeStream(s, old(a[..])) == if ok then Decoded(nx, ny, scale, a[..]) else Failed(why)
  {
    hide DecodePixels;
    hide NumberAt;
    hide Signed;
    ok, why, nx, ny, scale := false, BadMagic, 0, 0, 0;
    if ByteAt(s, 0) != 0xDD || ByteAt(s, 1) != 0x99 {
      return;
    }
    var v := ReadNumber(s, 2, 4);
    nx := Signed(v, 32);
    v := ReadNumber(s, 6, 4);
    ny := Signed(v, 32);
    v := ReadNumber(s, 10, 4);
    scale := Signed(v, 32);
    if ny == 0 {
      why := DivisionByZero;
      return;
    }
    if nx > Truncated(INT_MAX, ny) {
      why := Overflow;
      return;
    }
    if nx * ny > a.Length {
      why := WrongAllocation;
      return;
    }
    if nx < 2 || ny < 2 {
      why := TooThin;
      return;
    }
    why := BadBody;
    ok := InputPixels(s, a, nx, ny, scale);
  }
}
