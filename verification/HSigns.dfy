/** The sign bits, and the number of bit planes of each quadrant. */
module HSigns {
  import opened Powers
  import opened Bits
  import opened MsbWriters
  import opened HStream
  import opened HBitIO
  import opened HPlanes
  import opened HBody

  // ---- signs ----

  function Magnitudes(s: seq<int>): (r: seq<int>)
    ensures |r| == |s|
  {
    seq(|s|, x requires 0 <= x < |s| => Abs(s[x]))
  }

  // One bit for each non-zero element, set if it is negative.
  function SignBits(s: seq<int>): (b: bits)
    ensures |b| <= |s|
  {
    if s == [] then [] else SignBits(s[..|s| - 1]) + if s[|s| - 1] == 0 then [] else [s[|s| - 1] < 0]
  }

  lemma SignsSnoc(s: seq<int>, v: int)
    ensures SignBits(s + [v]) == SignBits(s) + if v == 0 then [] else [v < 0]
  {
    assert (s + [v])[..|s|] == s;
  }

  datatype SignedPrefix = SignedPrefix(values: seq<int>, next: nat)

  // Negate the non-zero elements whose bit is set.
  function ReadSigns(s: seq<byte>, p: nat, mags: seq<int>): (r: SignedPrefix)
    ensures |r.values| == |mags|
    decreases |mags|
  {
    hide BitsAt;
    if mags == [] then SignedPrefix([], p) else
    var v, front := mags[|mags| - 1], ReadSigns(s, p, mags[..|mags| - 1]);
    if v == 0 then SignedPrefix(front.values + [0], front.next)
    else SignedPrefix(front.values + [if BitsAt(s, front.next, 1) != 0 then -v else v], front.next + 1)
  }

  lemma ReadSignsSnoc(s: seq<byte>, p: nat, mags: seq<int>, i: nat)
    requires i < |mags|
    ensures var v, front := mags[i], ReadSigns(s, p, mags[..i]);
            ReadSigns(s, p, mags[..i + 1]) ==
            if v == 0 then SignedPrefix(front.values + [0], front.next)
            else SignedPrefix(front.values + [if BitsAt(s, front.next, 1) != 0 then -v else v], front.next + 1)
  {
    hide BitsAt;
    assert mags[..i + 1][..i] == mags[..i];
  }

  lemma BitThere(s: seq<byte>, p: nat, b: bool)
    requires At(s, p, [b])
    ensures BitsAt(s, p, 1) == if b then 1 else 0
  {
    hide At;
    hide BitsAt;
    var v: nat := if b then 1 else 0;
    OneBitCode(v);
    ValueAt(s, p, v, 1, 1);
  }

  lemma OneBitCode(v: nat)
    requires v < 2
    ensures Msb(v, 1) == [v == 1] && Pow2(1) == 2 && Pow2(0) == 1
  {
    assert Msb(v / 2, 0) == [];
  }

  // Reading the signs of the magnitudes gives the numbers back.
  lemma {:induction false} SignsRoundTrip(s: seq<byte>, p: nat, orig: seq<int>)
    requires At(s, p, SignBits(orig))
    ensures ReadSigns(s, p, Magnitudes(orig)) == SignedPrefix(orig, p + |SignBits(orig)|)
    decreases |orig|
  {
    hide At;
    hide BitsAt;
    hide ReadSigns;
    hide SignBits;
    NoSigns(orig);
    NothingSigned(s, p, Magnitudes(orig));
    if orig == [] {
      assert orig[..0] == orig && Magnitudes(orig)[..0] == [];
    } else {
      var n := |orig| - 1;
      var v, front := orig[n], orig[..n];
      assert Magnitudes(orig)[..n] == Magnitudes(front);
      assert Magnitudes(orig)[..n + 1] == Magnitudes(orig);
      assert orig == front + [v];
      SignsSnoc(front, v);
      ReadSignsSnoc(s, p, Magnitudes(orig), n);
      AtSplit(s, p, SignBits(front), if v == 0 then [] else [v < 0]);
      SignsRoundTrip(s, p, front);
      if v != 0 {
        BitThere(s, p + |SignBits(front)|, v < 0);
      }
    }
  }

  // The bits gathered so far: whole bytes, and bitsToGo places short of one more.
  ghost predicate Gathered(signbits: seq<byte>, nsign: nat, bitsToGo: int, b: bits)
  {
    1 <= bitsToGo <= 8 && nsign <= |signbits| && (forall k :: nsign < k < |signbits| ==> signbits[k] == 0) &&
    (if nsign < |signbits| then
       signbits[nsign] < Pow2(8 - bitsToGo) && b == Unpack(signbits[..nsign]) + Msb(signbits[nsign], 8 - bitsToGo)
     else bitsToGo == 8 && b == Unpack(signbits[..nsign]))
  }

  lemma ShiftIn(v: byte, n: nat, bit: nat)
    requires n <= 7 && v < Pow2(n) && bit < 2
    ensures 2 * v + bit < 256 && 2 * v + bit < Pow2(n + 1) && Msb(2 * v + bit, n + 1) == Msb(v, n) + [bit == 1]
  {
    hide Msb;
    OneBitCode(bit);
    MsbAppend(v, bit, n, 1);
    Pow2Monotone(n, 7);
    assert Pow2(7) == 128 by { WordIsPow(); }
  }

  // Shift one bit into the current byte.
  method PushSign(signbits: array<byte>, nsign: nat, bitsToGo: int, neg: bool, ghost b: bits)
    returns (nsign': nat, bitsToGo': int)
    requires Gathered(signbits[..], nsign, bitsToGo, b) && nsign < signbits.Length
    modifies signbits
    ensures Gathered(signbits[..], nsign', bitsToGo', b + [neg]) && 8 * nsign' - bitsToGo' == 8 * nsign - bitsToGo + 1
  {
    hide Msb;
    hide Unpack;
    hide Pow2;
    var bit := if neg then 1 else 0;
    ghost var v, was := signbits[nsign], signbits[..nsign];
    ShiftIn(v, 8 - bitsToGo, bit);
    Associative(Unpack(was), Msb(v, 8 - bitsToGo), [neg]);
    signbits[nsign] := 2 * signbits[nsign] + bit;
    nsign', bitsToGo' := nsign, bitsToGo - 1;
    assert signbits[..nsign] == was;
    if bitsToGo' == 0 {
      bitsToGo' := 8;
      nsign' := nsign + 1;
      WholeByte(signbits[..], nsign);
    }
  }

  lemma WholeByte(s: seq<byte>, k: nat)
    requires k < |s|
    ensures Unpack(s[..k + 1]) == Unpack(s[..k]) + Msb(s[k], 8)
    ensures Unpack(s[..k + 1]) == Unpack(s[..k + 1]) + Msb(0, 0) && Pow2(0) == 1
  {
    UnpackSnoc(s[..k], s[k]);
    assert s[..k + 1] == s[..k] + [s[k]];
  }

  lemma GatheredSize(signbits: seq<byte>, nsign: nat, bitsToGo: int, b: bits)
    requires Gathered(signbits, nsign, bitsToGo, b)
    ensures |b| == 8 * nsign + 8 - bitsToGo && 1 <= bitsToGo <= 8 && nsign <= |signbits|
    ensures bitsToGo < 8 ==> nsign < |signbits|
  {
    hide Msb;
    hide Unpack;
  }

  lemma NothingGathered(signbits: seq<byte>)
    requires forall k :: 0 <= k < |signbits| ==> signbits[k] == 0
    ensures Gathered(signbits, 0, 8, [])
  {
  }

  // Move the last byte's bits to its top.
  method Finish(signbits: array<byte>, nsign: nat, bitsToGo: int, ghost b: bits) returns (n: nat)
    requires Gathered(signbits[..], nsign, bitsToGo, b)
    modifies signbits
    ensures n <= signbits.Length && Packs(signbits[..n], b)
  {
    hide Msb;
    hide Unpack;
    hide Pow2;
    GatheredSize(signbits[..], nsign, bitsToGo, b);
    n := nsign;
    assert signbits[..][..nsign] == signbits[..nsign];
    if bitsToGo != 8 {
      ghost var was := signbits[..nsign];
      var last := LastByte(signbits[nsign], 8 - bitsToGo);
      Associative(Unpack(was), Msb(signbits[nsign], 8 - bitsToGo), Zeros(bitsToGo));
      UnpackSnoc(was, last);
      signbits[nsign] := last;
      n := nsign + 1;
      assert signbits[..n] == was + [last];
    } else {
      NoTail(signbits[..], nsign);
      assert b + Zeros(0) == b;
    }
  }

  lemma NoTail(s: seq<byte>, k: nat)
    requires k <= |s|
    ensures k < |s| ==> Unpack(s[..k]) + Msb(s[k], 0) == Unpack(s[..k])
  {
  }

  // Replace the elements by their magnitudes and gather their signs.
  method TakeSigns(a: array<int>) returns (signs: seq<byte>)
    modifies a
    ensures a[..] == Magnitudes(old(a[..])) && Packs(signs, SignBits(old(a[..])))
  {
    hide Gathered;
    hide SignBits;
    hide Packs;
    var nel := a.Length;
    var signbits := new byte[(nel + 7) / 8](_ => 0);
    ghost var orig := a[..];
    NothingGathered(signbits[..]);
    NoSigns(orig);
    var nsign, bitsToGo := 0, 8;
    for i := 0 to nel
      invariant forall x :: 0 <= x < nel ==> a[x] == if x < i then Abs(orig[x]) else orig[x]
      invariant Gathered(signbits[..], nsign, bitsToGo, SignBits(orig[..i]))
    {
      SignsSnoc(orig[..i], orig[i]);
      assert orig[..i + 1] == orig[..i] + [orig[i]];
      GatheredSize(signbits[..], nsign, bitsToGo, SignBits(orig[..i]));
      if a[i] != 0 {
        nsign, bitsToGo := PushSign(signbits, nsign, bitsToGo, a[i] < 0, SignBits(orig[..i]));
        if a[i] < 0 {
          a[i] := -a[i];
        }
      } else {
        assert SignBits(orig[..i]) + [] == SignBits(orig[..i]);
      }
    }
    assert orig[..nel] == orig;
    assert a[..] == Magnitudes(orig);
    var n := Finish(signbits, nsign, bitsToGo, SignBits(orig));
    signs := signbits[..n];
  }

  lemma NoSigns(s: seq<int>)
    ensures SignBits(s[..0]) == []
  {
  }

  // Read the signs of a's first nel elements.
  method InputSigns(r: BitReader, a: array<int>, nel: nat)
    requires r.Valid() && nel <= a.Length
    modifies r, a
    ensures old(r.Pos()) >= 0 && a[..] == ReadSigns(r.infile, old(r.Pos()), old(a[..nel])).values + old(a[nel..])
  {
    hide BitReader.Buffered;
    hide BitsAt;
    hide ReadSigns;
    ghost var p, mags, tail := r.Pos(), a[..nel], a[nel..];
    r.PendingBelow();
    NothingSigned(r.infile, p, mags);
    for i := 0 to nel
      invariant r.Valid() && r.Pos() >= 0
      invariant ReadSigns(r.infile, p, mags[..i]) == SignedPrefix(a[..i], r.Pos())
      invariant a[i..nel] == mags[i..] && a[nel..] == tail
    {
      ReadSignsSnoc(r.infile, p, mags, i);
      ghost var front := a[..i];
      assert a[i] == a[i..nel][0] == mags[i];
      if a[i] != 0 {
        var neg := r.InputBit();
        if neg != 0 {
          a[i] := -a[i];
        }
      }
      r.PendingBelow();
      assert a[..i + 1] == front + [a[i]];
    }
    assert mags[..nel] == mags;
    assert a[..] == a[..nel] + tail;
  }

  lemma NothingSigned(s: seq<byte>, p: nat, mags: seq<int>)
    ensures ReadSigns(s, p, mags[..0]) == SignedPrefix([], p)
  {
  }

  // ---- bit plane counts ----

  method CountBits(vmax: nat) returns (nb: nat)
    ensures nb == BitLength(vmax)
  {
    nb := 0;
    var v := vmax;
    while v > 0
      invariant nb + BitLength(v) == BitLength(vmax)
    {
      v := v / 2;
      nb := nb + 1;
    }
  }

  // Quadrants 1 and 2 share their count.
  function ClassOf(x: nat, nx: nat, ny: nat): (c: nat)
    requires ny > 0
  {
    (if x % ny >= Half(ny) then 1 else 0) + (if x / ny >= Half(nx) then 1 else 0)
  }

  // The largest of the first n elements in class c.
  function MaxOf(s: seq<int>, n: nat, nx: nat, ny: nat, c: nat): (v: nat)
    requires n <= |s| && ny > 0
    ensures forall x :: 0 <= x < n && ClassOf(x, nx, ny) == c ==> s[x] <= v
  {
    if n == 0 then 0 else
    var m := MaxOf(s, n - 1, nx, ny, c);
    if ClassOf(n - 1, nx, ny) == c && s[n - 1] > m then s[n - 1] else m
  }

  function Counts(s: seq<int>, nx: nat, ny: nat): PlaneCounts
    requires nx * ny <= |s| && ny > 0
  {
    var n := Cells(nx, ny);
    PlaneCounts(BitLength(MaxOf(s, n, nx, ny, 0)), BitLength(MaxOf(s, n, nx, ny, 1)), BitLength(MaxOf(s, n, nx, ny, 2)))
  }

  lemma CountsCover(s: seq<int>, nx: nat, ny: nat)
    requires IsImage(s, nx, ny) && forall x :: 0 <= x < nx * ny ==> s[x] >= 0
    ensures CountsSuffice(s, nx, ny, Counts(s, nx, ny))
  {
    hide BitLength;
    hide MaxOf;
    var nb := Counts(s, nx, ny);
    forall x | 0 <= x < nx * ny
      ensures 0 <= s[x] < Pow2(CountOf(nb, QuadOf(x, nx, ny)))
    {
      var c := ClassOf(x, nx, ny);
      assert c < 3 && s[x] <= MaxOf(s, Cells(nx, ny), nx, ny, c);
    }
  }

  lemma PlaceInRow(i: nat, j: nat, k: nat, ny: nat)
    requires j < ny && i == k * ny + j
    ensures i / ny == k && i % ny == j
  {
    QuotientUnique(i, ny, k, j);
  }

  lemma NextPlace(i: nat, j: nat, k: nat, ny: nat)
    requires j < ny && i == k * ny + j
    ensures j + 1 >= ny ==> i + 1 == (k + 1) * ny
  {
  }

  // The largest magnitude of each class.
  method MaxValues(a: array<int>, nx: nat, ny: nat) returns (v0: nat, v1: nat, v2: nat)
    requires a.Length == nx * ny && ny > 0
    ensures v0 == MaxOf(a[..], a.Length, nx, ny, 0) && v1 == MaxOf(a[..], a.Length, nx, ny, 1) &&
            v2 == MaxOf(a[..], a.Length, nx, ny, 2)
  {
    var nx2, ny2 := (nx + 1) / 2, (ny + 1) / 2;
    v0, v1, v2 := 0, 0, 0;
    var j, k := 0, 0;
    for i := 0 to a.Length
      invariant j < ny && i == k * ny + j
      invariant v0 == MaxOf(a[..], i, nx, ny, 0) && v1 == MaxOf(a[..], i, nx, ny, 1) && v2 == MaxOf(a[..], i, nx, ny, 2)
    {
      PlaceInRow(i, j, k, ny);
      var q := (if j >= ny2 then 1 else 0) + (if k >= nx2 then 1 else 0);
      if q == 0 && v0 < a[i] {
        v0 := a[i];
      } else if q == 1 && v1 < a[i] {
        v1 := a[i];
      } else if q == 2 && v2 < a[i] {
        v2 := a[i];
      }
      NextPlace(i, j, k, ny);
      j := j + 1;
      if j >= ny {
        j := 0;
        k := k + 1;
      }
    }
  }

  method CountPlanes(a: array<int>, nx: nat, ny: nat) returns (nb: PlaneCounts)
    requires a.Length == nx * ny && ny > 0
    ensures nb == Counts(a[..], nx, ny)
  {
    hide BitLength;
    hide MaxOf;
    var v0, v1, v2 := MaxValues(a, nx, ny);
    var n0 := CountBits(v0);
    var n1 := CountBits(v1);
    var n2 := CountBits(v2);
    nb := PlaneCounts(n0, n1, n2);
  }
}
