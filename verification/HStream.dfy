/**
  Byte streams by bit position: the bits from a position on, and what it means that a bit string is found there.
  Bytes past the end of a stream read as zero.
 */
module HStream {
  import opened Powers
  import opened Bits
  import opened MsbWriters

  type nybble = x: int | 0 <= x < 16

  // ---- bit strings at positions ----

  function ByteAt(s: seq<byte>, k: nat): byte
  {
    if k < |s| then s[k] else 0
  }

  // The n bits from position p.
  function Slice(s: seq<byte>, p: nat, n: nat): (b: bits)
    ensures |b| == n
    decreases n
  {
    if n == 0 then [] else Slice(s, p, n - 1) + [BitAt(s, p + n - 1)]
  }

  function BitAt(s: seq<byte>, p: nat): bool
  {
    Msb(ByteAt(s, p / 8), 8)[p % 8]
  }

  // The stream s holds the bits b from position p on.
  ghost predicate At(s: seq<byte>, p: nat, b: bits)
  {
    Slice(s, p, |b|) == b
  }

  function BitsAt(s: seq<byte>, p: nat, n: nat): (v: nat)
    ensures v < Pow2(n)
  {
    Value(Slice(s, p, n))
  }

  lemma FourBits(v: nat)
    requires v < Pow2(4)
    ensures v < 16
  {
  }

  lemma {:induction false} SliceSplit(s: seq<byte>, p: nat, a: nat, b: nat)
    ensures Slice(s, p, a + b) == Slice(s, p, a) + Slice(s, p + a, b)
    decreases b
  {
    hide Msb;
    if b > 0 {
      SliceSplit(s, p, a, b - 1);
      var x := [BitAt(s, p + a + b - 1)];
      assert Slice(s, p, a + b) == Slice(s, p, a + b - 1) + x;
      assert Slice(s, p + a, b) == Slice(s, p + a, b - 1) + x;
      hide BitAt;
      Associative(Slice(s, p, a), Slice(s, p + a, b - 1), x);
    } else {
      assert Slice(s, p, a) + [] == Slice(s, p, a);
    }
  }

  lemma AtSplit(s: seq<byte>, p: nat, a: bits, b: bits)
    ensures At(s, p, a + b) <==> At(s, p, a) && At(s, p + |a|, b)
  {
    hide Slice;
    SliceSplit(s, p, |a|, |b|);
    SplitEqual(Slice(s, p, |a|), Slice(s, p + |a|, |b|), a, b);
  }

  lemma SplitEqual(x: bits, y: bits, a: bits, b: bits)
    requires |x| == |a| && |y| == |b|
    ensures x + y == a + b <==> x == a && y == b
  {
    if x + y == a + b {
      assert (x + y)[..|a|] == (a + b)[..|a|];
      assert (x + y)[|a|..] == (a + b)[|a|..];
    }
  }

  lemma BitOfByte(s: seq<byte>, k: nat, i: nat)
    requires i < 8
    ensures BitAt(s, 8 * k + i) == Msb(ByteAt(s, k), 8)[i]
  {
    hide Msb;
    hide ByteAt;
    QuotientUnique(8 * k + i, 8, k, i);
  }

  lemma {:induction false} SliceOfByte(s: seq<byte>, k: nat, n: nat)
    requires n <= 8
    ensures Slice(s, 8 * k, n) == Msb(ByteAt(s, k), 8)[..n]
    decreases n
  {
    hide Msb;
    hide BitAt;
    hide ByteAt;
    if n > 0 {
      SliceOfByte(s, k, n - 1);
      BitOfByte(s, k, n - 1);
      var m := Msb(ByteAt(s, k), 8);
      assert m[..n] == m[..n - 1] + [m[n - 1]];
    }
  }

  lemma SliceByte(s: seq<byte>, k: nat)
    ensures Slice(s, 8 * k, 8) == Msb(ByteAt(s, k), 8)
  {
    SliceOfByte(s, k, 8);
    hide Msb;
    var m := Msb(ByteAt(s, k), 8);
    assert m[..8] == m;
  }

  // The bytes of b, found from byte k of s on, are its bits from position 8k on.
  lemma {:induction false} AtBytes(s: seq<byte>, k: nat, b: seq<byte>)
    requires k + |b| <= |s| && s[k..k + |b|] == b
    ensures At(s, 8 * k, Unpack(b))
    decreases |b|
  {
    hide Msb;
    hide Slice;
    if b == [] {
      EmptyAt(s, 8 * k);
    } else {
      var n := |b| - 1;
      assert s[k..k + n] == b[..n];
      AtBytes(s, k, b[..n]);
      SliceByte(s, k + n);
      assert s[k + n] == s[k..k + |b|][n] == b[n];
      AtSplit(s, 8 * k, Unpack(b[..n]), Msb(b[n], 8));
    }
  }

  lemma EmptyAt(s: seq<byte>, p: nat)
    ensures At(s, p, [])
  {
  }

  // ---- numbers at positions ----

  lemma ValueAt(s: seq<byte>, p: nat, v: nat, n: nat, k: nat)
    requires At(s, p, Msb(v, n)) && k <= n && v < Pow2(n)
    ensures BitsAt(s, p, k) == v / Pow2(n - k)
  {
    var h := v / Pow2(n - k);
    MsbSplit(v, k, n - k);
    hide Msb;
    AtSplit(s, p, Msb(h, k), Msb(v, n - k));
    ValueOfMsb(h, k);
    Pow2Add(k, n - k);
    QuotientSmall(v, Pow2(n - k), Pow2(k));
  }

  lemma QuotientSmall(v: nat, q: nat, m: nat)
    requires q > 0 && m > 0 && v < m * q
    ensures 0 <= v / q < m && v / q % m == v / q
  {
    var d := v / q;
    if d >= m {
      ProductGrows(d, m, q);
    }
  }

  lemma ProductGrows(d: nat, m: nat, q: nat)
    requires d >= m
    ensures d * q >= m * q
  {
  }

  lemma NextBit(s: seq<byte>, p: nat, n: nat)
    ensures BitsAt(s, p, n + 1) == 2 * BitsAt(s, p, n) + BitsAt(s, p + n, 1)
  {
    SliceSplit(s, p, n, 1);
    var b := Slice(s, p, n + 1);
    assert b[..n] == Slice(s, p, n);
    assert b[n] == Slice(s, p + n, 1)[0];
    assert Slice(s, p + n, 1)[..0] == [];
  }
}
