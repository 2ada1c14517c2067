/**
  Bit strings. A code of n bits is a sequence of n booleans, and a byte stream is the
  concatenation of its bytes' bits, most significant bit first (or, in the modules that
  say so, least significant bit first).
 */
module Bits {
  import opened Powers

  type byte = x: int | 0 <= x < 256

  type bits = seq<bool>

  // The n low bits of v, most significant first.
  function Msb(v: int, n: nat): (s: bits)
    ensures |s| == n
    decreases n
  {
    if n == 0 then [] else Msb(v / 2, n - 1) + [v % 2 == 1]
  }

  // The number that a bit string spells, most significant bit first.
  function Value(s: bits): (v: nat)
    ensures v < Pow2(|s|)
  {
    if s == [] then 0 else 2 * Value(s[..|s| - 1]) + (if s[|s| - 1] then 1 else 0)
  }

  function Zeros(n: nat): bits
  {
    seq(n, _ => false)
  }

  // The bits of a byte stream.
  function Unpack(b: seq<byte>): (s: bits)
    ensures |s| == 8 * |b|
  {
    if b == [] then [] else Unpack(b[..|b| - 1]) + Msb(b[|b| - 1], 8)
  }

  // b holds s, padded with zeros to a whole byte.
  predicate Packs(b: seq<byte>, s: bits)
  {
    8 * |b| - |s| in {0, 1, 2, 3, 4, 5, 6, 7} && Unpack(b) == s + Zeros(8 * |b| - |s|)
  }

  // ---- numbers ----

  lemma HalfPow(v: int, b: nat)
    requires b > 0
    ensures v / 2 / Pow2(b - 1) == v / Pow2(b)
  {
    DivDiv(v, 2, Pow2(b - 1));
  }

  lemma DivDiv(v: int, x: nat, y: nat)
    requires x > 0 && y > 0
    ensures x * y > 0 && v / x / y == v / (x * y)
  {
    var q, r := v / x, v % x;
    var p, t := q / y, q % y;
    assert v == x * (y * p + t) + r;
    DivBounds(v, x, y, p, t, r);
  }

  lemma DivBounds(v: int, x: nat, y: nat, p: int, t: int, r: int)
    requires x > 0 && y > 0 && 0 <= t < y && 0 <= r < x && v == x * (y * p + t) + r
    ensures x * y > 0 && v / (x * y) == p
  {
    assert x * (y * p + t) == (x * y) * p + x * t;
    assert x * t + r < x * y by {
      assert x * (t + 1) <= x * y;
      assert x * (t + 1) == x * t + x;
    }
    QuotientUnique(v, x * y, p, x * t + r);
  }

  // ---- joining and splitting ----

  // The high part and the low part of a code.
  lemma {:induction false} MsbSplit(v: int, a: nat, b: nat)
    ensures Msb(v, a + b) == Msb(v / Pow2(b), a) + Msb(v, b)
    decreases b
  {
    if b > 0 {
      MsbSplit(v / 2, a, b - 1);
      HalfPow(v, b);
      var hi, lo, last := Msb(v / Pow2(b), a), Msb(v / 2, b - 1), [v % 2 == 1];
      assert Msb(v, a + b) == (hi + lo) + last;
      assert (hi + lo) + last == hi + (lo + last);
    } else {
      assert Msb(v, b) == [];
    }
  }

  // Only the low n bits matter.
  lemma {:induction false} MsbLow(v: int, w: int, n: nat, k: int)
    requires w == v + k * Pow2(n)
    ensures Msb(w, n) == Msb(v, n)
    decreases n
  {
    if n > 0 {
      var h := k * Pow2(n - 1);
      assert w == v + 2 * h;
      MsbLow(v / 2, w / 2, n - 1, k);
    }
  }

  lemma MsbModulo(v: int, n: nat, m: nat)
    requires n <= m
    ensures Msb(v % Pow2(m), n) == Msb(v, n)
  {
    var q := v / Pow2(m);
    Pow2Add(m - n, n);
    ModuloAsShift(v, q, Pow2(m - n), Pow2(n));
    MsbLow(v % Pow2(m), v, n, q * Pow2(m - n));
  }

  lemma ModuloAsShift(v: int, q: int, x: nat, y: nat)
    requires x * y > 0 && q == v / (x * y)
    ensures v == v % (x * y) + (q * x) * y
  {
    assert (q * x) * y == q * (x * y);
  }

  // Appending a code of b bits to an accumulator.
  lemma MsbAppend(v: int, w: int, a: nat, b: nat)
    requires 0 <= w < Pow2(b)
    ensures Msb(v * Pow2(b) + w, a + b) == Msb(v, a) + Msb(w, b)
  {
    var x := v * Pow2(b) + w;
    QuotientUnique(x, Pow2(b), v, w);
    MsbSplit(x, a, b);
    MsbLow(w, x, b, v);
  }

  lemma {:induction false} ValueOfMsb(v: int, n: nat)
    ensures Value(Msb(v, n)) == v % Pow2(n)
    decreases n
  {
    if n > 0 {
      ValueOfMsb(v / 2, n - 1);
      var s := Msb(v, n);
      assert s[..n - 1] == Msb(v / 2, n - 1);
      HalfModulo(v, Pow2(n - 1));
    }
  }

  lemma HalfModulo(v: int, c: nat)
    requires c > 0
    ensures v % (2 * c) == 2 * (v / 2 % c) + v % 2
  {
    var q, r := v / 2 / c, v / 2 % c;
    QuotientUnique(v, 2 * c, q, 2 * r + v % 2);
  }

  // ---- byte streams ----

  lemma UnpackSnoc(b: seq<byte>, x: byte)
    ensures Unpack(b + [x]) == Unpack(b) + Msb(x, 8)
  {
    assert (b + [x])[..|b|] == b;
  }

  lemma {:induction false} UnpackConcat(b: seq<byte>, c: seq<byte>)
    ensures Unpack(b + c) == Unpack(b) + Unpack(c)
    decreases |c|
  {
    hide Msb;
    if c == [] {
      assert b + c == b;
    } else {
      var d, x := c[..|c| - 1], c[|c| - 1];
      UnpackConcat(b, d);
      UnpackSnoc(b + d, x);
      assert b + c == (b + d) + [x];
      Associative(Unpack(b), Unpack(d), Msb(x, 8));
    }
  }

  lemma Associative(s: bits, t: bits, w: bits)
    ensures (s + t) + w == s + (t + w)
  {
  }

  lemma UnpackCons(x: byte, c: seq<byte>)
    ensures Unpack([x] + c) == Msb(x, 8) + Unpack(c)
  {
    UnpackConcat([x], c);
    assert Unpack([x]) == Unpack([]) + Msb(x, 8) by {
      UnpackSnoc([], x);
      assert [] + [x] == [x];
    }
  }

  lemma {:induction false} MsbOfZero(n: nat)
    ensures Msb(0, n) == Zeros(n)
  {
    if n > 0 {
      MsbOfZero(n - 1);
    }
  }

  lemma EmptyLow(v: int, s: bits)
    ensures s + Msb(v, 0) == s
  {
  }

  // The padding behind a packed bit string.
  lemma PackedIs(b: seq<byte>, s: bits) returns (z: bits)
    requires Packs(b, s)
    ensures Unpack(b) == s + z && |s| <= 8 * |b| && |z| < 8
  {
    hide Unpack;
    z := Zeros(8 * |b| - |s|);
  }

  lemma ByteAbove(a: nat, b: byte, p: nat)
    requires a < p
    ensures a + b * p < p * 256
  {
    assert b * p <= 255 * p;
  }

  // ---- least significant bit first ----

  // The n low bits of v, least significant first.
  function Lsb(v: int, n: nat): (s: bits)
    ensures |s| == n
    decreases n
  {
    if n == 0 then [] else [v % 2 == 1] + Lsb(v / 2, n - 1)
  }

  // The number that a bit string spells, least significant bit first.
  function ValueLsb(s: bits): (v: nat)
    ensures v < Pow2(|s|)
  {
    if s == [] then 0 else 2 * ValueLsb(s[1..]) + (if s[0] then 1 else 0)
  }

  function UnpackLsb(b: seq<byte>): (s: bits)
    ensures |s| == 8 * |b|
  {
    if b == [] then [] else Lsb(b[0], 8) + UnpackLsb(b[1..])
  }

  lemma {:induction false} LsbSplit(v: int, a: nat, b: nat)
    ensures Lsb(v, a + b) == Lsb(v, a) + Lsb(v / Pow2(a), b)
    decreases a
  {
    if a > 0 {
      LsbSplit(v / 2, a - 1, b);
      HalfPow(v, a);
      Associative([v % 2 == 1], Lsb(v / 2, a - 1), Lsb(v / Pow2(a), b));
    } else {
      assert Lsb(v, 0) + Lsb(v, b) == Lsb(v, b);
    }
  }

  // A byte above the a bits already buffered.
  lemma LsbAppend(v: nat, w: nat, a: nat, b: nat)
    requires v < Pow2(a)
    ensures Lsb(v + w * Pow2(a), a + b) == Lsb(v, a) + Lsb(w, b)
  {
    var x := v + w * Pow2(a);
    QuotientUnique(x, Pow2(a), w, v);
    LsbSplit(x, a, b);
    LsbLow(v, x, a, w);
  }

  lemma {:induction false} LsbLow(v: int, w: int, n: nat, k: int)
    requires w == v + k * Pow2(n)
    ensures Lsb(w, n) == Lsb(v, n)
    decreases n
  {
    if n > 0 {
      assert w == v + 2 * (k * Pow2(n - 1));
      LsbLow(v / 2, w / 2, n - 1, k);
    }
  }

  lemma {:induction false} ValueOfLsb(v: int, n: nat)
    ensures ValueLsb(Lsb(v, n)) == v % Pow2(n)
    decreases n
  {
    if n > 0 {
      ValueOfLsb(v / 2, n - 1);
      assert Lsb(v, n)[1..] == Lsb(v / 2, n - 1);
      HalfModulo(v, Pow2(n - 1));
    }
  }
}
