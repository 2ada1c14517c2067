/** Powers of two, C's masks and shifts stated on unbounded integers, and the division facts that they need. */
module Powers {

  function Pow2(k: nat): (r: nat)
    ensures r > 0
  {
    if k == 0 then 1 else 2 * Pow2(k - 1)
  }

  // x & -m for a power of two m: the largest multiple of m that is at most x.
  function FloorTo(x: int, m: int): int
    requires m > 0
  {
    x - x % m
  }

  // The bit of x whose weight is b, as 0 or b: C's x & b for a power of two b.
  function LowBit(x: int, b: int): int
    requires b > 0
  {
    b * (x / b % 2)
  }

  // The least k with 2^k >= n, which the source computes in floating point.
  function Log2Up(n: nat): (k: nat)
    requires n >= 1
    ensures n <= Pow2(k)
    ensures k > 0 ==> Pow2(k - 1) < n
  {
    if n == 1 then 0 else Log2Up((n + 1) / 2) + 1
  }

  lemma {:induction false} Pow2Add(a: nat, b: nat)
    ensures Pow2(a + b) == Pow2(a) * Pow2(b)
    decreases a
  {
    if a != 0 {
      Pow2Add(a - 1, b);
      assert Pow2(a + b) == 2 * Pow2(a - 1 + b);
    }
  }

  lemma {:induction false} Pow2Monotone(a: nat, b: nat)
    requires a <= b
    ensures Pow2(a) <= Pow2(b)
    decreases b
  {
    if a < b {
      Pow2Monotone(a, b - 1);
    }
  }

  // The number of binary digits of v.
  function BitLength(v: nat): (n: nat)
    ensures v < Pow2(n)
    ensures v > 0 ==> n > 0 && Pow2(n - 1) <= v
  {
    if v == 0 then 0 else BitLength(v / 2) + 1
  }

  lemma BitLengthBelow(v: nat, m: nat)
    requires v < Pow2(m)
    ensures BitLength(v) <= m
  {
    if v > 0 && BitLength(v) > m {
      Pow2Monotone(m, BitLength(v) - 1);
    }
  }

  lemma BitLengthAbove(v: nat, m: nat)
    requires Pow2(m) <= v
    ensures BitLength(v) > m
  {
    if BitLength(v) <= m {
      Pow2Monotone(BitLength(v), m);
    }
  }

  lemma BytePow()
    ensures Pow2(8) == 256
  {
    assert Pow2(4) == 16;
    Pow2Add(4, 4);
  }

  // v << n.
  function Scaled(v: nat, n: nat): nat
  {
    ProductNotNegative(v, Pow2(n));
    v * Pow2(n)
  }

  function Abs(v: int): nat
  {
    if v < 0 then -v else v
  }

  function Least(a: int, b: int): int
  {
    if a < b then a else b
  }

  // ---- quotients and remainders ----

  lemma QuotientUnique(a: int, b: int, q: int, r: int)
    requires b > 0 && a == b * q + r && 0 <= r < b
    ensures a / b == q && a % b == r
  {
    var q', r' := a / b, a % b;
    assert b * (q - q') == r' - r;
    AtLeast(b, q - q');
  }

  lemma AtLeast(b: int, x: int)
    requires b > 0
    ensures x >= 1 ==> b * x >= b
    ensures x <= -1 ==> b * x <= -b
  {
  }

  lemma ModuloRange(v: int, m: nat)
    requires m > 0
    ensures 0 <= v % m < m
  {
  }

  lemma NotNegative(a: nat, b: nat)
    requires b > 0
    ensures a / b >= 0
  {
  }

  lemma ProductNotNegative(a: nat, b: nat)
    ensures a * b >= 0
  {
  }
}
