/**
  The shuffle that groups the coefficients of one line by order (even elements first,
  then odd) and its inverse, both in place on a strided line of a flat array.
 */
module HShuffle {
  import opened Grids

  // The element of the unshuffled line that a shuffled line holds at q.
  function Unshuffled(n: nat, q: nat): (p: nat)
    requires q < n
    ensures p < n
  {
    if q < (n + 1) / 2 then 2 * q else 2 * (q - (n + 1) / 2) + 1
  }

  // Where shuffling puts element p.
  function Shuffled(n: nat, p: nat): (q: nat)
    requires p < n
    ensures q < n
  {
    if p % 2 == 0 then p / 2 else (n + 1) / 2 + p / 2
  }

  lemma ShuffledInverse(n: nat, p: nat)
    requires p < n
    ensures Unshuffled(n, Shuffled(n, p)) == p
    ensures Shuffled(n, Unshuffled(n, p)) == p
  {
  }

  // ---- lines ----

  // The flat position of element q of the line.
  function Pos(start: nat, stride: nat, q: nat): nat
  {
    start + q * stride
  }

  ghost predicate Fits(s: seq<int>, start: nat, stride: nat, n: nat)
  {
    stride > 0 && n > 0 && Pos(start, stride, n - 1) < |s|
  }

  lemma PosInRange(s: seq<int>, start: nat, stride: nat, n: nat, q: nat)
    requires Fits(s, start, stride, n) && q < n
    ensures Pos(start, stride, q) < |s|
  {
    MulMonotone(q, n - 1, stride);
  }

  lemma PosDistinct(start: nat, stride: nat, p: nat, q: nat)
    requires stride > 0 && p != q
    ensures Pos(start, stride, p) != Pos(start, stride, q)
  {
    MulMonotone(p + 1, q, stride);
    MulMonotone(q + 1, p, stride);
  }

  ghost function LineOf(s: seq<int>, start: nat, stride: nat, n: nat): (l: seq<int>)
    requires Fits(s, start, stride, n)
    ensures |l| == n
  {
    seq(n, q requires 0 <= q < n => (PosInRange(s, start, stride, n, q); s[Pos(start, stride, q)]))
  }

  // s and t agree everywhere but on the line.
  ghost predicate SameOff(s: seq<int>, t: seq<int>, start: nat, stride: nat, n: nat)
  {
    |s| == |t| &&
    forall r :: 0 <= r < |s| && (forall q: nat :: q < n ==> r != Pos(start, stride, q)) ==> s[r] == t[r]
  }

  lemma SameOffTransitive(s: seq<int>, t: seq<int>, w: seq<int>, start: nat, stride: nat, n: nat)
    requires SameOff(s, t, start, stride, n) && SameOff(t, w, start, stride, n)
    ensures SameOff(s, w, start, stride, n)
  {
  }

  lemma SameOffReflexive(s: seq<int>, start: nat, stride: nat, n: nat)
    ensures SameOff(s, s, start, stride, n)
  {
  }

  lemma PosNext(start: nat, stride: nat, q: nat)
    ensures Pos(start, stride, 0) == start
    ensures Pos(start, stride, q + 1) == Pos(start, stride, q) + stride
    ensures Pos(start, stride, q + 2) == Pos(start, stride, q) + (stride + stride)
  {
  }

  lemma PosProduct(start: nat, stride: nat, q: nat)
    ensures Pos(start, stride, q) == start + stride * q
    ensures Pos(start, stride, 2 * q) == start + stride * q * 2
  {
    MulCommutes(stride, q);
  }

  lemma MulCommutes(x: int, y: int)
    ensures x * y == y * x && x * (2 * y) == x * y * 2 && 2 * y * x == x * y * 2
  {
  }

  lemma LineGet(s: seq<int>, start: nat, stride: nat, n: nat, q: nat)
    requires Fits(s, start, stride, n) && q < n
    ensures Pos(start, stride, q) < |s|
    ensures LineOf(s, start, stride, n)[q] == s[Pos(start, stride, q)]
  {
    PosInRange(s, start, stride, n, q);
  }

  lemma LineSet(s: seq<int>, start: nat, stride: nat, n: nat, q: nat, v: int)
    requires Fits(s, start, stride, n) && q < n
    ensures Pos(start, stride, q) < |s|
    ensures var t := s[Pos(start, stride, q) := v];
            Fits(t, start, stride, n) && SameOff(s, t, start, stride, n) &&
            LineOf(t, start, stride, n) == LineOf(s, start, stride, n)[q := v]
  {
    PosInRange(s, start, stride, n, q);
    var t := s[Pos(start, stride, q) := v];
    forall p: nat | p < n
      ensures LineOf(t, start, stride, n)[p] == LineOf(s, start, stride, n)[q := v][p]
    {
      PosInRange(s, start, stride, n, p);
      if p != q {
        PosDistinct(start, stride, p, q);
      }
    }
  }

  // One store a[p] := v at element q of the line.
  method Store(a: array<int>, start: nat, stride: nat, n: nat, p: int, v: int, ghost q: nat, ghost s: seq<int>)
    requires Fits(a[..], start, stride, n) && q < n && p == Pos(start, stride, q)
    requires SameOff(s, a[..], start, stride, n)
    modifies a
    ensures SameOff(s, a[..], start, stride, n) && Fits(a[..], start, stride, n)
    ensures LineOf(a[..], start, stride, n) == LineOf(old(a[..]), start, stride, n)[q := v]
  {
    LineSet(a[..], start, stride, n, q, v);
    a[p] := v;
    assert a[..] == old(a[..])[p := v];
    SameOffTransitive(s, old(a[..]), a[..], start, stride, n);
  }

  method Load(a: array<int>, start: nat, stride: nat, n: nat, p: int, ghost q: nat) returns (v: int)
    requires Fits(a[..], start, stride, n) && q < n && p == Pos(start, stride, q)
    ensures v == LineOf(a[..], start, stride, n)[q]
  {
    LineGet(a[..], start, stride, n, q);
    v := a[p];
  }

  // Copy the odd elements of the line to tmp.
  method SaveOdd(a: array<int>, start: nat, n: nat, stride: nat, tmp: array<int>)
    requires Fits(a[..], start, stride, n) && a != tmp && tmp.Length >= n / 2
    modifies tmp
    ensures forall k: nat :: k < n / 2 ==> tmp[k] == LineOf(a[..], start, stride, n)[2 * k + 1]
  {
    PosNext(start, stride, 0);
    assert n > 0;
    hide Pos;
    hide Fits;
    hide LineOf;
    hide SameOff;
    var pt := 0;
    var p1 := start + stride;
    var i := 1;
    while i < n
      invariant 1 <= i <= n + 1 && i == 2 * pt + 1
      invariant p1 == Pos(start, stride, i)
      invariant forall k: nat :: k < pt ==> tmp[k] == LineOf(a[..], start, stride, n)[2 * k + 1]
      invariant a[..] == old(a[..])
    {
      tmp[pt] := Load(a, start, stride, n, p1, i);
      PosNext(start, stride, i);
      pt := pt + 1;
      p1 := p1 + (stride + stride);
      i := i + 2;
    }
  }

  // Compress the even elements into the first half of the line.
  method CompressEven(a: array<int>, start: nat, n: nat, stride: nat, ghost s: seq<int>)
    requires Fits(a[..], start, stride, n) && SameOff(s, a[..], start, stride, n)
    modifies a
    ensures Fits(a[..], start, stride, n) && SameOff(s, a[..], start, stride, n)
    ensures forall q: nat :: q < (n + 1) / 2 ==>
              LineOf(a[..], start, stride, n)[q] == LineOf(old(a[..]), start, stride, n)[2 * q]
  {
    ghost var l := LineOf(a[..], start, stride, n);
    PosNext(start, stride, 0);
    PosNext(start, stride, 1);
    assert n > 0;
    hide Pos;
    hide Fits;
    hide LineOf;
    hide SameOff;
    var p1 := start + stride;
    var p2 := start + stride + stride;
    var i := 2;
    ghost var h := 1;
    while i < n
      invariant 2 <= i == 2 * h && (i <= n + 1 || n == 1)
      invariant p1 == Pos(start, stride, h) && p2 == Pos(start, stride, i)
      invariant Fits(a[..], start, stride, n) && SameOff(s, a[..], start, stride, n)
      invariant forall q: nat :: q < h && q < n ==> LineOf(a[..], start, stride, n)[q] == l[2 * q]
      invariant forall q: nat :: h <= q < n ==> LineOf(a[..], start, stride, n)[q] == l[q]
    {
      var v := Load(a, start, stride, n, p2, i);
      Store(a, start, stride, n, p1, v, h, s);
      PosNext(start, stride, h);
      PosNext(start, stride, i);
      p1 := p1 + stride;
      p2 := p2 + (stride + stride);
      i := i + 2;
      h := h + 1;
    }
  }

  // Put the saved elements into the second half of the line.
  method PlaceOdd(a: array<int>, start: nat, n: nat, stride: nat, tmp: array<int>, ghost s: seq<int>)
    requires Fits(a[..], start, stride, n) && SameOff(s, a[..], start, stride, n)
    requires a != tmp && tmp.Length >= n / 2
    modifies a
    ensures Fits(a[..], start, stride, n) && SameOff(s, a[..], start, stride, n)
    ensures forall q: nat :: q < n ==>
              LineOf(a[..], start, stride, n)[q] ==
              if q < (n + 1) / 2 then LineOf(old(a[..]), start, stride, n)[q] else tmp[q - (n + 1) / 2]
  {
    ghost var l := LineOf(a[..], start, stride, n);
    var half := (n + 1) / 2;
    PosProduct(start, stride, half);
    assert n > 0;
    hide Pos;
    hide Fits;
    hide LineOf;
    hide SameOff;
    var p1 := start + stride * half;
    var pt := 0;
    var i := 1;
    while i < n
      invariant 1 <= i <= n + 1 && i == 2 * pt + 1
      invariant p1 == Pos(start, stride, half + pt)
      invariant Fits(a[..], start, stride, n) && SameOff(s, a[..], start, stride, n)
      invariant forall q: nat :: q < half + pt && q < n ==>
                  LineOf(a[..], start, stride, n)[q] == if q < half then l[q] else tmp[q - half]
    {
      Store(a, start, stride, n, p1, tmp[pt], half + pt, s);
      PosNext(start, stride, half + pt);
      p1 := p1 + stride;
      pt := pt + 1;
      i := i + 2;
    }
  }

  method Shuffle(a: array<int>, start: nat, n: nat, stride: nat, tmp: array<int>)
    requires Fits(a[..], start, stride, n) && a != tmp && tmp.Length >= n / 2
    modifies a, tmp
    ensures SameOff(old(a[..]), a[..], start, stride, n) && Fits(a[..], start, stride, n)
    ensures forall q: nat :: q < n ==>
              LineOf(a[..], start, stride, n)[q] == LineOf(old(a[..]), start, stride, n)[Unshuffled(n, q)]
  {
    ghost var s := a[..];
    SameOffReflexive(s, start, stride, n);
    assert n > 0;
    hide Pos;
    hide Fits;
    hide LineOf;
    hide SameOff;
    SaveOdd(a, start, n, stride, tmp);
    CompressEven(a, start, n, stride, s);
    PlaceOdd(a, start, n, stride, tmp, s);
  }

  // Copy the second half of the line to tmp.
  method SaveHalf(a: array<int>, start: nat, n: nat, stride: nat, tmp: array<int>)
    requires Fits(a[..], start, stride, n) && a != tmp && tmp.Length >= n / 2
    modifies tmp
    ensures forall k: nat :: k < n / 2 ==> tmp[k] == LineOf(a[..], start, stride, n)[(n + 1) / 2 + k]
  {
    var nhalf := (n + 1) / 2;
    PosProduct(start, stride, nhalf);
    assert n > 0;
    hide Pos;
    hide Fits;
    hide LineOf;
    hide SameOff;
    var pt := 0;
    var p1 := start + stride * nhalf;
    var i := nhalf;
    while i < n
      invariant nhalf <= i <= n && pt == i - nhalf
      invariant p1 == Pos(start, stride, i)
      invariant forall k: nat :: k < pt ==> tmp[k] == LineOf(a[..], start, stride, n)[nhalf + k]
      invariant a[..] == old(a[..])
    {
      tmp[pt] := Load(a, start, stride, n, p1, i);
      PosNext(start, stride, i);
      p1 := p1 + stride;
      pt := pt + 1;
      i := i + 1;
    }
  }

  predicate Even(q: nat)
  {
    q % 2 == 0
  }

  function PairOf(q: nat): nat
  {
    q / 2
  }

  lemma PairBound()
    ensures forall q: nat :: PairOf(q) <= q && (Even(q) ==> 2 * PairOf(q) == q)
  {
  }

  lemma PairOfDouble(i: nat)
    ensures Even(2 * i) && PairOf(2 * i) == i
    ensures forall q: nat :: Even(q) && PairOf(q) == i ==> q == 2 * i
  {
  }

  lemma PosBefore(start: nat, stride: nat, i: nat)
    ensures i > 0 ==> Pos(start, stride, i - 1) == Pos(start, stride, i) - stride
    ensures i > 0 ==> Pos(start, stride, 2 * (i - 1)) == Pos(start, stride, 2 * i) - (stride + stride)
  {
    if i > 0 {
      PosNext(start, stride, i - 1);
      PosNext(start, stride, 2 * (i - 1));
    }
  }

  // Elements up to i are in place and the even ones past 2*i have been moved.
  ghost predicate SpreadFrom(w: seq<int>, l: seq<int>, n: nat, i: int)
  {
    |w| == |l| == n &&
    (forall q: nat :: q <= i && q < n ==> w[q] == l[q]) &&
    (forall q: nat :: q < n && Even(q) && PairOf(q) > i ==> PairOf(q) < n && w[q] == l[PairOf(q)])
  }

  method MoveOut(a: array<int>, start: nat, n: nat, stride: nat, p1: int, p2: int, ghost i: nat, ghost l: seq<int>,
                 ghost s: seq<int>)
    requires Fits(a[..], start, stride, n) && SameOff(s, a[..], start, stride, n) && 2 * i < n
    requires p2 == Pos(start, stride, i) && p1 == Pos(start, stride, 2 * i)
    requires SpreadFrom(LineOf(a[..], start, stride, n), l, n, i)
    modifies a
    ensures Fits(a[..], start, stride, n) && SameOff(s, a[..], start, stride, n)
    ensures SpreadFrom(LineOf(a[..], start, stride, n), l, n, i - 1)
  {
    PairOfDouble(i);
    hide Pos;
    hide Even;
    hide PairOf;
    hide Fits;
    hide LineOf;
    hide SameOff;
    var v := Load(a, start, stride, n, p2, i);
    Store(a, start, stride, n, p1, v, 2 * i, s);
  }

  // Distribute the first half of the line to the even elements, last element first.
  method SpreadEven(a: array<int>, start: nat, n: nat, stride: nat, ghost s: seq<int>)
    requires Fits(a[..], start, stride, n) && SameOff(s, a[..], start, stride, n)
    modifies a
    ensures Fits(a[..], start, stride, n) && SameOff(s, a[..], start, stride, n)
    ensures forall q: nat :: q < n && Even(q) ==>
              LineOf(a[..], start, stride, n)[q] == LineOf(old(a[..]), start, stride, n)[PairOf(q)]
  {
    ghost var l := LineOf(a[..], start, stride, n);
    var i := (n + 1) / 2 - 1;
    assert n > 0;
    PosProduct(start, stride, i);
    assert n > 0;
    PairBound();
    hide Pos;
    hide Even;
    hide PairOf;
    hide Fits;
    hide LineOf;
    hide SameOff;
    var p2 := start + stride * i;
    var p1 := start + (stride * i) * 2;
    while i >= 0
      invariant -1 <= i < (n + 1) / 2
      invariant i >= 0 ==> p2 == Pos(start, stride, i) && p1 == Pos(start, stride, 2 * i)
      invariant Fits(a[..], start, stride, n) && SameOff(s, a[..], start, stride, n)
      invariant SpreadFrom(LineOf(a[..], start, stride, n), l, n, i)
    {
      PosBefore(start, stride, i);
      MoveOut(a, start, n, stride, p1, p2, i, l, s);
      p2 := p2 - stride;
      p1 := p1 - (stride + stride);
      i := i - 1;
    }
  }

  lemma PairOfOdd(n: nat)
    ensures forall q: nat :: q < n && !Even(q) ==> PairOf(q) < n / 2
    ensures Even(0)
  {
  }

  lemma PairOfNext(k: nat)
    ensures !Even(2 * k + 1) && PairOf(2 * k + 1) == k && Even(2 * k + 2)
  {
  }

  // Distribute the saved elements to the odd elements.
  method SpreadOdd(a: array<int>, start: nat, n: nat, stride: nat, tmp: array<int>, ghost s: seq<int>)
    requires Fits(a[..], start, stride, n) && SameOff(s, a[..], start, stride, n)
    requires a != tmp && tmp.Length >= n / 2
    modifies a
    ensures Fits(a[..], start, stride, n) && SameOff(s, a[..], start, stride, n)
    ensures forall q: nat :: q < n ==>
              LineOf(a[..], start, stride, n)[q] ==
              if Even(q) then LineOf(old(a[..]), start, stride, n)[q] else tmp[PairOf(q)]
  {
    ghost var l := LineOf(a[..], start, stride, n);
    PosNext(start, stride, 0);
    assert n > 0;
    PairOfOdd(n);
    hide Pos;
    hide Even;
    hide PairOf;
    hide Fits;
    hide LineOf;
    hide SameOff;
    var pt := 0;
    var p1 := start + stride;
    var i := 1;
    while i < n
      invariant 1 <= i <= n + 1 && i == 2 * pt + 1
      invariant p1 == Pos(start, stride, i)
      invariant Fits(a[..], start, stride, n) && SameOff(s, a[..], start, stride, n)
      invariant forall q: nat :: q < n && (Even(q) || q < i) ==>
                  LineOf(a[..], start, stride, n)[q] == if Even(q) then l[q] else tmp[PairOf(q)]
    {
      PairOfNext(pt);
      Store(a, start, stride, n, p1, tmp[pt], i, s);
      PosNext(start, stride, i);
      p1 := p1 + (stride + stride);
      pt := pt + 1;
      i := i + 2;
    }
  }

  lemma ShuffledByPair(n: nat)
    ensures forall p: nat :: p < n ==> Shuffled(n, p) == if Even(p) then PairOf(p) else (n + 1) / 2 + PairOf(p)
    ensures forall p: nat :: p < n ==> if Even(p) then PairOf(p) < (n + 1) / 2 else PairOf(p) < n / 2
  {
  }

  method Unshuffle(a: array<int>, start: nat, n: nat, stride: nat, tmp: array<int>)
    requires Fits(a[..], start, stride, n) && a != tmp && tmp.Length >= n / 2
    modifies a, tmp
    ensures SameOff(old(a[..]), a[..], start, stride, n) && Fits(a[..], start, stride, n)
    ensures forall p: nat :: p < n ==>
              LineOf(a[..], start, stride, n)[p] == LineOf(old(a[..]), start, stride, n)[Shuffled(n, p)]
  {
    ghost var s := a[..];
    SameOffReflexive(s, start, stride, n);
    ShuffledByPair(n);
    assert n > 0;
    hide Shuffled;
    hide Even;
    hide PairOf;
    hide Pos;
    hide Fits;
    hide LineOf;
    hide SameOff;
    SaveHalf(a, start, n, stride, tmp);
    SpreadEven(a, start, n, stride, s);
    SpreadOdd(a, start, n, stride, tmp, s);
  }
}
