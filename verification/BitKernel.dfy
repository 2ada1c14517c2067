/** The 8x8 bit transpose inside one 64-bit word. */
module BitKernel {

  type octet = bv8

  function Trans8x8(x0: bv64): bv64
  {
    var t0 := (x0 ^ (x0 >> 7)) & 0x00AA00AA00AA00AA;
    var x1 := x0 ^ t0 ^ (t0 << 7);
    var t1 := (x1 ^ (x1 >> 14)) & 0x0000CCCC0000CCCC;
    var x2 := x1 ^ t1 ^ (t1 << 14);
    var t2 := (x2 ^ (x2 >> 28)) & 0x00000000F0F0F0F0;
    x2 ^ t2 ^ (t2 << 28)
  }

  function Joined(a0: octet, a1: octet, a2: octet, a3: octet, a4: octet, a5: octet, a6: octet, a7: octet): bv64
  {
    (a0 as bv64) | (a1 as bv64 << 8) | (a2 as bv64 << 16) | (a3 as bv64 << 24) |
    (a4 as bv64 << 32) | (a5 as bv64 << 40) | (a6 as bv64 << 48) | (a7 as bv64 << 56)
  }

  // Eight bytes as a little-endian word.
  function Load(a: seq<octet>): bv64
    requires |a| == 8
  {
    Joined(a[0], a[1], a[2], a[3], a[4], a[5], a[6], a[7])
  }

  function LowByte(x: bv64): octet
  {
    (x & 0xFF) as bv8
  }

  function ShiftByte(x: bv64): bv64
  {
    x >> 8
  }

  // x after k shifts by eight.
  function Shifted(x: bv64, k: nat): bv64
  {
    if k == 0 then x else ShiftByte(Shifted(x, k - 1))
  }

  // The byte that is lowest after k shifts.
  function ByteOf(x: bv64, k: nat): octet
  {
    LowByte(Shifted(x, k))
  }

  // Bit b of a byte.
  predicate Bit(v: octet, b: nat)
    requires b < 8
  {
    if b == 0 then v & 1 == 1 else
    if b == 1 then (v >> 1) & 1 == 1 else
    if b == 2 then (v >> 2) & 1 == 1 else
    if b == 3 then (v >> 3) & 1 == 1 else
    if b == 4 then (v >> 4) & 1 == 1 else
    if b == 5 then (v >> 5) & 1 == 1 else
    if b == 6 then (v >> 6) & 1 == 1 else
    (v >> 7) & 1 == 1
  }

  // A byte is its bits.
  lemma SameBits(u: octet, v: octet)
    requires forall b :: 0 <= b < 8 ==> Bit(u, b) == Bit(v, b)
    ensures u == v
  {
    assert Bit(u, 0) == Bit(v, 0) && Bit(u, 1) == Bit(v, 1) && Bit(u, 2) == Bit(v, 2) && Bit(u, 3) == Bit(v, 3);
    assert Bit(u, 4) == Bit(v, 4) && Bit(u, 5) == Bit(v, 5) && Bit(u, 6) == Bit(v, 6) && Bit(u, 7) == Bit(v, 7);
    BitsDecide(u, v);
  }

  lemma BitsDecide(u: octet, v: octet)
    requires u & 1 == v & 1 && (u >> 1) & 1 == (v >> 1) & 1 && (u >> 2) & 1 == (v >> 2) & 1 &&
             (u >> 3) & 1 == (v >> 3) & 1
    requires (u >> 4) & 1 == (v >> 4) & 1 && (u >> 5) & 1 == (v >> 5) & 1 && (u >> 6) & 1 == (v >> 6) & 1 &&
             (u >> 7) & 1 == (v >> 7) & 1
    ensures u == v
  {
  }

  function ByteAt(x: bv64, k: nat): octet
    requires k < 8
  {
    LowByte(ShiftedAt(x, k))
  }

  // The same shifts at once.
  function ShiftedAt(x: bv64, k: nat): bv64
    requires k < 8
  {
    if k == 0 then x else if k == 1 then x >> 8 else if k == 2 then x >> 16 else if k == 3 then x >> 24 else
    if k == 4 then x >> 32 else if k == 5 then x >> 40 else if k == 6 then x >> 48 else x >> 56
  }

  lemma Shifts(x: bv64)
    ensures ShiftByte(x) == x >> 8 && ShiftByte(x >> 8) == x >> 16 && ShiftByte(x >> 16) == x >> 24
    ensures ShiftByte(x >> 24) == x >> 32 && ShiftByte(x >> 32) == x >> 40 && ShiftByte(x >> 40) == x >> 48
    ensures ShiftByte(x >> 48) == x >> 56
  {
  }

  lemma ShiftStep(x: bv64, k: nat)
    requires k < 7
    ensures ShiftByte(ShiftedAt(x, k)) == ShiftedAt(x, k + 1)
  {
    hide ShiftByte;
    Shifts(x);
  }

  lemma {:induction false} ByteIs(x: bv64, k: nat)
    requires k < 8
    ensures Shifted(x, k) == ShiftedAt(x, k) && ByteOf(x, k) == ByteAt(x, k)
  {
    hide ShiftByte;
    hide LowByte;
    FirstShift(x);
    hide ShiftedAt;
    if k > 0 {
      ByteIs(x, k - 1);
      ShiftStep(x, k - 1);
    }
  }

  lemma FirstShift(x: bv64)
    ensures ShiftedAt(x, 0) == x
  {
  }

  // Bit c of byte r of y is bit r of byte c of x.
  ghost predicate RowTransposed(x: bv64, y: bv64, r: nat)
    requires r < 8
  {
    Bit(ByteAt(y, r), 0) == Bit(ByteAt(x, 0), r) && Bit(ByteAt(y, r), 1) == Bit(ByteAt(x, 1), r) &&
    Bit(ByteAt(y, r), 2) == Bit(ByteAt(x, 2), r) && Bit(ByteAt(y, r), 3) == Bit(ByteAt(x, 3), r) &&
    Bit(ByteAt(y, r), 4) == Bit(ByteAt(x, 4), r) && Bit(ByteAt(y, r), 5) == Bit(ByteAt(x, 5), r) &&
    Bit(ByteAt(y, r), 6) == Bit(ByteAt(x, 6), r) && Bit(ByteAt(y, r), 7) == Bit(ByteAt(x, 7), r)
  }

  lemma Word0(x: bv64)
    ensures (Trans8x8(x) >> 0) & 1 == (x >> 0) & 1 && (Trans8x8(x) >> 1) & 1 == (x >> 8) & 1
    ensures (Trans8x8(x) >> 2) & 1 == (x >> 16) & 1 && (Trans8x8(x) >> 3) & 1 == (x >> 24) & 1
    ensures (Trans8x8(x) >> 4) & 1 == (x >> 32) & 1 && (Trans8x8(x) >> 5) & 1 == (x >> 40) & 1
    ensures (Trans8x8(x) >> 6) & 1 == (x >> 48) & 1 && (Trans8x8(x) >> 7) & 1 == (x >> 56) & 1
  {
  }

  lemma Word1(x: bv64)
    ensures (Trans8x8(x) >> 8) & 1 == (x >> 1) & 1 && (Trans8x8(x) >> 9) & 1 == (x >> 9) & 1
    ensures (Trans8x8(x) >> 10) & 1 == (x >> 17) & 1 && (Trans8x8(x) >> 11) & 1 == (x >> 25) & 1
    ensures (Trans8x8(x) >> 12) & 1 == (x >> 33) & 1 && (Trans8x8(x) >> 13) & 1 == (x >> 41) & 1
    ensures (Trans8x8(x) >> 14) & 1 == (x >> 49) & 1 && (Trans8x8(x) >> 15) & 1 == (x >> 57) & 1
  {
  }

  lemma Word2(x: bv64)
    ensures (Trans8x8(x) >> 16) & 1 == (x >> 2) & 1 && (Trans8x8(x) >> 17) & 1 == (x >> 10) & 1
    ensures (Trans8x8(x) >> 18) & 1 == (x >> 18) & 1 && (Trans8x8(x) >> 19) & 1 == (x >> 26) & 1
    ensures (Trans8x8(x) >> 20) & 1 == (x >> 34) & 1 && (Trans8x8(x) >> 21) & 1 == (x >> 42) & 1
    ensures (Trans8x8(x) >> 22) & 1 == (x >> 50) & 1 && (Trans8x8(x) >> 23) & 1 == (x >> 58) & 1
  {
  }

  lemma Word3(x: bv64)
    ensures (Trans8x8(x) >> 24) & 1 == (x >> 3) & 1 && (Trans8x8(x) >> 25) & 1 == (x >> 11) & 1
    ensures (Trans8x8(x) >> 26) & 1 == (x >> 19) & 1 && (Trans8x8(x) >> 27) & 1 == (x >> 27) & 1
    ensures (Trans8x8(x) >> 28) & 1 == (x >> 35) & 1 && (Trans8x8(x) >> 29) & 1 == (x >> 43) & 1
    ensures (Trans8x8(x) >> 30) & 1 == (x >> 51) & 1 && (Trans8x8(x) >> 31) & 1 == (x >> 59) & 1
  {
  }

  lemma Word4(x: bv64)
    ensures (Trans8x8(x) >> 32) & 1 == (x >> 4) & 1 && (Trans8x8(x) >> 33) & 1 == (x >> 12) & 1
    ensures (Trans8x8(x) >> 34) & 1 == (x >> 20) & 1 && (Trans8x8(x) >> 35) & 1 == (x >> 28) & 1
    ensures (Trans8x8(x) >> 36) & 1 == (x >> 36) & 1 && (Trans8x8(x) >> 37) & 1 == (x >> 44) & 1
    ensures (Trans8x8(x) >> 38) & 1 == (x >> 52) & 1 && (Trans8x8(x) >> 39) & 1 == (x >> 60) & 1
  {
  }

  lemma Word5(x: bv64)
    ensures (Trans8x8(x) >> 40) & 1 == (x >> 5) & 1 && (Trans8x8(x) >> 41) & 1 == (x >> 13) & 1
    ensures (Trans8x8(x) >> 42) & 1 == (x >> 21) & 1 && (Trans8x8(x) >> 43) & 1 == (x >> 29) & 1
    ensures (Trans8x8(x) >> 44) & 1 == (x >> 37) & 1 && (Trans8x8(x) >> 45) & 1 == (x >> 45) & 1
    ensures (Trans8x8(x) >> 46) & 1 == (x >> 53) & 1 && (Trans8x8(x) >> 47) & 1 == (x >> 61) & 1
  {
  }

  lemma Word6(x: bv64)
    ensures (Trans8x8(x) >> 48) & 1 == (x >> 6) & 1 && (Trans8x8(x) >> 49) & 1 == (x >> 14) & 1
    ensures (Trans8x8(x) >> 50) & 1 == (x >> 22) & 1 && (Trans8x8(x) >> 51) & 1 == (x >> 30) & 1
    ensures (Trans8x8(x) >> 52) & 1 == (x >> 38) & 1 && (Trans8x8(x) >> 53) & 1 == (x >> 46) & 1
    ensures (Trans8x8(x) >> 54) & 1 == (x >> 54) & 1 && (Trans8x8(x) >> 55) & 1 == (x >> 62) & 1
  {
  }

  lemma Word7(x: bv64)
    ensures (Trans8x8(x) >> 56) & 1 == (x >> 7) & 1 && (Trans8x8(x) >> 57) & 1 == (x >> 15) & 1
    ensures (Trans8x8(x) >> 58) & 1 == (x >> 23) & 1 && (Trans8x8(x) >> 59) & 1 == (x >> 31) & 1
    ensures (Trans8x8(x) >> 60) & 1 == (x >> 39) & 1 && (Trans8x8(x) >> 61) & 1 == (x >> 47) & 1
    ensures (Trans8x8(x) >> 62) & 1 == (x >> 55) & 1 && (Trans8x8(x) >> 63) & 1 == (x >> 63) & 1
  {
  }

  lemma Row0(x: bv64)
    ensures RowTransposed(x, Trans8x8(x), 0)
  {
    hide Trans8x8;
    Word0(x);
  }

  lemma Row1(x: bv64)
    ensures RowTransposed(x, Trans8x8(x), 1)
  {
    hide Trans8x8;
    Word1(x);
  }

  lemma Row2(x: bv64)
    ensures RowTransposed(x, Trans8x8(x), 2)
  {
    hide Trans8x8;
    Word2(x);
  }

  lemma Row3(x: bv64)
    ensures RowTransposed(x, Trans8x8(x), 3)
  {
    hide Trans8x8;
    Word3(x);
  }

  lemma Row4(x: bv64)
    ensures RowTransposed(x, Trans8x8(x), 4)
  {
    hide Trans8x8;
    Word4(x);
  }

  lemma Row5(x: bv64)
    ensures RowTransposed(x, Trans8x8(x), 5)
  {
    hide Trans8x8;
    Word5(x);
  }

  lemma Row6(x: bv64)
    ensures RowTransposed(x, Trans8x8(x), 6)
  {
    hide Trans8x8;
    Word6(x);
  }

  lemma Row7(x: bv64)
    ensures RowTransposed(x, Trans8x8(x), 7)
  {
    hide Trans8x8;
    Word7(x);
  }

  lemma AnyRow(x: bv64, r: nat)
    requires r < 8
    ensures RowTransposed(x, Trans8x8(x), r)
  {
    hide RowTransposed;
    hide Trans8x8;
    if r == 0 {
      Row0(x);
    } else if r == 1 {
      Row1(x);
    } else if r == 2 {
      Row2(x);
    } else if r == 3 {
      Row3(x);
    } else if r == 4 {
      Row4(x);
    } else if r == 5 {
      Row5(x);
    } else if r == 6 {
      Row6(x);
    } else {
      Row7(x);
    }
  }

  lemma JoinedBytes(a0: octet, a1: octet, a2: octet, a3: octet, a4: octet, a5: octet, a6: octet, a7: octet)
    ensures var x := Joined(a0, a1, a2, a3, a4, a5, a6, a7);
            LowByte(x) == a0 && LowByte(x >> 8) == a1 && LowByte(x >> 16) == a2 && LowByte(x >> 24) == a3 &&
            LowByte(x >> 32) == a4 && LowByte(x >> 40) == a5 && LowByte(x >> 48) == a6 && LowByte(x >> 56) == a7
  {
  }

  lemma Loaded(a: seq<octet>, c: nat)
    requires |a| == 8 && c < 8
    ensures ByteAt(Load(a), c) == a[c]
  {
    var a0, a1, a2, a3, a4, a5, a6, a7 := a[0], a[1], a[2], a[3], a[4], a[5], a[6], a[7];
    ByteOfJoined(a0, a1, a2, a3, a4, a5, a6, a7, c);
    hide Joined;
    hide ByteAt;
  }

  lemma ByteOfJoined(a0: octet, a1: octet, a2: octet, a3: octet, a4: octet, a5: octet, a6: octet, a7: octet, c: nat)
    requires c < 8
    ensures ByteAt(Joined(a0, a1, a2, a3, a4, a5, a6, a7), c) == Nth(a0, a1, a2, a3, a4, a5, a6, a7, c)
  {
    hide Joined;
    hide LowByte;
    JoinedBytes(a0, a1, a2, a3, a4, a5, a6, a7);
  }

  function Nth(a0: octet, a1: octet, a2: octet, a3: octet, a4: octet, a5: octet, a6: octet, a7: octet, c: nat): octet
  {
    if c == 0 then a0 else if c == 1 then a1 else if c == 2 then a2 else if c == 3 then a3 else
    if c == 4 then a4 else if c == 5 then a5 else if c == 6 then a6 else a7
  }

  // Bit c of row r of the transposed word is bit r of byte c.
  lemma Kernel(a: seq<octet>, r: nat, c: nat)
    requires |a| == 8 && r < 8 && c < 8
    ensures Bit(ByteOf(Trans8x8(Load(a)), r), c) == Bit(a[c], r)
  {
    hide Load;
    hide Trans8x8;
    hide ByteOf;
    hide ByteAt;
    hide Bit;
    var x := Load(a);
    ByteIs(Trans8x8(x), r);
    Loaded(a, c);
    AnyRow(x, r);
  }
}
