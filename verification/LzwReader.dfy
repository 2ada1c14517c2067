/** The decoder's 64-bit accumulator, which serves codes of both bit orders. */
module LzwReader {
  import opened Powers
  import opened Bits
  import opened LzwSpec
  import opened MsbWriters

  const DWORD := 0x1_0000_0000_0000_0000

  lemma DwordIsPow()
    ensures DWORD == Pow2(64) && Pow2(8) == 256
  {
    WordIsPow();
    Pow2Add(32, 32);
  }

  // The unread bits: those buffered and those of the bytes not yet fetched.
  ghost function Pending(accum: nat, n: nat, input: seq<byte>, at: nat, lsb: bool): (s: bits)
    requires at <= |input|
    ensures |s| == n + 8 * (|input| - at)
  {
    (if lsb then Lsb(accum, n) else Msb(accum, n)) + StreamBits(input[at..], lsb)
  }

  ghost predicate Buffered(accum: nat, n: nat, lsb: bool)
  {
    accum < DWORD && (lsb ==> accum < Pow2(n))
  }

  function Fetch(accum: nat, n: nat, b: byte, lsb: bool): (r: nat)
  {
    if lsb then accum + b * Pow2(n) else accum * 256 % DWORD + b
  }

  lemma FetchLsb(accum: nat, n: nat, b: byte, tail: seq<byte>)
    requires n <= 20 && accum < Pow2(n)
    ensures accum + b * Pow2(n) < Pow2(n + 8) < DWORD
    ensures Lsb(accum + b * Pow2(n), n + 8) + UnpackLsb(tail) == Lsb(accum, n) + UnpackLsb([b] + tail)
  {
    LsbFits(accum, n, b);
    LsbAppend(accum, b, n, 8);
    assert ([b] + tail)[1..] == tail;
    hide Lsb;
    Associative(Lsb(accum, n), Lsb(b, 8), UnpackLsb(tail));
  }

  lemma AccumulateByte(accum: nat, n: nat, b: byte)
    requires n <= 20
    ensures Msb(accum * 256 % DWORD + b, n + 8) == Msb(accum, n) + Msb(b, 8)
  {
    DwordIsPow();
    hide Msb;
    Accumulate(accum, n, b, 8, 64);
  }

  lemma ModuloOfBytes(accum: nat, b: byte)
    ensures accum * 256 % DWORD + b < DWORD
  {
    WordIsPow();
    MultipleBelow(accum, 256, 0x100_0000_0000_0000);
  }

  lemma FetchMsb(accum: nat, n: nat, b: byte, tail: seq<byte>)
    requires n <= 20
    ensures Msb(accum * 256 % DWORD + b, n + 8) + Unpack(tail) == Msb(accum, n) + Unpack([b] + tail)
  {
    AccumulateByte(accum, n, b);
    UnpackCons(b, tail);
    hide Msb;
    hide Unpack;
    Associative(Msb(accum, n), Msb(b, 8), Unpack(tail));
  }

  lemma FetchKeepsBits(accum: nat, n: nat, input: seq<byte>, at: nat, lsb: bool)
    requires at < |input| && n <= 20 && Buffered(accum, n, lsb)
    ensures var a := Fetch(accum, n, input[at], lsb);
            Buffered(a, n + 8, lsb) && Pending(a, n + 8, input, at + 1, lsb) == Pending(accum, n, input, at, lsb)
  {
    if lsb {
      FetchKeepsLsb(accum, n, input, at);
    } else {
      FetchKeepsMsb(accum, n, input, at);
    }
  }

  lemma FetchKeepsLsb(accum: nat, n: nat, input: seq<byte>, at: nat)
    requires at < |input| && n <= 20 && Buffered(accum, n, true)
    ensures var a := Fetch(accum, n, input[at], true);
            Buffered(a, n + 8, true) && Pending(a, n + 8, input, at + 1, true) == Pending(accum, n, input, at, true)
  {
    var b, tail := input[at], input[at + 1..];
    assert input[at..] == [b] + tail;
    hide Lsb;
    hide UnpackLsb;
    hide Pow2;
    FetchLsb(accum, n, b, tail);
  }

  lemma FetchKeepsMsb(accum: nat, n: nat, input: seq<byte>, at: nat)
    requires at < |input| && n <= 20
    ensures var a := Fetch(accum, n, input[at], false);
            Buffered(a, n + 8, false) && Pending(a, n + 8, input, at + 1, false) == Pending(accum, n, input, at, false)
  {
    var b, tail := input[at], input[at + 1..];
    assert input[at..] == [b] + tail;
    var a := Fetch(accum, n, b, false);
    assert a == accum * 256 % DWORD + b;
    ModuloOfBytes(accum, b);
    FetchMsb(accum, n, b, tail);
    hide Msb;
    hide Unpack;
    hide Fetch;
    hide DWORD;
    assert Pending(a, n + 8, input, at + 1, false) == Msb(a, n + 8) + Unpack(tail);
  }

  lemma LsbFits(accum: nat, n: nat, b: byte)
    requires n <= 20 && accum < Pow2(n)
    ensures accum + b * Pow2(n) < Pow2(n + 8) < DWORD
  {
    DwordIsPow();
    Pow2Add(n, 8);
    ByteAbove(accum, b, Pow2(n));
    PowBelow(n + 8);
  }

  lemma PowBelow(n: nat)
    requires n <= 28
    ensures Pow2(n) < DWORD
  {
    DwordIsPow();
    Pow2Monotone(n, 63);
    assert Pow2(64) == 2 * Pow2(63);
  }

  function Extract(accum: nat, n: nat, size: nat, lsb: bool): nat
    requires size <= n
  {
    if lsb then accum % Pow2(size) else accum / Pow2(n - size) % Pow2(size)
  }

  function Drop(accum: nat, size: nat, lsb: bool): nat
  {
    QuotientAtMost(accum, Pow2(size));
    if lsb then accum / Pow2(size) else accum
  }

  lemma QuotientAtMost(v: nat, p: nat)
    requires p > 0
    ensures 0 <= v / p <= v
  {
    ProductAtLeast(p, v / p);
  }

  lemma ProductAtLeast(p: int, d: int)
    requires p > 0
    ensures d >= 0 ==> p * d >= d
    ensures d < 0 ==> p * d <= -p
  {
  }

  lemma CodeOfLsb(accum: nat, n: nat, size: nat, rest: bits)
    requires size <= n && accum < Pow2(n)
    ensures var s := Lsb(accum, n) + rest;
            accum % Pow2(size) == ValueLsb(s[..size]) && s[size..] == Lsb(accum / Pow2(size), n - size) + rest
    ensures 0 <= accum / Pow2(size) < Pow2(n - size)
  {
    LsbSplit(accum, size, n - size);
    ValueOfLsb(accum, size);
    Pow2Add(size, n - size);
    QuotientBelow(accum, Pow2(size), Pow2(n - size));
    hide Lsb;
    PrefixOf(Lsb(accum, size), Lsb(accum / Pow2(size), n - size), rest);
  }

  lemma CodeOfMsb(accum: nat, n: nat, size: nat, rest: bits)
    requires size <= n
    ensures var s := Msb(accum, n) + rest;
            accum / Pow2(n - size) % Pow2(size) == Value(s[..size]) && s[size..] == Msb(accum, n - size) + rest
  {
    MsbSplit(accum, size, n - size);
    ValueOfMsb(accum / Pow2(n - size), size);
    hide Msb;
    PrefixOf(Msb(accum / Pow2(n - size), size), Msb(accum, n - size), rest);
  }

  lemma CodeIsPrefix(accum: nat, n: nat, size: nat, input: seq<byte>, at: nat, lsb: bool)
    requires at <= |input| && size <= n && Buffered(accum, n, lsb)
    ensures var s := Pending(accum, n, input, at, lsb);
            size <= |s| && Extract(accum, n, size, lsb) == CodeOf(s[..size], lsb) &&
            Pending(Drop(accum, size, lsb), n - size, input, at, lsb) == s[size..]
    ensures Buffered(Drop(accum, size, lsb), n - size, lsb)
  {
    var rest := StreamBits(input[at..], lsb);
    hide Msb;
    hide Lsb;
    hide Pow2;
    hide StreamBits;
    if lsb {
      QuotientAtMost(accum, Pow2(size));
      CodeOfLsb(accum, n, size, rest);
    } else {
      CodeOfMsb(accum, n, size, rest);
    }
  }

  lemma PrefixOf(a: bits, b: bits, c: bits)
    ensures ((a + b) + c)[..|a|] == a && ((a + b) + c)[|a|..] == b + c
  {
  }

  lemma QuotientBelow(v: nat, p: nat, q: nat)
    requires p > 0 && v < p * q
    ensures 0 <= v / p < q
  {
    QuotientAtMost(v, p);
    ProductMonotone(p, q, v / p);
  }

  lemma ProductMonotone(p: nat, q: nat, d: int)
    ensures d >= q ==> p * d >= p * q
  {
  }

  class CodeReader {
    const input: seq<byte>
    const lsb: bool
    var accum: nat
    var accumBits: nat
    var inP: nat

    ghost predicate Valid()
      reads this
    {
      inP <= |input| && accumBits < 8 && Buffered(accum, accumBits, lsb)
    }

    ghost function Rest(): (s: bits)
      requires inP <= |input|
      reads this
      ensures |s| == accumBits + 8 * (|input| - inP)
    {
      Pending(accum, accumBits, input, inP, lsb)
    }

    constructor (input: seq<byte>, lsb: bool)
      ensures Valid() && Rest() == StreamBits(input, lsb) && this.input == input && this.lsb == lsb
    {
      this.input, this.lsb := input, lsb;
      accum, accumBits, inP := 0, 0, 0;
      new;
      assert input[0..] == input;
      assert [] + StreamBits(input, lsb) == StreamBits(input, lsb);
    }

    ghost predicate Ready()
      reads this
    {
      inP <= |input| && accumBits <= 20 && Buffered(accum, accumBits, lsb)
    }

    method FetchByte()
      requires Ready() && accumBits < 12 && inP < |input|
      modifies this
      ensures Ready() && Rest() == old(Rest()) && accumBits == old(accumBits) + 8
    {
      hide Buffered;
      hide Pending;
      hide Fetch;
      FetchKeepsBits(accum, accumBits, input, inP, lsb);
      accum := Fetch(accum, accumBits, input[inP], lsb);
      inP := inP + 1;
      accumBits := accumBits + 8;
    }

    method TakeCode(size: nat) returns (code: nat)
      requires Ready() && size <= accumBits
      modifies this
      ensures Ready() && accumBits == old(accumBits) - size
      ensures size <= |old(Rest())| && code == CodeOf(old(Rest())[..size], lsb) && Rest() == old(Rest())[size..]
    {
      hide Buffered;
      hide Pending;
      hide CodeOf;
      hide Extract;
      hide Drop;
      CodeIsPrefix(accum, accumBits, size, input, inP, lsb);
      code := Extract(accum, accumBits, size, lsb);
      accum := Drop(accum, size, lsb);
      accumBits := accumBits - size;
    }

    // Read one code of size bits; false means that fewer are left.
    method Read(size: nat) returns (ok: bool, code: nat)
      requires Valid() && 0 < size <= 12
      modifies this
      ensures inP <= |input|
      ensures ok == (size <= |old(Rest())|)
      ensures ok ==> Valid() && code == CodeOf(old(Rest())[..size], lsb) && Rest() == old(Rest())[size..]
    {
      code := 0;
      hide Buffered;
      hide Pending;
      hide CodeOf;
      while accumBits < size
        invariant Ready() && accumBits < size + 8 && Rest() == old(Rest())
        decreases size + 8 - accumBits
      {
        if inP == |input| {
          return false, 0;
        }
        FetchByte();
      }
      code := TakeCode(size);
      ok := true;
    }
  }
}
