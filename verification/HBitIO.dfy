/** The bit reader of the H-compress decoder and the bit writer of its encoder. */
module HBitIO {
  import opened Powers
  import opened Bits
  import opened MsbWriters
  import opened HStream

  // ---- shared arithmetic ----

  // The next n of n + r pending bits.
  function TopBits(buffer: nat, r: nat, n: nat): (v: nat)
    ensures v < Pow2(n)
  {
    ModuloRange(buffer / Pow2(r), Pow2(n));
    buffer / Pow2(r) % Pow2(n)
  }

  lemma TakeBits(buffer: nat, r: nat, n: nat, s: seq<byte>, p: nat)
    requires At(s, p, Msb(buffer, n + r))
    ensures TopBits(buffer, r, n) == BitsAt(s, p, n) && At(s, p + n, Msb(buffer, r))
  {
    MsbSplit(buffer, n, r);
    hide Msb;
    AtSplit(s, p, Msb(buffer / Pow2(r), n), Msb(buffer, r));
    ValueOfMsb(buffer / Pow2(r), n);
  }

  function Shift8(buffer: nat, b: byte): (r: nat)
    ensures r < WORD
  {
    WordIsPow();
    MultipleBelow(buffer, 256, 0x100_0000);
    buffer * 256 % WORD + b
  }

  lemma ShiftKeepsBits(buffer: nat, r: nat, b: byte)
    requires r <= 16
    ensures Msb(Shift8(buffer, b), r + 8) == Msb(buffer, r) + Msb(b, 8)
  {
    WordIsPow();
    hide Msb;
    Accumulate(buffer, r, b, 8, 32);
  }

  lemma FetchBits(buffer: nat, r: nat, s: seq<byte>, p: nat, k: nat)
    requires r <= 16 && At(s, p, Msb(buffer, r)) && p + r == 8 * k
    ensures At(s, p, Msb(Shift8(buffer, ByteAt(s, k)), r + 8))
  {
    hide Msb;
    hide Shift8;
    hide At;
    hide ByteAt;
    var b := ByteAt(s, k);
    ShiftKeepsBits(buffer, r, b);
    AtByte(s, k, b);
    AtSplit(s, p, Msb(buffer, r), Msb(b, 8));
  }

  lemma AtByte(s: seq<byte>, k: nat, b: byte)
    requires b == ByteAt(s, k)
    ensures At(s, 8 * k, Msb(b, 8))
  {
    SliceByte(s, k);
    hide Msb;
    hide Slice;
  }

  // The nybbles of an array, most significant bit first.
  function Nybbles(s: seq<nybble>): (b: bits)
    ensures |b| == 4 * |s|
  {
    if s == [] then [] else Nybbles(s[..|s| - 1]) + Msb(s[|s| - 1], 4)
  }

  lemma NybblesSnoc(s: seq<nybble>, v: nybble)
    ensures Nybbles(s + [v]) == Nybbles(s) + Msb(v, 4)
  {
    assert (s + [v])[..|s|] == s;
  }

  // ---- reader ----

  class BitReader {
    const infile: seq<byte>
    var nextchar: nat
    var buffer2: nat
    var bitsToGo: nat

    // The unread bits of the current buffer are the next bits of the input.
    ghost predicate Buffered()
      reads this
    {
      bitsToGo <= 8 * nextchar && At(infile, 8 * nextchar - bitsToGo, Msb(buffer2, bitsToGo))
    }

    ghost predicate Valid()
      reads this
    {
      bitsToGo <= 8 && Buffered()
    }

    ghost function Pos(): int
      reads this
    {
      8 * nextchar - bitsToGo
    }

    // A reader of s from byte k on.
    constructor (s: seq<byte>, k: nat)
      ensures Valid() && Pos() == 8 * k && bitsToGo == 0 && infile == s
    {
      infile := s;
      nextchar, buffer2, bitsToGo := k, 0, 0;
    }

    // Buffer one more byte, above the pending bits.
    method Fetch()
      requires Buffered() && bitsToGo <= 16
      modifies this
      ensures nextchar == old(nextchar) + 1 && bitsToGo == old(bitsToGo) + 8 && Buffered()
    {
      hide At;
      hide Msb;
      hide Shift8;
      hide ByteAt;
      FetchBits(buffer2, bitsToGo, infile, 8 * nextchar - bitsToGo, nextchar);
      buffer2 := Shift8(buffer2, ByteAt(infile, nextchar));
      nextchar := nextchar + 1;
      bitsToGo := bitsToGo + 8;
    }

    method Take(n: nat) returns (v: nat)
      requires n <= bitsToGo && Buffered()
      modifies this`bitsToGo
      ensures Buffered() && bitsToGo == old(bitsToGo) - n
      ensures v == BitsAt(infile, 8 * nextchar - old(bitsToGo), n)
    {
      hide At;
      hide Msb;
      hide TopBits;
      hide BitsAt;
      TakeBits(buffer2, bitsToGo - n, n, infile, 8 * nextchar - bitsToGo);
      bitsToGo := bitsToGo - n;
      v := TopBits(buffer2, bitsToGo, n);
    }

    // Drop what is left of the current byte.
    method Start()
      modifies this`bitsToGo
      ensures Valid() && bitsToGo == 0 && Pos() == 8 * nextchar
    {
      bitsToGo := 0;
    }

    method InputNbits(n: nat) returns (v: nat)
      requires Valid() && 0 < n <= 8
      modifies this
      ensures Valid() && bitsToGo <= 7 && Pos() == old(Pos()) + n
      ensures old(Pos()) >= 0 && v == BitsAt(infile, old(Pos()), n)
    {
      hide Buffered;
      hide BitsAt;
      PendingBelow();
      if bitsToGo < n {
        Fetch();
      }
      v := Take(n);
    }

    lemma PendingBelow()
      ensures Buffered() ==> bitsToGo <= 8 * nextchar
    {
    }

    method InputBit() returns (v: nat)
      requires Valid()
      modifies this
      ensures Valid() && bitsToGo <= 7 && Pos() == old(Pos()) + 1
      ensures old(Pos()) >= 0 && v == BitsAt(infile, old(Pos()), 1)
    {
      hide Buffered;
      hide BitsAt;
      PendingBelow();
      if bitsToGo == 0 {
        Refill();
      }
      v := Take(1);
    }

    method Refill()
      requires bitsToGo == 0
      modifies this
      ensures Buffered() && bitsToGo == 8 && nextchar == old(nextchar) + 1
    {
      hide At;
      hide Msb;
      hide ByteAt;
      AtByte(infile, nextchar, ByteAt(infile, nextchar));
      buffer2 := ByteAt(infile, nextchar);
      nextchar := nextchar + 1;
      bitsToGo := 8;
    }

    method InputNybble() returns (v: nybble)
      requires Valid()
      modifies this
      ensures Valid() && bitsToGo <= 7 && Pos() == old(Pos()) + 4
      ensures old(Pos()) >= 0 && v == BitsAt(infile, old(Pos()), 4)
    {
      hide Buffered;
      hide BitsAt;
      hide Pow2;
      var c := InputNbits(4);
      FourBits(c);
      v := c;
    }

    // Two nybbles from the pending bits and one more byte.
    method InputPair() returns (v: nybble, w: nybble)
      requires Valid() && bitsToGo <= 7
      modifies this
      ensures Valid() && bitsToGo <= 7 && Pos() == old(Pos()) + 8 && old(Pos()) >= 0
      ensures v == BitsAt(infile, old(Pos()), 4) && w == BitsAt(infile, old(Pos()) + 4, 4)
    {
      hide Buffered;
      hide BitsAt;
      PendingBelow();
      Fetch();
      var c := Take(4);
      var d := Take(4);
      FourBits(c);
      FourBits(d);
      v, w := c, d;
    }

    // n nybbles into the front of a.
    method InputNnybble(n: nat, a: array<nybble>)
      requires Valid() && 0 < n <= a.Length
      modifies this, a
      ensures Valid() && bitsToGo <= 7 && Pos() == old(Pos()) + 4 * n && old(Pos()) >= 0
      ensures forall k :: 0 <= k < n ==> a[k] == BitsAt(infile, old(Pos()) + 4 * k, 4)
    {
      hide Buffered;
      hide BitsAt;
      PendingBelow();
      ghost var p := Pos();
      if n == 1 {
        a[0] := InputNybble();
        return;
      }
      if bitsToGo == 8 {
        StepBack();
      }
      var kk := 0;
      for ii := 0 to n / 2
        invariant Valid() && bitsToGo <= 7 && kk == 2 * ii && Pos() == p + 4 * kk
        invariant forall k :: 0 <= k < kk ==> a[k] == BitsAt(infile, p + 4 * k, 4)
      {
        var v, w := InputPair();
        a[kk], a[kk + 1] := v, w;
        kk := kk + 2;
      }
      if kk != n {
        a[n - 1] := InputNybble();
      }
    }

    // A whole byte is pending: backspace, to read it again.
    method StepBack()
      requires Valid() && bitsToGo == 8
      modifies this
      ensures Valid() && bitsToGo == 0 && Pos() == old(Pos())
    {
      hide Slice;
      hide Msb;
      nextchar := nextchar - 1;
      bitsToGo := 0;
      Drained();
    }

    lemma Drained()
      ensures bitsToGo == 0 ==> Buffered()
    {
    }
  }

  // ---- writer ----

  // Push the low n bits of v onto the buffer.
  function Push(buffer: nat, v: int, n: nat): (r: nat)
  {
    ModuloRange(v, Pow2(n));
    ModuloRange(buffer * Pow2(n), WORD);
    buffer * Pow2(n) % WORD + v % Pow2(n)
  }

  lemma PushBits(buffer: nat, pending: nat, v: int, n: nat)
    requires pending + n <= 32
    ensures Msb(Push(buffer, v, n), pending + n) == Msb(buffer, pending) + Msb(v, n)
  {
    WordIsPow();
    ModuloRange(v, Pow2(n));
    MsbModulo(v, n, n);
    hide Msb;
    Accumulate(buffer, pending, v % Pow2(n), n, 32);
  }

  function Joined(v: int, w: int): int
  {
    v % 16 * 16 + w % 16
  }

  lemma JoinedBits(v: int, w: int)
    ensures Msb(Joined(v, w), 8) == Msb(v, 4) + Msb(w, 4)
  {
    hide Msb;
    hide Pow2;
    Sixteen();
    MsbModulo(v, 4, 4);
    MsbModulo(w, 4, 4);
    MsbAppend(v % 16, w % 16, 4, 4);
  }

  lemma Sixteen()
    ensures Pow2(4) == 16
  {
  }

  class BitWriter {
    var out: seq<byte>
    var buffer2: nat
    var bitsToGo2: int
    ghost var written: bits

    ghost predicate Pending(n: int)
      reads `out, `buffer2, `written
    {
      n >= 0 && written == Unpack(out) + Msb(buffer2, n)
    }

    ghost predicate Valid()
      reads this
    {
      1 <= bitsToGo2 <= 8 && Pending(8 - bitsToGo2)
    }

    constructor (header: seq<byte>)
      ensures Valid() && written == Unpack(header)
    {
      out := header;
      buffer2, bitsToGo2 := 0, 8;
      written := Unpack(header);
      new;
      assert Unpack(header) + [] == Unpack(header);
    }

    method PushN(v: int, n: nat)
      requires Valid() && n <= 8
      modifies this`buffer2, this`written
      ensures Pending(8 - bitsToGo2 + n) && written == old(written) + Msb(v, n)
    {
      hide Msb;
      hide Unpack;
      hide Push;
      PushBits(buffer2, 8 - bitsToGo2, v, n);
      Associative(Unpack(out), Msb(buffer2, 8 - bitsToGo2), Msb(v, n));
      written := written + Msb(v, n);
      buffer2 := Push(buffer2, v, n);
    }

    // Put out the top 8 of n + 8 pending bits.
    method PutByte(n: nat)
      requires Pending(n + 8)
      modifies this`out
      ensures Pending(n)
    {
      TakeByte(buffer2, n + 8);
      var b := buffer2 / Pow2(n) % 256;
      hide Msb;
      UnpackSnoc(out, b);
      hide Unpack;
      Associative(Unpack(out), Msb(b, 8), Msb(buffer2, n));
      out := out + [b];
    }

    method OutputNbits(v: int, n: nat)
      requires Valid() && 0 < n <= 8
      modifies this
      ensures Valid() && written == old(written) + Msb(v, n)
    {
      hide Pending;
      hide Msb;
      PushN(v, n);
      bitsToGo2 := bitsToGo2 - n;
      if bitsToGo2 <= 0 {
        PutByte(-bitsToGo2);
        bitsToGo2 := bitsToGo2 + 8;
      }
    }

    method OutputNybble(v: int)
      requires Valid()
      modifies this
      ensures Valid() && written == old(written) + Msb(v, 4)
      ensures bitsToGo2 == if old(bitsToGo2) <= 4 then old(bitsToGo2) + 4 else old(bitsToGo2) - 4
    {
      hide Pending;
      hide Msb;
      PushN(v, 4);
      bitsToGo2 := bitsToGo2 - 4;
      if bitsToGo2 <= 0 {
        PutByte(-bitsToGo2);
        bitsToGo2 := bitsToGo2 + 8;
      }
    }

    // Two nybbles, which leave as many bits pending as before.
    method OutputPair(v: int, w: int)
      requires Valid()
      modifies this
      ensures Valid() && bitsToGo2 == old(bitsToGo2) && written == old(written) + (Msb(v, 4) + Msb(w, 4))
    {
      hide Pending;
      hide Msb;
      JoinedBits(v, w);
      hide Joined;
      PushN(Joined(v, w), 8);
      PutByte(8 - bitsToGo2);
    }

    // Two nybbles when nothing is pending.
    method OutputAligned(v: int, w: int)
      requires Valid() && bitsToGo2 == 8
      modifies this
      ensures Valid() && bitsToGo2 == 8 && written == old(written) + (Msb(v, 4) + Msb(w, 4))
    {
      JoinedBits(v, w);
      var b := Joined(v, w);
      UnpackSnoc(out, b);
      assert Msb(buffer2, 0) == [];
      hide Msb;
      hide Unpack;
      hide Joined;
      assert Unpack(out) + [] == Unpack(out);
      out := out + [b];
      written := written + Msb(b, 8);
      assert Unpack(out) + [] == Unpack(out);
    }

    ghost predicate Wrote(before: bits, a: array<nybble>, k: nat)
      requires k <= a.Length
      reads this, a
    {
      written == before + Nybbles(a[..k])
    }

    lemma WrotePair(before: bits, a: array<nybble>, k: nat, w0: bits)
      requires k + 2 <= a.Length && w0 == before + Nybbles(a[..k])
      requires written == w0 + (Msb(a[k], 4) + Msb(a[k + 1], 4))
      ensures Wrote(before, a, k + 2)
    {
      hide Msb;
      hide Nybbles;
      hide Pow2;
      NybblesSnoc(a[..k], a[k]);
      NybblesSnoc(a[..k] + [a[k]], a[k + 1]);
      assert a[..k + 2] == (a[..k] + [a[k]]) + [a[k + 1]];
      Associative(Nybbles(a[..k]), Msb(a[k], 4), Msb(a[k + 1], 4));
      Associative(before, Nybbles(a[..k]), Msb(a[k], 4) + Msb(a[k + 1], 4));
    }

    lemma WroteOne(before: bits, a: array<nybble>, k: nat, w0: bits)
      requires k < a.Length && w0 == before + Nybbles(a[..k])
      requires written == w0 + Msb(a[k], 4)
      ensures Wrote(before, a, k + 1)
    {
      NybblesSnoc(a[..k], a[k]);
      assert a[..k + 1] == a[..k] + [a[k]];
      hide Msb;
      hide Nybbles;
      Associative(before, Nybbles(a[..k]), Msb(a[k], 4));
    }

    method OutputNext(a: array<nybble>, k: nat, ghost before: bits)
      requires Valid() && k < a.Length && Wrote(before, a, k)
      modifies this
      ensures Valid() && Wrote(before, a, k + 1)
      ensures bitsToGo2 == if old(bitsToGo2) <= 4 then old(bitsToGo2) + 4 else old(bitsToGo2) - 4
    {
      hide Pending;
      hide Msb;
      hide Nybbles;
      ghost var w0 := written;
      OutputNybble(a[k]);
      WroteOne(before, a, k, w0);
    }

    // The n nybbles at the front of a.
    method OutputNnybble(n: nat, a: array<nybble>)
      requires Valid() && 0 < n <= a.Length
      modifies this
      ensures Valid() && written == old(written) + Nybbles(a[..n])
    {
      ghost var before := written;
      assert Nybbles(a[..0]) == [] && before + [] == before;
      hide Pending;
      hide Msb;
      hide Nybbles;
      var kk := 0;
      if n == 1 {
        OutputNext(a, 0, before);
        return;
      }
      if bitsToGo2 <= 4 {
        OutputNext(a, 0, before);
        kk := 1;
        if n == 2 {
          OutputNext(a, 1, before);
          return;
        }
      }
      kk := OutputPairs(n, a, kk, before);
      if kk != n {
        OutputNext(a, n - 1, before);
      }
    }

    // All the whole pairs from position start on.
    method OutputPairs(n: nat, a: array<nybble>, start: nat, ghost before: bits) returns (kk: nat)
      requires Valid() && start < n <= a.Length && Wrote(before, a, start)
      modifies this
      ensures Valid() && n - 1 <= kk <= n && Wrote(before, a, kk)
    {
      hide Pending;
      hide Msb;
      hide Nybbles;
      kk := start;
      var jj := (n - kk) / 2;
      if bitsToGo2 == 8 {
        for ii := 0 to jj
          invariant Valid() && bitsToGo2 == 8 && kk == start + 2 * ii && kk <= n && Wrote(before, a, kk)
        {
          ghost var w0 := written;
          OutputAligned(a[kk], a[kk + 1]);
          WrotePair(before, a, kk, w0);
          kk := kk + 2;
        }
      } else {
        for ii := 0 to jj
          invariant Valid() && kk == start + 2 * ii && kk <= n && Wrote(before, a, kk)
        {
          ghost var w0 := written;
          OutputPair(a[kk], a[kk + 1]);
          WrotePair(before, a, kk, w0);
          kk := kk + 2;
        }
      }
    }

    // Fill up the last byte with zeros.
    method Done()
      requires Valid()
      modifies this
      ensures Packs(out, old(written))
    {
      hide Msb;
      hide Unpack;
      hide Zeros;
      hide Packs;
      hide Pow2;
      if bitsToGo2 < 8 {
        var b := LastByte(buffer2, 8 - bitsToGo2);
        PadLast(out, buffer2, 8 - bitsToGo2, b);
        out := out + [b];
      } else {
        EmptyTail(buffer2, out);
      }
    }
  }

  // The pending bits, padded, as one more byte.
  lemma PadLast(o: seq<byte>, buffer: nat, n: nat, b: byte)
    requires 0 < n < 8 && Msb(b, 8) == Msb(buffer, n) + Zeros(8 - n)
    ensures Packs(o + [b], Unpack(o) + Msb(buffer, n))
  {
    hide Msb;
    hide Unpack;
    hide Zeros;
    UnpackSnoc(o, b);
    Associative(Unpack(o), Msb(buffer, n), Zeros(8 - n));
  }

  lemma EmptyTail(v: nat, b: seq<byte>)
    ensures Unpack(b) + Msb(v, 0) == Unpack(b) && Packs(b, Unpack(b))
  {
    hide Unpack;
    assert Unpack(b) + Zeros(0) == Unpack(b);
  }
}
