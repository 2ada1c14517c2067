/**
  The fixed Huffman code of the quadtree coder, and its buffer of codes, which is filled forwards and written
  backwards.
 */
module HHuffman {
  import opened Powers
  import opened Bits
  import opened MsbWriters
  import opened HStream
  import opened HBitIO

  const CODE: seq<nat> := [0x3e, 0x00, 0x01, 0x08, 0x02, 0x09, 0x1a, 0x1b, 0x03, 0x1c, 0x0a, 0x1d, 0x0b, 0x1e, 0x3f,
    0x0c]
  const NCODE: seq<nat> := [6, 3, 3, 4, 3, 4, 5, 5, 3, 5, 4, 5, 4, 5, 6, 4]

  function Huff(v: nybble): (b: bits)
    ensures 3 <= |b| <= 6
  {
    Msb(CODE[v], NCODE[v])
  }

  // ---- one code ----

  datatype Symbol = Symbol(value: nybble, next: nat)

  // The code at position p of s.
  function HuffAt(s: seq<byte>, p: nat): (r: Symbol)
  {
    hide BitsAt;
    var c3 := BitsAt(s, p, 3);
    assert c3 < 8 by { EightValues(c3); }
    hide Pow2;
    if c3 < 4 then Symbol([1, 2, 4, 8][c3], p + 3) else HuffLong(s, p, c3)
  }

  lemma EightValues(c: nat)
    requires c < Pow2(3)
    ensures c < 8
  {
  }

  function HuffLong(s: seq<byte>, p: nat, c3: nat): (r: Symbol)
    requires 4 <= c3 < 8
  {
    hide BitsAt;
    var c4 := 2 * c3 + BitsAt(s, p + 3, 1);
    if c4 < 13 then Symbol([3, 5, 10, 12, 15][c4 - 8], p + 4) else
    var c5 := 2 * c4 + BitsAt(s, p + 4, 1);
    if c5 < 31 then Symbol([6, 7, 9, 11, 13][c5 - 26], p + 5) else
    var c6 := 2 * c5 + BitsAt(s, p + 5, 1);
    Symbol(if c6 == 62 then 0 else 14, p + 6)
  }

  // The leading k bits of v's code.
  function Prefix(v: nybble, k: nat): nat
    requires k <= NCODE[v]
  {
    CODE[v] / Pow2(NCODE[v] - k)
  }

  lemma PrefixAt(s: seq<byte>, p: nat, v: nybble, k: nat)
    requires At(s, p, Huff(v)) && k <= NCODE[v]
    ensures BitsAt(s, p, k) == Prefix(v, k)
  {
    var c, n := CODE[v], NCODE[v];
    CodesFit(v);
    hide At;
    hide CODE;
    hide NCODE;
    hide Msb;
    hide BitsAt;
    hide Pow2;
    ValueAt(s, p, c, n, k);
  }

  lemma CodesFit(v: nybble)
    ensures CODE[v] < Pow2(NCODE[v])
  {
    assert Pow2(3) == 8 && Pow2(4) == 16 && Pow2(5) == 32;
  }

  lemma ShortCodes(v: nybble)
    requires NCODE[v] == 3
    ensures Prefix(v, 3) < 4 && [1, 2, 4, 8][Prefix(v, 3)] == v
  {
  }

  lemma LongCodes(v: nybble)
    requires NCODE[v] > 3
    ensures 4 <= Prefix(v, 3) < 8
    ensures if NCODE[v] == 4 then 8 <= Prefix(v, 4) < 13 && [3, 5, 10, 12, 15][Prefix(v, 4) - 8] == v
            else 13 <= Prefix(v, 4) < 16
    ensures NCODE[v] == 5 ==> 26 <= Prefix(v, 5) < 31 && [6, 7, 9, 11, 13][Prefix(v, 5) - 26] == v
    ensures NCODE[v] == 6 ==> 31 == Prefix(v, 5) && (v == if Prefix(v, 6) == 62 then 0 else 14)
  {
  }

  // Every code is read back, and the reader stops right behind it.
  lemma HuffDecodes(s: seq<byte>, p: nat, v: nybble)
    requires At(s, p, Huff(v))
    ensures HuffAt(s, p) == Symbol(v, p + |Huff(v)|)
  {
    var n := NCODE[v];
    PrefixAt(s, p, v, 3);
    if n == 3 {
      ShortCodes(v);
      hide BitsAt;
      hide Prefix;
      hide Msb;
    } else {
      LongCodes(v);
      HuffDecodesLong(s, p, v);
      hide BitsAt;
      hide Prefix;
      hide Msb;
      hide HuffLong;
    }
  }

  lemma HuffDecodesLong(s: seq<byte>, p: nat, v: nybble)
    requires At(s, p, Huff(v)) && NCODE[v] > 3 && 4 <= Prefix(v, 3) < 8
    ensures HuffLong(s, p, Prefix(v, 3)) == Symbol(v, p + |Huff(v)|)
  {
    hide BitsAt;
    hide Prefix;
    hide Msb;
    hide At;
    LongCodes(v);
    PrefixAt(s, p, v, 3);
    PrefixAt(s, p, v, 4);
    NextBit(s, p, 3);
    NextBit(s, p, 4);
    NextBit(s, p, 5);
    if NCODE[v] > 4 {
      PrefixAt(s, p, v, 5);
    }
    if NCODE[v] > 5 {
      PrefixAt(s, p, v, 6);
    }
  }

  method InputHuffman(r: BitReader) returns (v: nybble)
    requires r.Valid()
    modifies r
    ensures r.Valid() && r.bitsToGo <= 7 && old(r.Pos()) >= 0
    ensures Symbol(v, r.Pos()) == HuffAt(r.infile, old(r.Pos()))
  {
    hide BitsAt;
    hide HuffLong;
    hide BitReader.Buffered;
    var c := r.InputNbits(3);
    if c < 4 {
      return [1, 2, 4, 8][c];
    }
    v := InputLong(r, c, r.Pos() - 3);
  }

  method InputLong(r: BitReader, c3: nat, ghost p: int) returns (v: nybble)
    requires r.Valid() && 4 <= c3 < 8 && p >= 0 && r.Pos() == p + 3
    modifies r
    ensures r.Valid() && r.bitsToGo <= 7
    ensures Symbol(v, r.Pos()) == HuffLong(r.infile, p, c3)
  {
    hide BitsAt;
    hide BitReader.Buffered;
    var b := r.InputBit();
    var c := b + 2 * c3;
    if c < 13 {
      return [3, 5, 10, 12, 15][c - 8];
    }
    b := r.InputBit();
    c := b + 2 * c;
    if c < 31 {
      return [6, 7, 9, 11, 13][c - 26];
    }
    b := r.InputBit();
    c := b + 2 * c;
    v := if c == 62 then 0 else 14;
  }

  // ---- the codes of an array ----

  // The codes of the non-zero elements, the last element's first.
  function CodesBack(s: seq<nybble>): (b: bits)
  {
    if s == [] then [] else
    (if s[|s| - 1] != 0 then Huff(s[|s| - 1]) else []) + CodesBack(s[..|s| - 1])
  }

  lemma CodesSnoc(s: seq<nybble>, v: nybble)
    ensures CodesBack(s + [v]) == (if v != 0 then Huff(v) else []) + CodesBack(s)
  {
    assert (s + [v])[..|s|] == s;
  }

  lemma NextCode(s: seq<nybble>, i: nat, before: bits)
    requires i < |s|
    ensures CodesBack(s[..i + 1]) + before == (if s[i] != 0 then Huff(s[i]) else []) + (CodesBack(s[..i]) + before)
  {
    CodesSnoc(s[..i], s[i]);
    assert s[..i + 1] == s[..i] + [s[i]];
    hide Huff;
    hide CodesBack;
    Associative(if s[i] != 0 then Huff(s[i]) else [], CodesBack(s[..i]), before);
  }

  lemma {:induction false} CodesGrow(s: seq<nybble>, k: nat)
    requires k <= |s|
    ensures |CodesBack(s[..k])| <= |CodesBack(s)|
    decreases |s|
  {
    if k < |s| {
      CodesGrow(s[..|s| - 1], k);
      assert s[..|s| - 1][..k] == s[..k];
    } else {
      assert s[..k] == s;
    }
  }

  datatype Reading = Reading(values: seq<nybble>, next: nat)

  // One code for each non-zero mark, from the last element to the first.
  function ReadBack(s: seq<byte>, p: nat, marks: seq<int>): (r: Reading)
    ensures |r.values| == |marks|
    decreases |marks|
  {
    hide HuffAt;
    if marks == [] then Reading([], p) else
    var last := |marks| - 1;
    var c := if marks[last] != 0 then HuffAt(s, p) else Symbol(0, p);
    var rest := ReadBack(s, c.next, marks[..last]);
    Reading(rest.values + [c.value], rest.next)
  }

  predicate Marked(marks: seq<int>, values: seq<nybble>)
  {
    |marks| == |values| && forall k :: 0 <= k < |marks| ==> (marks[k] != 0) == (values[k] != 0)
  }

  // Reading undoes the coding when the marks say where the non-zero elements are.
  lemma {:induction false} ReadsCodesBack(s: seq<byte>, p: nat, marks: seq<int>, values: seq<nybble>)
    requires Marked(marks, values) && At(s, p, CodesBack(values))
    ensures ReadBack(s, p, marks) == Reading(values, p + |CodesBack(values)|)
    decreases |marks|
  {
    hide At;
    hide Huff;
    hide HuffAt;
    hide Slice;
    if marks != [] {
      var last := |marks| - 1;
      var v, front := values[last], values[..last];
      assert values == front + [v];
      hide CodesBack;
      CodeThenFront(s, p, v, front);
      var q := if v != 0 then p + |Huff(v)| else p;
      hide ReadBack;
      ReadStep(s, p, marks, v, q);
      ReadsCodesBack(s, q, marks[..last], front);
    }
  }

  lemma ReadStep(s: seq<byte>, p: nat, marks: seq<int>, v: nybble, q: nat)
    requires marks != []
    requires if marks[|marks| - 1] != 0 then HuffAt(s, p) == Symbol(v, q) else v == 0 && q == p
    ensures ReadBack(s, p, marks) ==
            var rest := ReadBack(s, q, marks[..|marks| - 1]);
            Reading(rest.values + [v], rest.next)
  {
    hide HuffAt;
  }

  lemma CodeThenFront(s: seq<byte>, p: nat, v: nybble, front: seq<nybble>)
    requires At(s, p, CodesBack(front + [v]))
    ensures |CodesBack(front + [v])| == (if v != 0 then |Huff(v)| else 0) + |CodesBack(front)|
    ensures At(s, if v != 0 then p + |Huff(v)| else p, CodesBack(front))
    ensures v != 0 ==> HuffAt(s, p) == Symbol(v, p + |Huff(v)|)
  {
    CodesSnoc(front, v);
    hide At;
    hide Huff;
    hide HuffAt;
    hide CodesBack;
    if v != 0 {
      AtSplit(s, p, Huff(v), CodesBack(front));
      HuffDecodes(s, p, v);
    } else {
      assert [] + CodesBack(front) == CodesBack(front);
    }
  }

  // ---- the encoder's buffer ----

  // The bits of the bytes, the last byte's first.
  function BytesBack(b: seq<byte>): (s: bits)
    ensures |s| == 8 * |b|
  {
    if b == [] then [] else Msb(b[|b| - 1], 8) + BytesBack(b[..|b| - 1])
  }

  lemma BytesSnoc(b: seq<byte>, x: byte)
    ensures BytesBack(b + [x]) == Msb(x, 8) + BytesBack(b)
  {
    assert (b + [x])[..|b|] == b;
  }

  // A code above n pending bits.
  function Above(buffer: nat, n: nat, v: nybble): nat
  {
    buffer + CODE[v] * Pow2(n)
  }

  lemma AboveBits(buffer: nat, n: nat, v: nybble)
    requires buffer < Pow2(n)
    ensures Msb(Above(buffer, n, v), NCODE[v] + n) == Huff(v) + Msb(buffer, n)
    ensures Above(buffer, n, v) < Pow2(NCODE[v] + n)
  {
    var c, w := CODE[v], NCODE[v];
    CodesFit(v);
    assert Huff(v) == Msb(c, w) && Above(buffer, n, v) == buffer + c * Pow2(n);
    hide Msb;
    hide CODE;
    hide NCODE;
    hide Huff;
    hide Above;
    MsbAppend(c, buffer, w, n);
    Pow2Add(w, n);
    BelowProduct(c, Pow2(w), Pow2(n), buffer);
  }

  lemma InsertedAbove(buffer: nat, n: nat, v: nybble, tail: bits)
    requires buffer < Pow2(n)
    ensures Msb(Above(buffer, n, v), n + NCODE[v]) + tail == Huff(v) + (Msb(buffer, n) + tail)
    ensures Above(buffer, n, v) < Pow2(n + NCODE[v])
  {
    AboveBits(buffer, n, v);
    hide Msb;
    hide Huff;
    hide Above;
    hide Pow2;
    Associative(Huff(v), Msb(buffer, n), tail);
  }

  lemma BelowProduct(c: nat, h: nat, p: nat, r: nat)
    requires c < h && r < p
    ensures r + c * p < h * p
  {
    assert (c + 1) * p <= h * p;
  }

  // The low byte goes out and the rest stays.
  lemma LowByte(buffer: nat, n: nat)
    requires n >= 8 && buffer < Pow2(n)
    ensures Msb(buffer, n) == Msb(buffer / 256, n - 8) + Msb(buffer % 256, 8)
    ensures 0 <= buffer / 256 < Pow2(n - 8)
  {
    WordIsPow();
    MsbSplit(buffer, n - 8, 8);
    MsbModulo(buffer, 8, 8);
    Pow2Add(n - 8, 8);
  }

  class CodeBuffer {
    const buffer: array<byte>
    var b: nat
    var bitbuffer: nat
    var bitsToGo3: nat
    ghost var codes: bits

    ghost predicate Holds(n: nat)
      reads this, buffer
    {
      b < buffer.Length && bitbuffer < Pow2(n) && codes == Msb(bitbuffer, n) + BytesBack(buffer[..b])
    }

    ghost predicate Valid()
      reads this, buffer
    {
      bitsToGo3 < 8 && Holds(bitsToGo3)
    }

    constructor (bmax: nat)
      requires bmax > 0
      ensures Valid() && codes == [] && buffer.Length == bmax && fresh(buffer)
    {
      buffer := new byte[bmax];
      b, bitbuffer, bitsToGo3 := 0, 0, 0;
      codes := [];
    }

    method Reset()
      requires buffer.Length > 0
      modifies this
      ensures Valid() && codes == []
    {
      b, bitbuffer, bitsToGo3 := 0, 0, 0;
      codes := [];
    }

    method Insert(v: nybble)
      requires Valid()
      modifies this`bitbuffer, this`bitsToGo3, this`codes
      ensures Holds(bitsToGo3) && bitsToGo3 == old(bitsToGo3) + NCODE[v] && codes == Huff(v) + old(codes)
    {
      assert |NCODE| == 16 && NCODE[v] > 0;
      hide Msb;
      hide BytesBack;
      hide Pow2;
      hide Huff;
      hide Above;
      hide NCODE;
      InsertedAbove(bitbuffer, bitsToGo3, v, BytesBack(buffer[..b]));
      codes := Huff(v) + codes;
      bitbuffer := Above(bitbuffer, bitsToGo3, v);
      bitsToGo3 := bitsToGo3 + NCODE[v];
    }

    // Move a byte to the buffer; false means that this filled it.
    method Spill() returns (ok: bool)
      requires Holds(bitsToGo3) && 8 <= bitsToGo3 < 16
      modifies this`b, this`bitbuffer, this`bitsToGo3, buffer
      ensures ok ==> Valid()
      ensures !ok ==> |codes| >= 8 * buffer.Length
    {
      LowByte(bitbuffer, bitsToGo3);
      ghost var low := bitbuffer % 256;
      BytesSnoc(buffer[..b], low);
      hide Msb;
      hide BytesBack;
      hide Pow2;
      Associative(Msb(bitbuffer / 256, bitsToGo3 - 8), Msb(low, 8), BytesBack(buffer[..b]));
      buffer[b] := bitbuffer % 256;
      b := b + 1;
      assert buffer[..b] == old(buffer[..b]) + [low];
      if b >= buffer.Length {
        return false;
      }
      bitbuffer := bitbuffer / 256;
      bitsToGo3 := bitsToGo3 - 8;
      ok := true;
    }

    // Add the code of one element.
    method Add(v: nybble) returns (ok: bool)
      requires Valid()
      modifies this, buffer
      ensures codes == (if v != 0 then Huff(v) else []) + old(codes)
      ensures ok ==> Valid()
      ensures !ok ==> |codes| >= 8 * buffer.Length
    {
      hide Holds;
      ok := true;
      if v != 0 {
        assert NCODE[v] <= 6;
        Insert(v);
        if bitsToGo3 >= 8 {
          ok := Spill();
        }
      } else {
        assert [] + codes == codes;
      }
    }

    lemma CodesBelow()
      requires Valid()
      ensures |codes| < 8 * buffer.Length
    {
    }

    // Add the codes of a's first n elements, or find that they fill the buffer.
    method BufCopy(a: array<nybble>, n: nat) returns (full: bool)
      requires Valid() && n <= a.Length && a.Length != 0
      modifies this, buffer
      ensures !full ==> Valid() && codes == CodesBack(a[..n]) + old(codes)
      ensures full == (|CodesBack(a[..n]) + old(codes)| >= 8 * buffer.Length)
    {
      ghost var before, s := codes, a[..n];
      assert CodesBack(s[..0]) == [] && [] + before == before;
      hide Holds;
      hide Huff;
      hide CodesBack;
      for i := 0 to n
        invariant Valid() && a[..n] == s && codes == CodesBack(s[..i]) + before
      {
        NextCode(s, i, before);
        var ok := Add(a[i]);
        if !ok {
          CodesGrow(s, i + 1);
          return true;
        }
      }
      assert s[..n] == s;
      CodesBelow();
      full := false;
    }

    // Write the codes out, or a zero's code if there are none.
    method WriteTo(w: BitWriter)
      requires Valid() && w.Valid()
      modifies w
      ensures w.Valid() && w.written == old(w.written) + if codes == [] then Huff(0) else codes
    {
      hide Msb;
      hide BytesBack;
      hide BitWriter.Pending;
      NoCodes();
      if b == 0 && bitsToGo3 == 0 {
        w.OutputNbits(CODE[0], NCODE[0]);
      } else {
        WriteCodes(w);
      }
    }

    lemma NoCodes()
      requires Valid()
      ensures (codes == []) == (b == 0 && bitsToGo3 == 0)
    {
    }

    // The pending bits, then the bytes from the last to the first.
    method WriteCodes(w: BitWriter)
      requires Valid() && w.Valid()
      modifies w
      ensures w.Valid() && w.written == old(w.written) + codes
    {
      hide Msb;
      hide BytesBack;
      hide BitWriter.Pending;
      ghost var before := w.written;
      EmptyLow(bitbuffer, before);
      if bitsToGo3 > 0 {
        w.OutputNbits(bitbuffer, bitsToGo3);
      }
      Associative(before, Msb(bitbuffer, bitsToGo3), BytesBack(buffer[..b]));
      var i: int := b - 1;
      while i >= 0
        invariant -1 <= i < b && w.Valid() && w.written + BytesBack(buffer[..i + 1]) == before + codes
      {
        BytesSnoc(buffer[..i], buffer[i]);
        assert buffer[..i + 1] == buffer[..i] + [buffer[i]];
        Associative(w.written, Msb(buffer[i], 8), BytesBack(buffer[..i]));
        w.OutputNbits(buffer[i], 8);
        i := i - 1;
      }
      NoBytes(buffer[..0], w.written);
    }
  }

  lemma NoBytes(b: seq<byte>, s: bits)
    requires b == []
    ensures s + BytesBack(b) == s
  {
  }
}
