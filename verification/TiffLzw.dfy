/**
  The TIFF LZW entry points: bit-order detection, the size bound that callers of the
  encoder use, and decoding what the encoder wrote.
 */
module TiffLzw {
  import opened Powers
  import opened Bits
  import opened LzwSpec
  import opened LzwCodes
  import opened LzwEncoder
  import opened LzwDecoder

  // The first byte of an MSB stream has its high bit set: it starts with CLEAR.
  predicate LsbFirst(input: seq<byte>)
  {
    |input| > 0 && input[0] < 128
  }

  method TiffDecode(input: seq<byte>, out: array<byte>) returns (r: int)
    modifies out
    ensures match Decode(StreamBits(input, LsbFirst(input)), Start, out.Length, LsbFirst(input))
            case Count(t) => r == |t| && r <= out.Length && out[..r] == t
            case Short => r == -1
            case Corrupt => r == -2
            case TooLong => r == -3
  {
    r := TiffDecodeOrder(input, out, LsbFirst(input));
  }

  // ---- what the encoder writes is read back ----

  lemma HighBit(v: byte)
    ensures Msb(v, 8)[0] == (v >= 128)
  {
    hide Msb;
    hide Pow2;
    HalfByte();
    MsbSplit(v, 1, 7);
    OneBit(v / 128);
  }

  lemma HalfByte()
    ensures Pow2(7) == 128
  {
    PowersUsed();
  }

  lemma OneBit(v: int)
    ensures Msb(v, 1) == [v % 2 == 1]
  {
    assert Msb(v / 2, 0) == [];
  }

  lemma StartsWithClear(x: text)
    ensures |CodeBits(Encode(x))| >= 9 && CodeBits(Encode(x))[0]
  {
    PowersUsed();
    assert Encode(x)[0] == Code(CLEAR, INIT_WIDTH);
    MsbSplit(CLEAR, 1, 8);
    assert Msb(CLEAR / 256, 1) == [true];
  }

  // An encoder's stream is recognised as MSB.
  lemma EncodedIsMsb(x: text, b: seq<byte>)
    requires Packs(b, CodeBits(Encode(x)))
    ensures !LsbFirst(b)
  {
    hide Msb;
    hide Unpack;
    hide CodeBits;
    hide Encode;
    StartsWithClear(x);
    assert b == [b[0]] + b[1..];
    UnpackCons(b[0], b[1..]);
    HighBit(b[0]);
    assert Unpack(b)[0];
  }

  lemma DecodesEncoded(x: text, b: seq<byte>)
    requires Packs(b, CodeBits(Encode(x)))
    ensures !LsbFirst(b) && Decode(StreamBits(b, false), Start, |x|, false) == Count(x)
  {
    EncodedIsMsb(x, b);
    RoundTrip(x, Zeros(8 * |b| - |CodeBits(Encode(x))|));
  }

  // A stream that any encoder wrote least significant bit first, with an initial CLEAR, is recognised and read back.
  lemma DecodesLsb(codes: seq<nat>, b: seq<byte>, pad: bits)
    requires codes != [] && codes[0] == CLEAR && Legal(8, Empty, codes)
    requires UnpackLsb(b) == Written(8, Empty, codes, true) + pad
    ensures var x := Text(8, Empty, codes);
            LsbFirst(b) && Decode(StreamBits(b, true), Start, |x|, true) == Count(x)
  {
    hide Legal;
    hide Decode;
    hide UnpackLsb;
    TiffListRoundTrip(codes, pad, true);
    ClearedTiff(INIT_WIDTH, [], true);
    ClearInLsb(codes, pad);
    ZeroByte(b);
  }

  lemma ClearInLsb(codes: seq<nat>, pad: bits)
    requires codes != [] && codes[0] == CLEAR && Legal(8, Empty, codes)
    ensures var s := Written(8, Empty, codes, true) + pad; |s| >= 9 && s[..8] == Lsb(0, 8)
  {
    hide Lsb;
    hide Width;
    hide Pow2;
    ClearedTiff(INIT_WIDTH, [], true);
    WidthOfTiff(Start, Empty, true);
    WidthOfStart();
    LsbSplit(CLEAR, 8, 1);
    PowersUsed();
    LsbLow(0, CLEAR, 8, 1);
  }

  lemma WidthOfStart()
    ensures Grow(Start.size, Start.Next(), true) == 9
  {
    PowersUsed();
  }

  lemma ZeroByte(b: seq<byte>)
    requires |b| > 0 && UnpackLsb(b)[..8] == Lsb(0, 8)
    ensures b[0] == 0
  {
    hide Lsb;
    hide ValueLsb;
    hide Pow2;
    PowersUsed();
    assert UnpackLsb(b)[..8] == Lsb(b[0], 8);
    ValueOfLsb(b[0], 8);
    ValueOfLsb(0, 8);
    ModuloSmall(b[0], 256);
  }

  // ---- when the encoder starts afresh ----

  // Exactly the 3837th data code after a CLEAR is followed by the next CLEAR.
  lemma {:induction false} ClearFollows(x: text, i: nat, d: dict, next: nat, width: nat, prefix: nat)
    requires i <= |x| && next <= 4094 && prefix != CLEAR && forall k :: k in d ==> d[k] != CLEAR
    requires next >= FIRST
    ensures var c, n := EncodeFrom(x, i, d, next, width, prefix), 4095 - next;
            |c| > 1 &&
            (forall k {:trigger c[k]} :: 0 <= k < n && k < |c| ==> c[k].code != CLEAR) &&
            (|c| > n + 1 ==> c[n].code == CLEAR)
    decreases |x| - i
  {
    if i == |x| {
    } else if (prefix, x[i]) in d {
      ClearFollows(x, i + 1, d, next, width, d[(prefix, x[i])]);
    } else if next < RESET_CODE {
      ClearFollows(x, i + 1, d[(prefix, x[i]) := next], next + 1, Widen(next + 1, width), x[i]);
    }
  }

  // ---- the size bound ----

  // oc_tifflzw_encode_bound
  function EncodeBound(n: nat): nat
  {
    n + n / 2 + n / 256 + 64
  }

  lemma {:induction false} WidthsBelow(x: text, i: nat, d: dict, next: nat, width: nat, prefix: nat)
    requires i <= |x| && width <= 12
    ensures forall k :: 0 <= k < |EncodeFrom(x, i, d, next, width, prefix)| ==>
              EncodeFrom(x, i, d, next, width, prefix)[k].width <= 12
    decreases |x| - i
  {
    if i == |x| {
    } else if (prefix, x[i]) in d {
      WidthsBelow(x, i + 1, d, next, width, d[(prefix, x[i])]);
    } else if next < RESET_CODE {
      WidthsBelow(x, i + 1, d[(prefix, x[i]) := next], next + 1, Widen(next + 1, width), x[i]);
    } else {
      WidthsBelow(x, i + 1, map[], FIRST, INIT_WIDTH, x[i]);
    }
  }

  lemma {:induction false} BitsBelow(c: seq<Code>)
    requires forall k :: 0 <= k < |c| ==> c[k].width <= 12
    ensures |CodeBits(c)| <= 12 * |c|
  {
    hide Msb;
    if c != [] {
      BitsBelow(c[1..]);
    }
  }

  // One data code a byte at most, and a CLEAR only after 3837 of them.
  lemma {:induction false} CodesBelow(x: text, i: nat, d: dict, next: nat, width: nat, prefix: nat)
    requires i <= |x| && FIRST <= next <= RESET_CODE
    ensures 3837 * (|EncodeFrom(x, i, d, next, width, prefix)| - 2) <= 3838 * (|x| - i) + (next - FIRST)
    decreases |x| - i
  {
    if i == |x| {
    } else if (prefix, x[i]) in d {
      CodesBelow(x, i + 1, d, next, width, d[(prefix, x[i])]);
    } else if next < RESET_CODE {
      CodesBelow(x, i + 1, d[(prefix, x[i]) := next], next + 1, Widen(next + 1, width), x[i]);
    } else {
      CodesBelow(x, i + 1, map[], FIRST, INIT_WIDTH, x[i]);
    }
  }

  lemma BoundSuffices(x: text)
    ensures |CodeBits(Encode(x))| <= 8 * EncodeBound(|x|)
  {
    var first := [Code(CLEAR, INIT_WIDTH)];
    var c := if x == [] then [Code(EOI, INIT_WIDTH)] else EncodeFrom(x, 1, map[], FIRST, INIT_WIDTH, x[0]);
    CodeBitsConcat(first, c);
    BitsBelow(first);
    if x == [] {
      BitsBelow(c);
    } else {
      WidthsBelow(x, 1, map[], FIRST, INIT_WIDTH, x[0]);
      BitsBelow(c);
      CodesBelow(x, 1, map[], FIRST, INIT_WIDTH, x[0]);
      BoundArithmetic(|x|, |c|);
    }
  }

  lemma BoundArithmetic(n: nat, codes: nat)
    requires n > 0 && 3837 * (codes - 2) <= 3838 * (n - 1)
    ensures 12 + 12 * codes <= 8 * EncodeBound(n)
  {
    assert n / 2 * 2 >= n - 1 && n / 256 * 256 >= n - 255;
  }

  // Encoding into a buffer of the bound's size always fits, and decoding into a buffer
  // of exactly |x| bytes gives x back.
  method EncodeDecode(x: text) returns (b: seq<byte>, y: text)
    ensures |b| <= EncodeBound(|x|) && Packs(b, CodeBits(Encode(x))) && y == x
  {
    var packed := new byte[EncodeBound(|x|)];
    BoundSuffices(x);
    var r := TiffEncode(x, packed);
    b := packed[..r];
    DecodesEncoded(x, b);
    var out := new byte[|x|];
    hide CodeBits;
    hide Decode;
    var n := TiffDecode(b, out);
    y := out[..n];
  }
}
