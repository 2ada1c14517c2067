/**
  TIFF LZW (section 13 of TIFF 6.0) on strings and bit sequences: the textbook decoder
  with a dictionary of strings, the encoder with a finite map from (prefix code, byte)
  to code, and the theorem that one undoes the other.
 */
module LzwSpec {
  import opened Powers
  import opened Bits

  const CLEAR := 256
  const EOI := 257
  const FIRST := 258
  const INIT_WIDTH := 9
  const MAX_CODES := 4096
  const RESET_CODE := 4094

  type text = seq<byte>

  // ---- decoder ----

  datatype Outcome =
    | Count(out: text)  // the bytes decoded
    | Short             // input ends before the output is full (-1)
    | Corrupt           // a code that no encoder can emit (-2)
    | TooLong           // a string that does not fit the output (-3)

  // table[i] is the string of code FIRST + i; prev is [] after a CLEAR.
  datatype Decoder = Decoder(size: nat, table: seq<text>, prev: text, out: text) {
    function Next(): nat {
      FIRST + |table|
    }

    // No entry is empty.
    ghost predicate Sound() {
      forall i :: 0 <= i < |table| ==> table[i] != []
    }
  }

  datatype Step = Stop(o: Outcome) | Go(d: Decoder)

  // The width of the next code: MSB streams change early, LSB streams late.
  function Grow(size: nat, next: nat, lsb: bool): (w: nat)
    ensures size <= w <= size + 1
    ensures size <= 12 ==> w <= 12
  {
    if size < 12 && next == (if lsb then Pow2(size) else Pow2(size) - 1) then size + 1 else size
  }

  // The bits of a stream in its bit order, and a code read from them.
  function StreamBits(b: seq<byte>, lsb: bool): (s: bits)
    ensures |s| == 8 * |b|
  {
    if lsb then UnpackLsb(b) else Unpack(b)
  }

  function CodeOf(s: bits, lsb: bool): nat
  {
    if lsb then ValueLsb(s) else Value(s)
  }

  // The string that a valid code names; the code about to be added is K-w-K.
  function StringOf(d: Decoder, code: nat): (s: text)
    requires d.Sound()
    requires code < 256 || FIRST <= code <= d.Next()
    requires code == d.Next() ==> d.prev != []
    ensures s != []
  {
    if code < 256 then [code] else if code < d.Next() then d.table[code - FIRST] else d.prev + [d.prev[0]]
  }

  function OneCode(d: Decoder, code: nat, n: nat): (r: Step)
    requires d.Sound()
    ensures r.Go? ==> r.d.Sound() && (r.d.size == d.size || r.d.size == INIT_WIDTH)
  {
    if code == EOI then Stop(Count(d.out))
    else if code == CLEAR then Go(Decoder(INIT_WIDTH, [], [], d.out))
    else if code > d.Next() || (code == d.Next() && d.prev == []) then Stop(Corrupt)
    else
      var s := StringOf(d, code);
      if |d.out| + |s| > n then Stop(TooLong)
      else
        var table := if d.prev != [] && d.Next() < MAX_CODES then d.table + [d.prev + [s[0]]] else d.table;
        if |d.out| + |s| == n then Stop(Count(d.out + s)) else Go(Decoder(d.size, table, s, d.out + s))
  }

  // Decode the bits s into at most n bytes.
  function Decode(s: bits, d: Decoder, n: nat, lsb: bool): Outcome
    requires d.size > 0 && d.Sound()
    decreases |s|
  {
    var size := Grow(d.size, d.Next(), lsb);
    if |s| < size then
      if |d.out| == n then Count(d.out) else Short
    else
      match OneCode(d.(size := size), CodeOf(s[..size], lsb), n)
      case Stop(o) => o
      case Go(e) => Decode(s[size..], e, n, lsb)
  }

  const Start := Decoder(INIT_WIDTH, [], [], [])

  // ---- encoder ----

  datatype Code = Code(code: nat, width: nat)

  type dict = map<(nat, byte), nat>

  function Widen(next: nat, width: nat): nat
  {
    if next == Pow2(width) && width < 12 then width + 1 else width
  }

  // The codes of x from byte i on, where prefix is the code of the string read so far.
  function EncodeFrom(x: text, i: nat, d: dict, next: nat, width: nat, prefix: nat): seq<Code>
    requires i <= |x|
    decreases |x| - i
  {
    if i == |x| then [Code(prefix, width), Code(EOI, width)]
    else if (prefix, x[i]) in d then EncodeFrom(x, i + 1, d, next, width, d[(prefix, x[i])])
    else if next < RESET_CODE then
      [Code(prefix, width)]
        + EncodeFrom(x, i + 1, d[(prefix, x[i]) := next], next + 1, Widen(next + 1, width), x[i])
    else
      [Code(prefix, width), Code(CLEAR, width)] + EncodeFrom(x, i + 1, map[], FIRST, INIT_WIDTH, x[i])
  }

  function Encode(x: text): seq<Code>
  {
    [Code(CLEAR, INIT_WIDTH)] +
    if x == [] then [Code(EOI, INIT_WIDTH)] else EncodeFrom(x, 1, map[], FIRST, INIT_WIDTH, x[0])
  }

  function CodeBits(c: seq<Code>): bits
  {
    if c == [] then [] else Msb(c[0].code, c[0].width) + CodeBits(c[1..])
  }

  lemma {:induction false} CodeBitsConcat(c: seq<Code>, e: seq<Code>)
    ensures CodeBits(c + e) == CodeBits(c) + CodeBits(e)
    decreases |c|
  {
    hide Msb;
    if c == [] {
      assert c + e == e;
    } else {
      assert (c + e)[1..] == c[1..] + e;
      CodeBitsConcat(c[1..], e);
      Associative(Msb(c[0].code, c[0].width), CodeBits(c[1..]), CodeBits(e));
    }
  }

  // ---- the two sides in step ----

  // The string of an encoder code, where strings[i] belongs to code FIRST + i.
  function NameOf(strings: seq<text>, code: nat): text
    requires code < 256 || FIRST <= code < FIRST + |strings|
  {
    if code < 256 then [code] else strings[code - FIRST]
  }

  ghost predicate Named(strings: seq<text>, code: nat)
  {
    code < 256 || FIRST <= code < FIRST + |strings|
  }

  // Every entry of the map extends its prefix's string by its byte.
  ghost predicate DictNames(d: dict, strings: seq<text>)
  {
    (forall k :: k in d ==> Named(strings, k.0) && FIRST <= d[k] < FIRST + |strings|) &&
    (forall k :: k in d ==> strings[d[k] - FIRST] == NameOf(strings, k.0) + [k.1])
  }

  // The width of codes while the encoder's next free code is next.
  function WidthFor(next: nat): nat
  {
    if next < 512 then 9 else if next < 1024 then 10 else if next < 2048 then 11 else 12
  }

  // The decoder's table lags the encoder's by one entry: the previous string and the
  // first byte of the string being read. The string read so far is w.
  ghost predicate InStep(strings: seq<text>, d: Decoder, w: text)
  {
    w != [] &&
    (d.prev == [] ==> strings == [] && d.table == []) &&
    (d.prev != [] ==> strings == d.table + [d.prev + [w[0]]])
  }

  ghost predicate WidthInStep(d: Decoder, width: nat)
  {
    9 <= d.size <= 12 && Grow(d.size, d.Next(), false) == width
  }

  lemma PowersUsed()
    ensures Pow2(8) == 256 && Pow2(9) == 512 && Pow2(10) == 1024 && Pow2(11) == 2048 && Pow2(12) == 4096
  {
    assert Pow2(4) == 16;
    assert Pow2(8) == 256;
  }

  // Both triggers, 2^w on one side and 2^w - 1 on the other, fall on the same code.
  lemma WidthStaysInStep(d: Decoder, e: Decoder, next: nat)
    requires 9 <= d.size <= 12 && e.size == WidthFor(next) && FIRST <= next < MAX_CODES
    requires e.Next() == next
    ensures WidthInStep(e, WidthFor(next + 1))
    ensures Widen(next + 1, WidthFor(next)) == WidthFor(next + 1)
  {
    PowersUsed();
  }

  // ---- the round trip ----

  lemma DecodeOne(d: Decoder, c: Code, rest: bits, n: nat)
    requires d.Sound() && d.size > 0 && Grow(d.size, d.Next(), false) == c.width && c.code < Pow2(c.width)
    ensures Decode(Msb(c.code, c.width) + rest, d, n, false)
         == var r := OneCode(d.(size := c.width), c.code, n);
            if r.Stop? then r.o else Decode(rest, r.d, n, false)
  {
    var s := Msb(c.code, c.width) + rest;
    assert s[..c.width] == Msb(c.code, c.width) && s[c.width..] == rest;
    ValueOfMsb(c.code, c.width);
    ModuloSmall(c.code, Pow2(c.width));
  }

  lemma ModuloSmall(v: nat, m: nat)
    requires v < m
    ensures v % m == v
  {
  }

  // Reading the code of w, the decoder emits w and adds the entry that the encoder
  // added before it, K-w-K included.
  lemma ReadInStep(d: Decoder, strings: seq<text>, code: nat, w: text, n: nat)
    requires d.Sound() && InStep(strings, d, w) && Named(strings, code) && w == NameOf(strings, code)
    requires FIRST + |strings| < MAX_CODES && |d.out| + |w| <= n
    ensures OneCode(d, code, n)
         == if |d.out| + |w| == n then Stop(Count(d.out + w)) else Go(Decoder(d.size, strings, w, d.out + w))
  {
  }

  // What holds before the encoder reads byte i of x.
  ghost predicate AtByte(x: text, i: nat, m: dict, next: nat, width: nat, prefix: nat, strings: seq<text>, d: Decoder)
  {
    0 < i <= |x| && d.Sound() && Named(strings, prefix) && DictNames(m, strings) &&
    InStep(strings, d, NameOf(strings, prefix)) &&
    d.out + NameOf(strings, prefix) == x[..i] &&
    next == FIRST + |strings| <= RESET_CODE &&
    width == WidthFor(next) && WidthInStep(d, width)
  }

  lemma CodeFits(prefix: nat, next: nat)
    requires prefix < next <= RESET_CODE
    ensures prefix < Pow2(WidthFor(next)) && CLEAR < Pow2(WidthFor(next))
  {
    PowersUsed();
  }

  // A miss: the pending string is emitted and the map grows.
  lemma Miss(x: text, i: nat, m: dict, next: nat, width: nat, prefix: nat, strings: seq<text>, d: Decoder)
    returns (e: Decoder)
    requires AtByte(x, i, m, next, width, prefix, strings, d) && i < |x| && next < RESET_CODE
    requires (prefix, x[i]) !in m
    ensures OneCode(d.(size := width), prefix, |x|) == Go(e)
    ensures var w := NameOf(strings, prefix);
            AtByte(x, i + 1, m[(prefix, x[i]) := next], next + 1, Widen(next + 1, width), x[i], strings + [w + [x[i]]],
              e)
  {
    var w, b := NameOf(strings, prefix), x[i];
    ReadInStep(d.(size := width), strings, prefix, w, |x|);
    e := Decoder(width, strings, w, d.out + w);
    WidthStaysInStep(d, e, next);
    var grown := strings + [w + [b]];
    assert e.out + NameOf(grown, b) == x[..i + 1];
  }

  // The last string fills the output, so the end code is not read.
  lemma EndDecodes(x: text, m: dict, next: nat, width: nat, prefix: nat, strings: seq<text>, d: Decoder, pad: bits)
    requires AtByte(x, |x|, m, next, width, prefix, strings, d)
    ensures Decode(CodeBits([Code(prefix, width), Code(EOI, width)]) + pad, d, |x|, false) == Count(x)
  {
    var w := NameOf(strings, prefix);
    CodeFits(prefix, next);
    ReadInStep(d.(size := width), strings, prefix, w, |x|);
    hide OneCode;
    hide Decode;
    assert [Code(prefix, width), Code(EOI, width)] == [Code(prefix, width)] + [Code(EOI, width)];
    CodesFirst(prefix, width, [Code(EOI, width)], pad);
    DecodeOne(d, Code(prefix, width), CodeBits([Code(EOI, width)]) + pad, |x|);
  }

  lemma MissDecodes(x: text, i: nat, m: dict, next: nat, width: nat, prefix: nat, strings: seq<text>, d: Decoder,
                    rest: seq<Code>, pad: bits)
    returns (e: Decoder)
    requires AtByte(x, i, m, next, width, prefix, strings, d) && i < |x| && next < RESET_CODE
    requires (prefix, x[i]) !in m
    ensures AtByte(x, i + 1, m[(prefix, x[i]) := next], next + 1, Widen(next + 1, width), x[i],
                   strings + [NameOf(strings, prefix) + [x[i]]], e) && e.Sound() && e.size > 0
    ensures Decode(CodeBits([Code(prefix, width)] + rest) + pad, d, |x|, false)
         == Decode(CodeBits(rest) + pad, e, |x|, false)
  {
    e := Miss(x, i, m, next, width, prefix, strings, d);
    CodeFits(prefix, next);
    hide OneCode;
    hide Decode;
    hide DictNames;
    CodesFirst(prefix, width, rest, pad);
    DecodeOne(d, Code(prefix, width), CodeBits(rest) + pad, |x|);
  }

  // A hit: the string read so far grows by one byte.
  lemma Hit(x: text, i: nat, m: dict, next: nat, width: nat, prefix: nat, strings: seq<text>, d: Decoder)
    requires AtByte(x, i, m, next, width, prefix, strings, d) && i < |x| && (prefix, x[i]) in m
    ensures AtByte(x, i + 1, m, next, width, m[(prefix, x[i])], strings, d)
  {
    var w := NameOf(strings, prefix);
    assert strings[m[(prefix, x[i])] - FIRST] == w + [x[i]];
    assert d.out + (w + [x[i]]) == x[..i + 1];
  }

  // One byte of the encoder's input, and the codes it emits read by the decoder.
  lemma ByteDecodes(x: text, i: nat, m: dict, next: nat, width: nat, prefix: nat, strings: seq<text>, d: Decoder,
                    pad: bits)
    returns (m': dict, next': nat, width': nat, prefix': nat, strings': seq<text>, e: Decoder)
    requires AtByte(x, i, m, next, width, prefix, strings, d) && i < |x|
    ensures AtByte(x, i + 1, m', next', width', prefix', strings', e) && e.Sound() && e.size > 0
    ensures Decode(CodeBits(EncodeFrom(x, i, m, next, width, prefix)) + pad, d, |x|, false)
         == Decode(CodeBits(EncodeFrom(x, i + 1, m', next', width', prefix')) + pad, e, |x|, false)
  {
    AtByteFacts(x, i, m, next, width, prefix, strings, d);
    hide AtByte;
    hide Decode;
    hide CodeBits;
    hide EncodeFrom;
    EncodeFromUnfold(x, i, m, next, width, prefix);
    m', next', width', strings', e := m, next, width, strings, d;
    if (prefix, x[i]) in m {
      Hit(x, i, m, next, width, prefix, strings, d);
      prefix' := m[(prefix, x[i])];
    } else if next < RESET_CODE {
      m', next', width', prefix' := m[(prefix, x[i]) := next], next + 1, Widen(next + 1, width), x[i];
      strings' := strings + [NameOf(strings, prefix) + [x[i]]];
      var rest := EncodeFrom(x, i + 1, m', next', width', x[i]);
      e := MissDecodes(x, i, m, next, width, prefix, strings, d, rest, pad);
    } else {
      ResetDecodes(x, i, m, next, width, prefix, strings, d, pad);
      m', next', width', prefix', strings' := map[], FIRST, INIT_WIDTH, x[i], [];
      e := Decoder(INIT_WIDTH, [], [], x[..i]);
      FreshAtByte(x, i + 1, e);
    }
  }

  lemma {:induction false} EncodeFromDecodes(x: text, i: nat, m: dict, next: nat, width: nat, prefix: nat,
                                             strings: seq<text>, d: Decoder, pad: bits)
    requires AtByte(x, i, m, next, width, prefix, strings, d)
    ensures Decode(CodeBits(EncodeFrom(x, i, m, next, width, prefix)) + pad, d, |x|, false) == Count(x)
    decreases |x| - i
  {
    AtByteFacts(x, i, m, next, width, prefix, strings, d);
    hide AtByte;
    hide Decode;
    hide CodeBits;
    hide EncodeFrom;
    EncodeFromUnfold(x, i, m, next, width, prefix);
    if i == |x| {
      EndDecodes(x, m, next, width, prefix, strings, d, pad);
    } else {
      var m', next', width', prefix', strings', e := ByteDecodes(x, i, m, next, width, prefix, strings, d, pad);
      EncodeFromDecodes(x, i + 1, m', next', width', prefix', strings', e, pad);
    }
  }

  lemma EncodeFromUnfold(x: text, i: nat, d: dict, next: nat, width: nat, prefix: nat)
    requires i <= |x|
    ensures EncodeFrom(x, i, d, next, width, prefix)
         == if i == |x| then [Code(prefix, width), Code(EOI, width)]
            else if (prefix, x[i]) in d then EncodeFrom(x, i + 1, d, next, width, d[(prefix, x[i])])
            else if next < RESET_CODE then
              [Code(prefix, width)]
                + EncodeFrom(x, i + 1, d[(prefix, x[i]) := next], next + 1, Widen(next + 1, width), x[i])
            else
              [Code(prefix, width), Code(CLEAR, width)] + EncodeFrom(x, i + 1, map[], FIRST, INIT_WIDTH, x[i])
  {
  }

  lemma AtByteFacts(x: text, i: nat, m: dict, next: nat, width: nat, prefix: nat, strings: seq<text>, d: Decoder)
    requires AtByte(x, i, m, next, width, prefix, strings, d)
    ensures 0 < i <= |x| && d.Sound() && d.size > 0 && Named(strings, prefix) && next <= RESET_CODE
  {
  }

  lemma CodesFirst(code: nat, width: nat, rest: seq<Code>, pad: bits)
    ensures CodeBits([Code(code, width)] + rest) + pad == Msb(code, width) + (CodeBits(rest) + pad)
  {
    hide Msb;
    assert ([Code(code, width)] + rest)[1..] == rest;
    Associative(Msb(code, width), CodeBits(rest), pad);
  }

  // Right after a CLEAR the pending string is the single byte before i.
  lemma FreshAtByte(x: text, i: nat, e: Decoder)
    requires 0 < i <= |x| && e == Decoder(INIT_WIDTH, [], [], x[..i - 1])
    ensures AtByte(x, i, map[], FIRST, INIT_WIDTH, x[i - 1], [], e)
  {
    PowersUsed();
  }

  // A full table: the pending string is emitted, then a CLEAR.
  lemma ResetDecodes(x: text, i: nat, m: dict, next: nat, width: nat, prefix: nat, strings: seq<text>, d: Decoder,
                     pad: bits)
    requires AtByte(x, i, m, next, width, prefix, strings, d) && i < |x| && next == RESET_CODE
    requires (prefix, x[i]) !in m
    ensures Decode(CodeBits(EncodeFrom(x, i, m, next, width, prefix)) + pad, d, |x|, false)
         == Decode(CodeBits(EncodeFrom(x, i + 1, map[], FIRST, INIT_WIDTH, x[i])) + pad,
                   Decoder(INIT_WIDTH, [], [], x[..i]), |x|, false)
  {
    var w := NameOf(strings, prefix);
    var rest := EncodeFrom(x, i + 1, map[], FIRST, INIT_WIDTH, x[i]);
    CodeFits(prefix, next);
    assert [Code(prefix, width), Code(CLEAR, width)] + rest == [Code(prefix, width)] + ([Code(CLEAR, width)] + rest);
    hide Decode;
    CodesFirst(prefix, width, [Code(CLEAR, width)] + rest, pad);
    DecodeOne(d, Code(prefix, width), CodeBits([Code(CLEAR, width)] + rest) + pad, |x|);
    ReadInStep(d.(size := width), strings, prefix, w, |x|);
    var e := Decoder(width, strings, w, d.out + w);
    CodesFirst(CLEAR, width, rest, pad);
    DecodeOne(e, Code(CLEAR, width), CodeBits(rest) + pad, |x|);
  }

  // Decoding into a buffer of exactly |x| bytes gives x back, whatever bits follow.
  lemma RoundTrip(x: text, pad: bits)
    ensures Decode(CodeBits(Encode(x)) + pad, Start, |x|, false) == Count(x)
  {
    PowersUsed();
    var c := if x == [] then [Code(EOI, INIT_WIDTH)] else EncodeFrom(x, 1, map[], FIRST, INIT_WIDTH, x[0]);
    CodesFirst(CLEAR, INIT_WIDTH, c, pad);
    DecodeOne(Start, Code(CLEAR, INIT_WIDTH), CodeBits(c) + pad, |x|);
    if x == [] {
      CodesFirst(EOI, INIT_WIDTH, [], pad);
      DecodeOne(Start, Code(EOI, INIT_WIDTH), CodeBits([]) + pad, |x|);
    } else {
      FreshAtByte(x, 1, Start);
      EncodeFromDecodes(x, 1, map[], FIRST, INIT_WIDTH, x[0], [], Start, pad);
    }
  }
}
