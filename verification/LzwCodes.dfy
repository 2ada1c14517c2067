/**
  LZW streams written by any encoder: a list of codes, each with the least width that the
  dialect allows, and the theorem that the decoders read every such list, in either bit
  order.
 */
module LzwCodes {
  import opened Powers
  import opened Bits
  import opened LzwSpec
  import GifSpec

  // ---- widths ----

  // The least number of bits, from m + 1 to twelve, in which the number top can be written.
  function Width(m: nat, top: nat): nat
    requires m < 12
  {
    var w := BitLength(top);
    if w <= m + 1 then m + 1 else if w < 12 then w else 12
  }

  lemma WidthIsLeast(m: nat, top: nat)
    requires m < 12
    ensures var w := Width(m, top);
            m < w <= 12 && (w < 12 ==> top < Pow2(w)) && (w > m + 1 ==> Pow2(w - 1) <= top)
  {
    hide Pow2;
    var w := BitLength(top);
    if w <= m + 1 {
      Pow2Monotone(w, m + 1);
    } else if w > 12 {
      Pow2Monotone(11, w - 1);
    }
  }

  lemma WidthUnique(m: nat, top: nat, w: nat)
    requires m < w <= 12 && (w < 12 ==> top < Pow2(w)) && (w > m + 1 ==> Pow2(w - 1) <= top)
    ensures Width(m, top) == w
  {
    if w > m + 1 {
      BitLengthAbove(top, w - 1);
    }
    if w < 12 {
      BitLengthBelow(top, w);
    }
  }

  // What the width of the next code must hold: the code about to be added, and in the early dialect the one after it.
  function Ceiling(next: nat, lsb: bool): nat
  {
    if lsb then next else next + 1
  }

  // ---- dictionaries and lists of codes ----

  // entries[i] is the string of code 2^m + 2 + i; last is the string of the code before, or [] after a clear code.
  datatype Words = Words(entries: seq<text>, last: text)

  const Empty := Words([], [])

  function NextFree(m: nat, d: Words): nat
  {
    Pow2(m) + 2 + |d.entries|
  }

  // The data codes that may come next: the letters, the entries, and the entry that this very code completes.
  predicate Known(m: nat, d: Words, code: nat)
  {
    code < Pow2(m) ||
    (Pow2(m) + 2 <= code < MAX_CODES && (code < NextFree(m, d) || (code == NextFree(m, d) && d.last != [])))
  }

  predicate Filled(d: Words)
  {
    forall i :: 0 <= i < |d.entries| ==> d.entries[i] != []
  }

  function Spelled(m: nat, d: Words, code: nat): (s: text)
    requires m <= 8 && Filled(d) && Known(m, d, code)
    ensures s != []
  {
    if code < Pow2(m) then [GifSpec.Literal(m, code)]
    else if code < NextFree(m, d) then d.entries[code - Pow2(m) - 2]
    else d.last + [d.last[0]]
  }

  // A code that spells s completes the entry that the code before it began.
  function Then(m: nat, d: Words, s: text): (e: Words)
    requires s != []
    ensures Filled(d) ==> Filled(e)
  {
    Words(if d.last != [] && NextFree(m, d) < MAX_CODES then d.entries + [d.last + [s[0]]] else d.entries, s)
  }

  // Every code is a clear code or known when its turn comes.
  predicate Legal(m: nat, d: Words, codes: seq<nat>)
    requires m <= 8 && Filled(d)
    decreases |codes|
  {
    codes == [] ||
    if codes[0] == Pow2(m) then Legal(m, Empty, codes[1..])
    else Known(m, d, codes[0]) && Legal(m, Then(m, d, Spelled(m, d, codes[0])), codes[1..])
  }

  function Text(m: nat, d: Words, codes: seq<nat>): text
    requires m <= 8 && Filled(d) && Legal(m, d, codes)
    decreases |codes|
  {
    if codes == [] then []
    else if codes[0] == Pow2(m) then Text(m, Empty, codes[1..])
    else var s := Spelled(m, d, codes[0]); s + Text(m, Then(m, d, s), codes[1..])
  }

  function Write(v: nat, w: nat, lsb: bool): (s: bits)
    ensures |s| == w
  {
    if lsb then Lsb(v, w) else Msb(v, w)
  }

  // The list with an end code, every code in the least width.
  function Written(m: nat, d: Words, codes: seq<nat>, lsb: bool): bits
    requires m <= 8 && Filled(d) && Legal(m, d, codes)
    decreases |codes|
  {
    var w := Width(m, Ceiling(NextFree(m, d), lsb));
    if codes == [] then Write(Pow2(m) + 1, w, lsb)
    else Write(codes[0], w, lsb) + Written(m, if codes[0] == Pow2(m) then Empty else
        Then(m, d, Spelled(m, d, codes[0])), codes[1..], lsb)
  }

  // ---- reading one code ----

  lemma CodeFitsWidth(m: nat, d: Words, code: nat, lsb: bool)
    requires 2 <= m <= 8 && (code == Pow2(m) || code == Pow2(m) + 1 || Known(m, d, code))
    ensures code < Pow2(Width(m, Ceiling(NextFree(m, d), lsb)))
  {
    WidthIsLeast(m, Ceiling(NextFree(m, d), lsb));
    PowersUsed();
    Pow2Monotone(m, 8);
    Pow2Monotone(m + 1, Width(m, Ceiling(NextFree(m, d), lsb)));
    hide Pow2;
    hide Width;
  }

  lemma ReadsWritten(v: nat, w: nat, lsb: bool, rest: bits)
    requires v < Pow2(w)
    ensures var s := Write(v, w, lsb) + rest; |s| >= w && CodeOf(s[..w], lsb) == v && s[w..] == rest
  {
    ValueOfLsb(v, w);
    ValueOfMsb(v, w);
    ModuloSmall(v, Pow2(w));
    hide Lsb;
    hide Msb;
    hide Value;
    hide ValueLsb;
    var c := Write(v, w, lsb);
    assert (c + rest)[..w] == c && (c + rest)[w..] == rest;
  }

  // ---- the GIF decoder ----

  // A code is as wide as the code about to be added needs, and no wider.
  ghost predicate LateWidth(m: nat, g: GifSpec.Gif)
  {
    var next := GifSpec.NextCode(m, g);
    m < g.size <= 12 && next <= MAX_CODES && (g.size < 12 ==> next < Pow2(g.size)) &&
    (g.size > m + 1 ==> Pow2(g.size - 1) <= next)
  }

  lemma LateWidthAtStart(m: nat, out: text)
    requires 2 <= m <= 8
    ensures LateWidth(m, GifSpec.Gif(m + 1, [], [], out))
  {
    PowersUsed();
    Pow2Monotone(m, 8);
    Pow2Monotone(2, m);
    assert Pow2(m + 1) == 2 * Pow2(m) && Pow2(2) == 4;
    hide Pow2;
  }

  // Every string that is put out keeps it that way, so it holds in every state that the decoder reaches.
  lemma LateWidthKept(m: nat, g: GifSpec.Gif, s: text)
    requires 2 <= m <= 8 && LateWidth(m, g) && s != []
    ensures LateWidth(m, GifSpec.Extended(m, g, s))
  {
    PowersUsed();
  }

  ghost predicate GifAt(m: nat, g: GifSpec.Gif, d: Words)
    requires m <= 8
  {
    g.table == d.entries && g.prev == d.last && LateWidth(m, g) && Filled(d)
  }

  lemma GifReadsClear(m: nat, d: Words, g: GifSpec.Gif, rest: bits, n: nat)
    requires 2 <= m <= 8 && GifAt(m, g, d) && |g.out| <= n
    ensures var w, e := Width(m, Ceiling(NextFree(m, d), true)), GifSpec.Gif(m + 1, [], [], g.out);
            GifSpec.GifDecode(Write(Pow2(m), w, true) + rest, g, m, n) == GifSpec.GifDecode(rest, e, m, n)
  {
    WidthUnique(m, NextFree(m, d), g.size);
    CodeFitsWidth(m, d, Pow2(m), true);
    hide Write;
    hide Width;
    hide Pow2;
    hide ValueLsb;
    ReadsWritten(Pow2(m), g.size, true, rest);
  }

  lemma WidthOfGif(m: nat, g: GifSpec.Gif, d: Words)
    requires 2 <= m <= 8 && GifAt(m, g, d)
    ensures Width(m, Ceiling(NextFree(m, d), true)) == g.size
  {
    WidthUnique(m, NextFree(m, d), g.size);
  }

  lemma GifReadsEnd(m: nat, d: Words, g: GifSpec.Gif, rest: bits)
    requires 2 <= m <= 8 && GifAt(m, g, d)
    ensures var w := Width(m, Ceiling(NextFree(m, d), true));
            GifSpec.GifDecode(Write(Pow2(m) + 1, w, true) + rest, g, m, |g.out|) == GifSpec.Done(g.out)
  {
    hide Write;
    hide Width;
    hide Pow2;
    hide ValueLsb;
    WidthOfGif(m, g, d);
    CodeFitsWidth(m, d, Pow2(m) + 1, true);
    hide LateWidth;
    hide GifAt;
    hide GifSpec.Sound;
    hide GifSpec.GifDecode;
    GifAtParts(m, g, d);
    ReadsWritten(Pow2(m) + 1, g.size, true, rest);
    GifEnds(Write(Pow2(m) + 1, g.size, true) + rest, g, m);
  }

  lemma GifEnds(s: bits, g: GifSpec.Gif, m: nat)
    requires m <= 8 && g.size > 0 && GifSpec.Sound(g) && |s| >= g.size && ValueLsb(s[..g.size]) == Pow2(m) + 1
    ensures GifSpec.GifDecode(s, g, m, |g.out|) == GifSpec.Done(g.out)
  {
    hide Pow2;
    hide ValueLsb;
    hide GifSpec.Extended;
    hide GifSpec.GifString;
  }

  lemma GifReadsCode(m: nat, d: Words, code: nat, g: GifSpec.Gif, rest: bits, n: nat)
    requires 2 <= m <= 8 && GifAt(m, g, d) && Known(m, d, code)
    requires |g.out| + |Spelled(m, d, code)| <= n
    ensures var w, s := Width(m, Ceiling(NextFree(m, d), true)), Spelled(m, d, code);
            var e := GifSpec.Extended(m, g, s);
            GifAt(m, e, Then(m, d, s)) && e.out == g.out + s &&
            GifSpec.GifDecode(Write(code, w, true) + rest, g, m, n) == GifSpec.GifDecode(rest, e, m, n)
  {
    WidthUnique(m, NextFree(m, d), g.size);
    CodeFitsWidth(m, d, code, true);
    LateWidthKept(m, g, Spelled(m, d, code));
    hide Write;
    hide Width;
    hide Pow2;
    hide ValueLsb;
    hide LateWidth;
    ReadsWritten(code, g.size, true, rest);
  }

  // The decoder puts out the text of every legal list, whatever bits follow its end code.
  lemma {:induction false} GifReads(m: nat, d: Words, codes: seq<nat>, g: GifSpec.Gif, pad: bits)
    requires 2 <= m <= 8 && GifAt(m, g, d) && Legal(m, d, codes)
    ensures var x := Text(m, d, codes);
            GifSpec.GifDecode(Written(m, d, codes, true) + pad, g, m, |g.out| + |x|) == GifSpec.Done(g.out + x)
    decreases |codes|
  {
    hide GifAt;
    hide Width;
    hide Pow2;
    hide Write;
    hide Known;
    hide Spelled;
    hide Then;
    hide Filled;
    hide GifSpec.GifDecode;
    GifAtParts(m, g, d);
    var w, x := Width(m, Ceiling(NextFree(m, d), true)), Text(m, d, codes);
    if codes == [] {
      GifReadsEnd(m, d, g, pad);
      assert g.out + x == g.out;
    } else if codes[0] == Pow2(m) {
      var e, rest := GifSpec.Gif(m + 1, [], [], g.out), Written(m, Empty, codes[1..], true);
      Associative(Write(codes[0], w, true), rest, pad);
      GifReadsClear(m, d, g, rest + pad, |g.out| + |x|);
      ClearedGif(m, g.out);
      GifReads(m, Empty, codes[1..], e, pad);
    } else {
      var s := Spelled(m, d, codes[0]);
      var e, t := GifSpec.Extended(m, g, s), Then(m, d, s);
      var rest := Written(m, t, codes[1..], true);
      Associative(Write(codes[0], w, true), rest, pad);
      GifReadsCode(m, d, codes[0], g, rest + pad, |g.out| + |x|);
      GifReads(m, t, codes[1..], e, pad);
      assert g.out + x == e.out + Text(m, t, codes[1..]);
    }
  }

  // A code that is neither the clear code nor the end code nor known is an error.
  lemma GifRejects(m: nat, d: Words, code: nat, g: GifSpec.Gif, rest: bits, n: nat)
    requires 2 <= m <= 8 && GifAt(m, g, d) && |g.out| <= n && code < Pow2(g.size)
    requires code != Pow2(m) && code != Pow2(m) + 1 && !Known(m, d, code)
    ensures GifSpec.Sound(g) && g.size > 0
    ensures GifSpec.GifDecode(Write(code, g.size, true) + rest, g, m, n) == GifSpec.BadCode
  {
    hide Write;
    hide ValueLsb;
    ReadsWritten(code, g.size, true, rest);
    BelowTwelveBits(code, g.size);
    hide Pow2;
  }

  lemma BelowTwelveBits(code: nat, w: nat)
    requires w <= 12 && code < Pow2(w)
    ensures code < MAX_CODES
  {
    Pow2Monotone(w, 12);
    PowersUsed();
  }

  // A string that does not fit the output fills it, and the decoder is done.
  lemma GifFills(m: nat, d: Words, code: nat, g: GifSpec.Gif, rest: bits, n: nat)
    requires 2 <= m <= 8 && GifAt(m, g, d) && |g.out| <= n && Known(m, d, code)
    requires |g.out| + |Spelled(m, d, code)| > n
    ensures GifSpec.Sound(g) && g.size > 0
    ensures GifSpec.GifDecode(Write(code, g.size, true) + rest, g, m, n)
         == GifSpec.Done(g.out + Spelled(m, d, code)[..n - |g.out|])
  {
    hide Write;
    hide ValueLsb;
    WidthOfGif(m, g, d);
    CodeFitsWidth(m, d, code, true);
    hide Width;
    hide LateWidth;
    ReadsWritten(code, g.size, true, rest);
    hide Pow2;
  }

  lemma GifAtParts(m: nat, g: GifSpec.Gif, d: Words)
    requires m <= 8 && GifAt(m, g, d)
    ensures Filled(d) && Filled(Empty) && GifSpec.Sound(g) && g.size > 0
  {
  }

  lemma ClearedGif(m: nat, out: text)
    requires 2 <= m <= 8
    ensures GifAt(m, GifSpec.Gif(m + 1, [], [], out), Empty)
  {
    LateWidthAtStart(m, out);
  }

  lemma GifListRoundTrip(m: nat, codes: seq<nat>, pad: bits)
    requires 2 <= m <= 8 && Legal(m, Empty, codes)
    ensures var x := Text(m, Empty, codes);
            GifSpec.GifDecode(Written(m, Empty, codes, true) + pad, GifSpec.GifStart(m), m, |x|) == GifSpec.Done(x)
  {
    hide Written;
    hide Legal;
    hide GifSpec.GifDecode;
    ClearedGif(m, []);
    GifReads(m, Empty, codes, GifSpec.GifStart(m), pad);
    assert [] + Text(m, Empty, codes) == Text(m, Empty, codes);
  }

  // ---- the TIFF decoder, in both orders ----

  // The width that the next code is read in is the least one in which its ceiling can be written.
  ghost predicate LeastWidth(t: Decoder, lsb: bool)
  {
    var w, top := Grow(t.size, t.Next(), lsb), Ceiling(t.Next(), lsb);
    8 < w <= 12 && t.Next() <= MAX_CODES && (w < 12 ==> top < Pow2(w)) && (w > 9 ==> Pow2(w - 1) <= top)
  }

  lemma LeastWidthAtStart(out: text, lsb: bool)
    ensures LeastWidth(Decoder(INIT_WIDTH, [], [], out), lsb)
  {
    PowersUsed();
  }

  // Every code that is read keeps it that way, whatever the code.
  lemma LeastWidthKept(t: Decoder, code: nat, n: nat, lsb: bool)
    requires t.Sound() && LeastWidth(t, lsb)
    ensures var r := OneCode(t.(size := Grow(t.size, t.Next(), lsb)), code, n);
            r.Go? ==> LeastWidth(r.d, lsb)
  {
    PowersUsed();
    LeastWidthAtStart(t.out, lsb);
    var w := Grow(t.size, t.Next(), lsb);
    assert w < 12 ==> Pow2(w + 1) == 2 * Pow2(w);
    assert w == 12 ==> Pow2(w - 1) == 2048;
    hide Pow2;
    hide StringOf;
    WidthOfNext(w, t.Next(), lsb);
  }

  // The entry that is added may call for a wider code, by one bit.
  lemma WidthOfNext(w: nat, next: nat, lsb: bool)
    requires 8 < w <= 12 && next <= MAX_CODES && (w < 12 ==> Ceiling(next, lsb) < Pow2(w))
    requires w > 9 ==> Pow2(w - 1) <= Ceiling(next, lsb)
    ensures Grow(w, next, lsb) == w
    ensures var v, top := Grow(w, next + 1, lsb), Ceiling(next + 1, lsb);
            8 < v <= 12 && (v < 12 ==> top < Pow2(v)) && (v > 9 ==> Pow2(v - 1) <= top)
  {
  }

  ghost predicate TiffAt(t: Decoder, d: Words, lsb: bool)
  {
    t.table == d.entries && t.prev == d.last && LeastWidth(t, lsb) && t.size > 0 && t.Sound() && Filled(d)
  }

  lemma WidthOfTiff(t: Decoder, d: Words, lsb: bool)
    requires TiffAt(t, d, lsb)
    ensures Width(8, Ceiling(NextFree(8, d), lsb)) == Grow(t.size, t.Next(), lsb)
  {
    PowersUsed();
    hide Pow2;
    WidthUnique(8, Ceiling(NextFree(8, d), lsb), Grow(t.size, t.Next(), lsb));
  }

  lemma TiffReadsFirst(t: Decoder, d: Words, code: nat, rest: bits, n: nat, lsb: bool)
    requires TiffAt(t, d, lsb) && code < Pow2(Width(8, Ceiling(NextFree(8, d), lsb)))
    ensures var w := Width(8, Ceiling(NextFree(8, d), lsb));
            w > 0 &&
            var r := OneCode(t.(size := w), code, n);
            Decode(Write(code, w, lsb) + rest, t, n, lsb) == if r.Stop? then r.o else Decode(rest, r.d, n, lsb)
  {
    PowersUsed();
    hide Pow2;
    hide Write;
    hide Width;
    hide CodeOf;
    hide OneCode;
    WidthOfTiff(t, d, lsb);
    hide LeastWidth;
    ReadsWritten(code, Width(8, Ceiling(NextFree(8, d), lsb)), lsb, rest);
  }

  lemma TiffCode(t: Decoder, d: Words, code: nat, n: nat, lsb: bool)
    requires TiffAt(t, d, lsb) && Known(8, d, code) && |t.out| + |Spelled(8, d, code)| <= n
    ensures var w, s := Width(8, Ceiling(NextFree(8, d), lsb)), Spelled(8, d, code);
            w > 0 &&
            if |t.out| + |s| == n then OneCode(t.(size := w), code, n) == Stop(Count(t.out + s))
            else
              var r := OneCode(t.(size := w), code, n);
              r.Go? && r.d.out == t.out + s && TiffAt(r.d, Then(8, d, s), lsb)
  {
    PowersUsed();
    hide Pow2;
    hide Width;
    WidthOfTiff(t, d, lsb);
    LeastWidthKept(t, code, n, lsb);
    hide LeastWidth;
  }

  lemma ClearedTiff(size: nat, out: text, lsb: bool)
    requires size == INIT_WIDTH
    ensures TiffAt(Decoder(size, [], [], out), Empty, lsb)
  {
    LeastWidthAtStart(out, lsb);
  }

  // The decoder gives the text of every legal list, in either bit order, whatever bits follow its end code.
  lemma {:induction false} TiffReads(d: Words, codes: seq<nat>, t: Decoder, pad: bits, lsb: bool)
    requires TiffAt(t, d, lsb) && Filled(d) && t.Sound() && t.size > 0 && Legal(8, d, codes)
    ensures var x := Text(8, d, codes);
            Decode(Written(8, d, codes, lsb) + pad, t, |t.out| + |x|, lsb) == Count(t.out + x)
    decreases |codes|
  {
    PowersUsed();
    hide TiffAt;
    hide Width;
    hide Pow2;
    hide Write;
    hide Known;
    hide Spelled;
    hide Then;
    hide Filled;
    hide Decode;
    EmptyFilled();
    var w, x := Width(8, Ceiling(NextFree(8, d), lsb)), Text(8, d, codes);
    var n := |t.out| + |x|;
    if codes == [] {
      CodeFitsWidth(8, d, EOI, lsb);
      TiffReadsFirst(t, d, EOI, pad, n, lsb);
      assert t.out + x == t.out;
    } else if codes[0] == CLEAR {
      var rest := Written(8, Empty, codes[1..], lsb);
      Associative(Write(codes[0], w, lsb), rest, pad);
      CodeFitsWidth(8, d, CLEAR, lsb);
      TiffReadsFirst(t, d, CLEAR, rest + pad, n, lsb);
      ClearedTiff(INIT_WIDTH, t.out, lsb);
      TiffReads(Empty, codes[1..], Decoder(INIT_WIDTH, [], [], t.out), pad, lsb);
    } else {
      hide OneCode;
      var s := Spelled(8, d, codes[0]);
      var e := Then(8, d, s);
      var rest := Written(8, e, codes[1..], lsb);
      Associative(Write(codes[0], w, lsb), rest, pad);
      CodeFitsWidth(8, d, codes[0], lsb);
      TiffReadsFirst(t, d, codes[0], rest + pad, n, lsb);
      TiffCode(t, d, codes[0], n, lsb);
      assert t.out + x == (t.out + s) + Text(8, e, codes[1..]);
      if |t.out| + |s| == n {
        assert t.out + x == t.out + s;
      } else {
        TiffReads(e, codes[1..], OneCode(t.(size := w), codes[0], n).d, pad, lsb);
      }
    }
  }

  lemma EmptyFilled()
    ensures Filled(Empty)
  {
  }

  lemma TiffListRoundTrip(codes: seq<nat>, pad: bits, lsb: bool)
    requires Legal(8, Empty, codes)
    ensures var x := Text(8, Empty, codes);
            Decode(Written(8, Empty, codes, lsb) + pad, Start, |x|, lsb) == Count(x)
  {
    hide Written;
    hide Legal;
    hide Decode;
    ClearedTiff(INIT_WIDTH, [], lsb);
    TiffReads(Empty, codes, Start, pad, lsb);
    assert [] + Text(8, Empty, codes) == Text(8, Empty, codes);
  }

  // A code that is neither CLEAR nor the end code nor known is an error.
  lemma TiffRejects(t: Decoder, d: Words, code: nat, rest: bits, n: nat, lsb: bool)
    requires TiffAt(t, d, lsb) && code < Pow2(Width(8, Ceiling(NextFree(8, d), lsb)))
    requires code != CLEAR && code != EOI && !Known(8, d, code)
    ensures var w := Width(8, Ceiling(NextFree(8, d), lsb));
            w > 0 && Decode(Write(code, w, lsb) + rest, t, n, lsb) == Corrupt
  {
    TwelveBits(d, code, lsb);
    hide Write;
    hide Width;
    TiffReadsFirst(t, d, code, rest, n, lsb);
    hide Decode;
    PowersUsed();
    hide Pow2;
  }

  lemma TwelveBits(d: Words, code: nat, lsb: bool)
    requires code < Pow2(Width(8, Ceiling(NextFree(8, d), lsb)))
    ensures code < MAX_CODES
  {
    hide Pow2;
    WidthIsLeast(8, Ceiling(NextFree(8, d), lsb));
    Pow2Monotone(Width(8, Ceiling(NextFree(8, d), lsb)), 12);
    PowersUsed();
  }

  // So is a string that does not fit the output.
  lemma TiffOverflows(t: Decoder, d: Words, code: nat, rest: bits, n: nat, lsb: bool)
    requires TiffAt(t, d, lsb) && Known(8, d, code) && |t.out| + |Spelled(8, d, code)| > n
    ensures var w := Width(8, Ceiling(NextFree(8, d), lsb));
            w > 0 && Decode(Write(code, w, lsb) + rest, t, n, lsb) == TooLong
  {
    CodeFitsWidth(8, d, code, lsb);
    hide Write;
    hide Width;
    TiffReadsFirst(t, d, code, rest, n, lsb);
    hide Decode;
    PowersUsed();
    hide Pow2;
  }

  // ---- an encoder that always takes the longest string it knows ----

  predicate Letters(m: nat, x: text)
  {
    forall i :: 0 <= i < |x| ==> x[i] < Pow2(m)
  }

  // Among the letters and the first k of the codes behind them, the one with the longest string that x begins with.
  function Best(m: nat, d: Words, x: text, k: nat): (code: nat)
    requires m <= 8 && Filled(d) && x != [] && Letters(m, x)
    ensures Known(m, d, code) && Spelled(m, d, code) <= x
  {
    if k == 0 then x[0] else
    var other, code := Best(m, d, x, k - 1), Pow2(m) + 1 + k;
    if Known(m, d, code) && Spelled(m, d, code) <= x && |Spelled(m, d, code)| > |Spelled(m, d, other)| then code
    else other
  }

  function Longest(m: nat, d: Words, x: text): (code: nat)
    requires m <= 8 && Filled(d) && x != [] && Letters(m, x)
    ensures Known(m, d, code) && Spelled(m, d, code) <= x
  {
    Best(m, d, x, |d.entries| + 1)
  }

  lemma {:induction false} BestIsLongest(m: nat, d: Words, x: text, k: nat, code: nat)
    requires m <= 8 && Filled(d) && x != [] && Letters(m, x) && Known(m, d, code) && Spelled(m, d, code) <= x
    requires code < Pow2(m) + 2 + k
    ensures |Spelled(m, d, code)| <= |Spelled(m, d, Best(m, d, x, k))|
    decreases k
  {
    hide Pow2;
    if k > 0 && code != Pow2(m) + 1 + k {
      BestIsLongest(m, d, x, k - 1, code);
    }
  }

  function Greedy(m: nat, d: Words, x: text): seq<nat>
    requires m <= 8 && Filled(d) && Letters(m, x)
    decreases |x|
  {
    if x == [] then [] else
    var code := Longest(m, d, x);
    var s := Spelled(m, d, code);
    [code] + Greedy(m, Then(m, d, s), x[|s|..])
  }

  lemma {:induction false} GreedySpells(m: nat, d: Words, x: text)
    requires m <= 8 && Filled(d) && Letters(m, x)
    ensures Legal(m, d, Greedy(m, d, x)) && Text(m, d, Greedy(m, d, x)) == x
    decreases |x|
  {
    hide Pow2;
    hide Longest;
    hide Spelled;
    hide Then;
    hide Filled;
    if x != [] {
      var s := Spelled(m, d, Longest(m, d, x));
      var rest := Greedy(m, Then(m, d, s), x[|s|..]);
      GreedySpells(m, Then(m, d, s), x[|s|..]);
      assert Greedy(m, d, x)[1..] == rest;
      assert s + x[|s|..] == x;
    }
  }

  // A clear code, and the longest strings.
  function Encoding(m: nat, x: text): (codes: seq<nat>)
    requires m <= 8 && Letters(m, x)
    ensures Legal(m, Empty, codes)
  {
    GreedySpells(m, Empty, x);
    assert ([Pow2(m)] + Greedy(m, Empty, x))[1..] == Greedy(m, Empty, x);
    [Pow2(m)] + Greedy(m, Empty, x)
  }

  lemma EncodingSpells(m: nat, x: text)
    requires m <= 8 && Letters(m, x)
    ensures Text(m, Empty, Encoding(m, x)) == x
  {
    GreedySpells(m, Empty, x);
    assert Encoding(m, x)[1..] == Greedy(m, Empty, x);
  }

  // Every image of m-bit pixels comes back from its encoding, whatever bits follow.
  lemma GifRoundTrip(m: nat, x: text, pad: bits)
    requires 2 <= m <= 8 && Letters(m, x)
    ensures GifSpec.GifDecode(Written(m, Empty, Encoding(m, x), true) + pad, GifSpec.GifStart(m), m, |x|)
         == GifSpec.Done(x)
  {
    hide Written;
    hide Encoding;
    hide GifSpec.GifDecode;
    EncodingSpells(m, x);
    GifListRoundTrip(m, Encoding(m, x), pad);
  }

  lemma AllBytesAreLetters(x: text)
    ensures Letters(8, x)
  {
    PowersUsed();
  }

  // Every byte string does in the TIFF dialects, high bits first with early change and low bits first with late change.
  lemma TiffRoundTrip(x: text, pad: bits, lsb: bool)
    ensures Letters(8, x) && Decode(Written(8, Empty, Encoding(8, x), lsb) + pad, Start, |x|, lsb) == Count(x)
  {
    hide Written;
    hide Encoding;
    hide Decode;
    AllBytesAreLetters(x);
    EncodingSpells(8, x);
    TiffListRoundTrip(Encoding(8, x), pad, lsb);
  }
}
