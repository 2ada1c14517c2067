/** GIF LZW (Appendix F of GIF89a) with a dictionary of strings, and how it relates to the old TIFF dialect. */
module GifSpec {
  import opened Powers
  import opened Bits
  import opened LzwSpec

  // Done is the status 0, TooSoon -2 and BadCode -4.
  datatype GifOutcome = Done(out: text) | TooSoon | BadCode

  // table[i] is the string of code 2^m + 2 + i; prev is [] after a clear code.
  datatype Gif = Gif(size: nat, table: seq<text>, prev: text, out: text)

  function ClearCode(m: nat): nat
  {
    Pow2(m)
  }

  function NextCode(m: nat, d: Gif): nat
  {
    ClearCode(m) + 2 + |d.table|
  }

  ghost predicate Sound(d: Gif)
  {
    forall i :: 0 <= i < |d.table| ==> d.table[i] != []
  }

  predicate Defined(m: nat, d: Gif, code: nat)
  {
    code < ClearCode(m) ||
      (ClearCode(m) + 2 <= code && (code < NextCode(m, d) || (code == NextCode(m, d) && d.prev != [])))
  }

  // The string of a code; the code about to be added is K-w-K.
  function GifString(m: nat, d: Gif, code: nat): (s: text)
    requires m <= 8 && Sound(d) && Defined(m, d, code)
    ensures s != []
  {
    if code < ClearCode(m) then [Literal(m, code)] else
    if code < NextCode(m, d) then d.table[code - ClearCode(m) - 2] else d.prev + [d.prev[0]]
  }

  function Literal(m: nat, code: nat): byte
    requires m <= 8 && code < ClearCode(m)
  {
    LiteralBelow(m);
    code
  }

  lemma LiteralBelow(m: nat)
    requires m <= 8
    ensures Pow2(m) <= 256
  {
    Pow2Monotone(m, 8);
    assert Pow2(4) == 16;
    Pow2Add(4, 4);
  }

  // After a string has been put out: a new entry, and a wider code once the next one needs it.
  function Extended(m: nat, d: Gif, s: text): Gif
    requires s != []
  {
    if d.prev != [] && NextCode(m, d) < MAX_CODES then
      var table := d.table + [d.prev + [s[0]]];
      var next := ClearCode(m) + 2 + |table|;
      Gif(if next == Pow2(d.size) && d.size < 12 then d.size + 1 else d.size, table, s, d.out + s)
    else Gif(d.size, d.table, s, d.out + s)
  }

  // Decode the bits s into n bytes.
  function GifDecode(s: bits, d: Gif, m: nat, n: nat): GifOutcome
    requires m <= 8 && d.size > 0 && Sound(d) && |d.out| <= n
    decreases |s|
  {
    if |s| < d.size then Finish(d, n) else
    var code, rest := ValueLsb(s[..d.size]), s[d.size..];
    if code == ClearCode(m) + 1 then Finish(d, n) else
    if code == ClearCode(m) then GifDecode(rest, Gif(m + 1, [], [], d.out), m, n) else
    if !Defined(m, d, code) then BadCode else
    var str := GifString(m, d, code);
    if |d.out| + |str| > n then Done(d.out + str[..n - |d.out|]) else
    GifDecode(rest, Extended(m, d, str), m, n)
  }

  function Finish(d: Gif, n: nat): GifOutcome
  {
    if |d.out| == n then Done(d.out) else TooSoon
  }

  function GifStart(m: nat): Gif
  {
    Gif(m + 1, [], [], [])
  }

  // A completed decode is exactly the bytes asked for.
  lemma {:induction false} DoneIsFull(s: bits, d: Gif, m: nat, n: nat)
    requires m <= 8 && d.size > 0 && Sound(d) && |d.out| <= n
    ensures var r := GifDecode(s, d, m, n); r.Done? ==> |r.out| == n && d.out <= r.out
    decreases |s|
  {
    hide Pow2;
    hide ValueLsb;
    if |s| >= d.size {
      var code, rest := ValueLsb(s[..d.size]), s[d.size..];
      if code == ClearCode(m) + 1 {
      } else if code == ClearCode(m) {
        DoneIsFull(rest, Gif(m + 1, [], [], d.out), m, n);
      } else if Defined(m, d, code) {
        var str := GifString(m, d, code);
        if |d.out| + |str| <= n {
          DoneIsFull(rest, Extended(m, d, str), m, n);
        }
      }
    }
  }

  // ---- against the old TIFF dialect ----

  // What is left to read once the output is full is harmless: after any clear codes it ends, or goes on with a
  // code that is defined.
  predicate TailAccepted(s: bits, d: Gif, m: nat)
    requires d.size > 0
    decreases |s|
  {
    |s| < d.size ||
    var code, rest := ValueLsb(s[..d.size]), s[d.size..];
    code == ClearCode(m) + 1 ||
    if code == ClearCode(m) then TailAccepted(rest, Gif(m + 1, [], [], d.out), m) else Defined(m, d, code)
  }

  // A decoder whose output is full only looks at the tail.
  lemma {:induction false} FullDecoder(s: bits, d: Gif, m: nat, n: nat)
    requires m <= 8 && d.size > 0 && Sound(d) && |d.out| == n
    ensures GifDecode(s, d, m, n) == if TailAccepted(s, d, m) then Done(d.out) else BadCode
    decreases |s|
  {
    hide Pow2;
    hide ValueLsb;
    if |s| >= d.size {
      var code, rest := ValueLsb(s[..d.size]), s[d.size..];
      if code == ClearCode(m) {
        FullDecoder(rest, Gif(m + 1, [], [], d.out), m, n);
      } else if code != ClearCode(m) + 1 && Defined(m, d, code) {
        assert d.out + GifString(m, d, code)[..0] == d.out;
      }
    }
  }

  // The GIF decoder with 8-bit literals, in the same state as the TIFF decoder.
  function SameState(d: Decoder): Gif
  {
    Gif(Grow(d.size, d.Next(), true), d.table, d.prev, d.out)
  }

  // The bits that are still unread when the TIFF decoder has filled n bytes, and the state it is in.
  datatype Full = Full(rest: bits, d: Gif)

  function WhenFull(s: bits, d: Decoder, n: nat): Full
    requires d.size > 0 && d.Sound()
    decreases |s|
  {
    var size := Grow(d.size, d.Next(), true);
    if |s| < size || |d.out| == n then Full(s, SameState(d)) else
    var code := ValueLsb(s[..size]);
    var sized := d.(size := size);
    if code == CLEAR then WhenFull(s[size..], Decoder(INIT_WIDTH, [], [], d.out), n) else
    if code == EOI || code > d.Next() || (code == d.Next() && d.prev == []) then Full(s, SameState(d)) else
    var str := StringOf(sized, code);
    var table := if d.prev != [] && d.Next() < MAX_CODES then d.table + [d.prev + [str[0]]] else d.table;
    WhenFull(s[size..], Decoder(size, table, str, d.out + str), n)
  }

  lemma LiteralWidths()
    ensures Pow2(8) == 256 && Pow2(9) == 512
  {
    assert Pow2(4) == 16;
    Pow2Add(4, 4);
  }

  lemma GrowOnce(size: nat, next: nat)
    ensures Grow(Grow(size, next, true), next, true) == Grow(size, next, true)
  {
  }

  // Putting out a string leaves the two decoders in the same state.
  lemma SameExtension(d: Decoder, str: text)
    requires d.Sound() && str != []
    requires d.prev == [] || d.Next() >= MAX_CODES ==> Grow(d.size, d.Next(), true) == d.size
    ensures var table := if d.prev != [] && d.Next() < MAX_CODES then d.table + [d.prev + [str[0]]] else d.table;
            Extended(8, Gif(d.size, d.table, d.prev, d.out), str) == SameState(Decoder(d.size, table, str, d.out + str))
  {
    LiteralWidths();
    hide Pow2;
  }

  lemma SameStrings(d: Decoder, code: nat)
    requires d.Sound() && code != CLEAR && code != EOI
    ensures Defined(8, SameState(d), code) == !(code > d.Next() || (code == d.Next() && d.prev == []))
    ensures Sound(SameState(d))
    ensures Defined(8, SameState(d), code) ==>
            GifString(8, SameState(d), code) == StringOf(d.(size := Grow(d.size, d.Next(), true)), code)
  {
    LiteralWidths();
    hide Pow2;
    hide Grow;
  }

  lemma AfterClear(out: text)
    ensures SameState(Decoder(INIT_WIDTH, [], [], out)) == Gif(9, [], [], out)
  {
    LiteralWidths();
    hide Pow2;
  }

  // One step of the TIFF decoder that leaves room, and the same step of the GIF decoder.
  ghost predicate InStep(s: bits, d: Decoder, n: nat, s': bits, d': Decoder)
  {
    d.size > 0 && d.Sound() && d'.size > 0 && d'.Sound() && |d'.out| <= n && |s'| < |s| &&
    WhenFull(s, d, n) == WhenFull(s', d', n) && Sound(SameState(d)) && Sound(SameState(d')) && |d.out| <= n &&
    GifDecode(s, SameState(d), 8, n) == GifDecode(s', SameState(d'), 8, n)
  }

  lemma ClearStep(s: bits, d: Decoder, n: nat)
    requires d.size > 0 && d.Sound() && |d.out| < n && |s| >= Grow(d.size, d.Next(), true)
    requires ValueLsb(s[..Grow(d.size, d.Next(), true)]) == CLEAR
    ensures InStep(s, d, n, s[Grow(d.size, d.Next(), true)..], Decoder(INIT_WIDTH, [], [], d.out))
  {
    LiteralWidths();
    AfterClear(d.out);
    hide Pow2;
    hide Grow;
    hide ValueLsb;
  }

  lemma StringStep(s: bits, d: Decoder, n: nat, code: nat, str: text, table: seq<text>)
    requires d.size > 0 && d.Sound() && |d.out| < n && |s| >= d.size && Grow(d.size, d.Next(), true) == d.size
    requires code == ValueLsb(s[..d.size]) && code != CLEAR && code != EOI &&
             !(code > d.Next() || (code == d.Next() && d.prev == []))
    requires str == StringOf(d, code) && |d.out| + |str| <= n
    requires table == if d.prev != [] && d.Next() < MAX_CODES then d.table + [d.prev + [str[0]]] else d.table
    ensures InStep(s, d, n, s[d.size..], Decoder(d.size, table, str, d.out + str))
  {
    SameStrings(d, code);
    SameExtension(d, str);
    LiteralWidths();
    hide Pow2;
    hide Grow;
    hide ValueLsb;
    hide Extended;
    hide GifString;
    hide StringOf;
    hide Defined;
  }

  function Grown(d: Decoder): Decoder
  {
    d.(size := Grow(d.size, d.Next(), true))
  }

  // The TIFF decoder widens its code right before reading it; nothing else depends on when.
  lemma GrowFirst(s: bits, d: Decoder, n: nat)
    requires d.size > 0 && d.Sound()
    ensures Grown(d).size > 0 && Grown(d).Sound() && Grow(Grown(d).size, Grown(d).Next(), true) == Grown(d).size
    ensures Decode(s, Grown(d), n, true) == Decode(s, d, n, true) && WhenFull(s, Grown(d), n) == WhenFull(s, d, n)
    ensures SameState(Grown(d)) == SameState(d)
  {
    GrowOnce(d.size, d.Next());
    hide Grow;
    hide OneCode;
    hide StringOf;
    hide CodeOf;
    hide ValueLsb;
  }

  // The TIFF decoder is done with out, or will be.
  ghost predicate Yields(s: bits, d: Decoder, n: nat, out: text)
  {
    d.size > 0 && d.Sound() && |d.out| <= n == |out| &&
      if |d.out| == n then d.out == out else Decode(s, d, n, true) == Count(out)
  }

  // When the TIFF decoder of least-significant-bit-first streams returns exactly the n bytes asked for, the GIF
  // decoder with 8-bit literals returns them too, unless what follows them goes on with an undefined code.
  lemma {:induction false} TiffAgrees(s: bits, d: Decoder, n: nat, out: text)
    requires Yields(s, d, n, out) && Sound(SameState(d))
    ensures var full := WhenFull(s, d, n);
            full.d.size > 0 &&
            GifDecode(s, SameState(d), 8, n) == if TailAccepted(full.rest, full.d, 8) then Done(out) else BadCode
    decreases |s|
  {
    hide Pow2;
    hide Grow;
    hide Decode;
    hide ValueLsb;
    hide StringOf;
    hide GifDecode;
    hide SameState;
    hide TailAccepted;
    SameParts(d);
    if |d.out| == n {
      FullDecoder(s, SameState(d), 8, n);
    } else {
      GrowFirst(s, d, n);
      var s', d' := OneStep(s, Grown(d), n, out);
      TiffAgrees(s', d', n, out);
    }
  }

  lemma SameParts(d: Decoder)
    requires d.size > 0
    ensures SameState(d).size > 0 && SameState(d).out == d.out
  {
  }

  lemma OneStep(s: bits, d: Decoder, n: nat, out: text) returns (s': bits, d': Decoder)
    requires Yields(s, d, n, out) && |d.out| < n && Grow(d.size, d.Next(), true) == d.size
    ensures InStep(s, d, n, s', d') && Yields(s', d', n, out)
  {
    hide Pow2;
    hide Grow;
    hide ValueLsb;
    hide StringOf;
    hide GifDecode;
    hide WhenFull;
    hide SameState;
    var code := ValueLsb(s[..d.size]);
    s' := s[d.size..];
    if code == CLEAR {
      d' := Decoder(INIT_WIDTH, [], [], d.out);
      ClearStep(s, d, n);
    } else {
      var str := StringOf(d, code);
      var table := if d.prev != [] && d.Next() < MAX_CODES then d.table + [d.prev + [str[0]]] else d.table;
      d' := Decoder(d.size, table, str, d.out + str);
      StringStep(s, d, n, code, str, table);
    }
  }

  // For every input on which the TIFF decoder returns the n bytes asked for, in terms of the input's bits.
  lemma GifFollowsTiff(input: seq<byte>, n: nat, out: text)
    requires Decode(UnpackLsb(input), Start, n, true) == Count(out) && |out| == n
    ensures var full := WhenFull(UnpackLsb(input), Start, n);
            full.d.size > 0 &&
            (GifDecode(UnpackLsb(input), GifStart(8), 8, n) == Done(out)) == TailAccepted(full.rest, full.d, 8)
  {
    hide Decode;
    hide GifDecode;
    hide WhenFull;
    hide TailAccepted;
    hide UnpackLsb;
    hide SameState;
    AfterClear([]);
    TiffAgrees(UnpackLsb(input), Start, n, out);
  }

  // An input on which the two differ: a clear code, the letter A, and a code that is not defined. One byte is asked
  // for.
  lemma TiffStopsEarlier(tail: bits)
    ensures var s := Lsb(CLEAR, 9) + (Lsb(65, 9) + (Lsb(300, 9) + tail));
            Decode(s, Start, 1, true) == Count([65]) && GifDecode(s, GifStart(8), 8, 1) == BadCode
  {
    hide Lsb;
    hide ValueLsb;
    LiteralWidths();
    ReadsBack(CLEAR, Lsb(65, 9) + (Lsb(300, 9) + tail));
    ReadsBack(65, Lsb(300, 9) + tail);
    ReadsBack(300, tail);
    hide Pow2;
    var a := Decoder(9, [], [], []);
    var t := Lsb(65, 9) + (Lsb(300, 9) + tail);
    assert Decode(t, a, 1, true) == Count([65]);
    assert GifDecode(Lsb(300, 9) + tail, Gif(9, [], [65], [65]), 8, 1) == BadCode;
    assert GifDecode(t, Gif(9, [], [], []), 8, 1) == BadCode;
  }

  lemma ReadsBack(v: nat, rest: bits)
    requires v < 512
    ensures var s := Lsb(v, 9) + rest; |s| >= 9 && ValueLsb(s[..9]) == v && s[9..] == rest
  {
    LiteralWidths();
    ValueOfLsb(v, 9);
    QuotientUnique(v, 512, 0, v);
    hide Lsb;
    hide ValueLsb;
    assert (Lsb(v, 9) + rest)[..9] == Lsb(v, 9);
  }
}
