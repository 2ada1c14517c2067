/** The TIFF encoder, with its map from prefix and byte to code, takes the longest string that the decoder knows. */
module LzwLongest {
  import opened Powers
  import opened Bits
  import opened LzwSpec
  import opened LzwCodes

  // The codes without their widths.
  function CodesOf(c: seq<Code>): (r: seq<nat>)
    ensures |r| == |c|
  {
    if c == [] then [] else [c[0].code] + CodesOf(c[1..])
  }

  // The next code is the last before the table is full.
  predicate Last(d: Words)
  {
    FIRST + |d.entries| + (if d.last != [] then 1 else 0) == RESET_CODE
  }

  // The longest known strings one after the other, and a CLEAR when the table is full.
  function Longests(d: Words, x: text): seq<nat>
    requires Filled(d)
    decreases |x|
  {
    if x == [] then [] else
    AllBytesAreLetters(x);
    var code := Longest(8, d, x);
    var s := Spelled(8, d, code);
    var rest := x[|s|..];
    if rest == [] then [code]
    else if Last(d) then [code, CLEAR] + Longests(Empty, rest)
    else [code] + Longests(Then(8, d, s), rest)
  }

  // Every string has its key in the map.
  ghost predicate Complete(m: dict, strings: seq<text>, keys: seq<(nat, byte)>)
  {
    |keys| == |strings| && forall j {:trigger keys[j]} :: 0 <= j < |keys| ==> keys[j] in m && m[keys[j]] == FIRST + j
  }

  // No two codes have the same string.
  ghost predicate Unique(strings: seq<text>)
  {
    forall a, b :: Named(strings, a) && Named(strings, b) && NameOf(strings, a) == NameOf(strings, b) ==> a == b
  }

  lemma NoStrings()
    ensures Unique([]) && Complete(map[], [], [])
  {
  }

  // When some string begins with that of a code and a further byte, the map has an entry for the two.
  lemma {:induction false} Extends(m: dict, strings: seq<text>, keys: seq<(nat, byte)>, prefix: nat, b: byte, c: nat)
    requires DictNames(m, strings) && Complete(m, strings, keys) && Unique(strings)
    requires Named(strings, prefix) && Named(strings, c) && NameOf(strings, prefix) != []
    requires NameOf(strings, prefix) + [b] <= NameOf(strings, c)
    ensures (prefix, b) in m
    decreases |NameOf(strings, c)|
  {
    var w, s := NameOf(strings, prefix), NameOf(strings, c);
    var k := keys[c - FIRST];
    assert s == NameOf(strings, k.0) + [k.1];
    if |s| == |w| + 1 {
      assert s[..|w|] == w && s[|w|] == b;
      assert NameOf(strings, k.0) == s[..|w|];
      assert k == (prefix, b);
    } else {
      assert NameOf(strings, k.0) == s[..|s| - 1];
      assert w + [b] <= s[..|s| - 1];
      Extends(m, strings, keys, prefix, b, k.0);
    }
  }

  lemma GrowsUnique(m: dict, strings: seq<text>, keys: seq<(nat, byte)>, prefix: nat, b: byte)
    requires DictNames(m, strings) && Complete(m, strings, keys) && Unique(strings)
    requires Named(strings, prefix) && (prefix, b) !in m && NameOf(strings, prefix) != []
    ensures var grown := strings + [NameOf(strings, prefix) + [b]];
            Unique(grown) && Complete(m[(prefix, b) := FIRST + |strings|], grown, keys + [(prefix, b)])
  {
    var s := NameOf(strings, prefix) + [b];
    var grown := strings + [s];
    forall c | Named(strings, c)
      ensures NameOf(grown, c) == NameOf(strings, c) != s
    {
      if NameOf(strings, c) == s {
        Extends(m, strings, keys, prefix, b, c);
      }
    }
    forall a, c | Named(grown, a) && Named(grown, c) && NameOf(grown, a) == NameOf(grown, c)
      ensures a == c
    {
      assert Named(strings, a) || NameOf(grown, a) == s;
      assert Named(strings, c) || NameOf(grown, c) == s;
    }
  }

  // ---- the decoder's dictionary and the encoder's strings ----

  function WordsOf(d: Decoder): Words
  {
    Words(d.table, d.prev)
  }

  lemma KnownIsNamed(strings: seq<text>, d: Decoder, w: text, rest: text, c: nat)
    requires d.Sound() && InStep(strings, d, w) && w <= rest && FIRST + |strings| <= RESET_CODE
    requires Filled(WordsOf(d)) && Known(8, WordsOf(d), c) && Spelled(8, WordsOf(d), c) <= rest
    ensures Named(strings, c) && NameOf(strings, c) == Spelled(8, WordsOf(d), c)
  {
    PowersUsed();
    assert w[0] == rest[0];
    if c >= FIRST + |d.table| {
      assert d.prev[0] == (d.prev + [d.prev[0]])[0] == rest[0];
    }
  }

  lemma NamedIsKnown(strings: seq<text>, d: Decoder, prefix: nat)
    requires d.Sound() && Named(strings, prefix) && InStep(strings, d, NameOf(strings, prefix))
    requires FIRST + |strings| <= RESET_CODE
    ensures Filled(WordsOf(d)) && Known(8, WordsOf(d), prefix)
    ensures Spelled(8, WordsOf(d), prefix) == NameOf(strings, prefix)
  {
    PowersUsed();
    if prefix >= FIRST + |d.table| {
      assert d.prev != [];
      assert (d.prev + [NameOf(strings, prefix)[0]])[0] == d.prev[0];
    }
  }

  lemma PendingBegins(x: text, i: nat, out: text, w: text)
    requires i <= |x| && out + w == x[..i]
    ensures |out| + |w| == i && w <= x[|out|..]
  {
    assert x[..i][|out|..] == w;
  }

  // The pending string is the longest that the rest of the input begins with, if it cannot be extended.
  lemma PendingIsLongest(x: text, i: nat, m: dict, next: nat, width: nat, prefix: nat, strings: seq<text>,
                         keys: seq<(nat, byte)>, d: Decoder)
    requires AtByte(x, i, m, next, width, prefix, strings, d) && Complete(m, strings, keys) && Unique(strings)
    requires i < |x| ==> (prefix, x[i]) !in m
    ensures Filled(WordsOf(d)) && |d.out| < |x| && Letters(8, x[|d.out|..])
    ensures Longest(8, WordsOf(d), x[|d.out|..]) == prefix
    ensures Spelled(8, WordsOf(d), prefix) == NameOf(strings, prefix)
    ensures |d.out| + |NameOf(strings, prefix)| == i
  {
    hide WidthInStep;
    hide Complete;
    hide Unique;
    hide DictNames;
    hide Known;
    hide Spelled;
    hide Pow2;
    hide Longest;
    var w, rest := NameOf(strings, prefix), x[|d.out|..];
    PendingBegins(x, i, d.out, w);
    AllBytesAreLetters(rest);
    NamedIsKnown(strings, d, prefix);
    var c := Longest(8, WordsOf(d), rest);
    LongestIsLongest(WordsOf(d), rest, prefix);
    KnownIsNamed(strings, d, w, rest, c);
    SameLength(x, i, m, strings, keys, prefix, w, rest, c);
  }

  lemma LongestIsLongest(d: Words, x: text, code: nat)
    requires Filled(d) && x != [] && Letters(8, x) && Known(8, d, code) && Spelled(8, d, code) <= x
    ensures |Spelled(8, d, code)| <= |Spelled(8, d, Longest(8, d, x))|
  {
    hide Spelled;
    KnownBelow(d, code);
    hide Known;
    BestIsLongest(8, d, x, |d.entries| + 1, code);
  }

  lemma SameLength(x: text, i: nat, m: dict, strings: seq<text>, keys: seq<(nat, byte)>, prefix: nat, w: text,
                   rest: text, c: nat)
    requires DictNames(m, strings) && Complete(m, strings, keys) && Unique(strings)
    requires Named(strings, prefix) && Named(strings, c) && w == NameOf(strings, prefix) && w != []
    requires w <= rest && NameOf(strings, c) <= rest && |w| <= |NameOf(strings, c)|
    requires |w| <= i <= |x| && rest == x[i - |w|..] && (i < |x| ==> (prefix, x[i]) !in m)
    ensures c == prefix
  {
    hide DictNames;
    hide Complete;
    var s := NameOf(strings, c);
    if |s| > |w| {
      assert s[|w|] == rest[|w|] == x[i];
      assert w + [x[i]] <= s;
      Extends(m, strings, keys, prefix, x[i], c);
    } else {
      assert s == w;
    }
  }

  lemma KnownBelow(d: Words, code: nat)
    requires Known(8, d, code)
    ensures code < Pow2(8) + 2 + (|d.entries| + 1)
  {
  }

  // ---- the encoder ----

  // What the encoder's pending string contributes.
  lemma NextLongest(x: text, i: nat, m: dict, next: nat, width: nat, prefix: nat, strings: seq<text>,
                    keys: seq<(nat, byte)>, d: Decoder)
    requires AtByte(x, i, m, next, width, prefix, strings, d) && Complete(m, strings, keys) && Unique(strings)
    requires i < |x| ==> (prefix, x[i]) !in m
    ensures Filled(WordsOf(d)) && |d.out| <= |x| && Last(WordsOf(d)) == (next == RESET_CODE)
    ensures var w := NameOf(strings, prefix);
            w != [] && Filled(Then(8, WordsOf(d), w)) && Then(8, WordsOf(d), w) == Words(strings, w) &&
            Longests(WordsOf(d), x[|d.out|..])
              == if i == |x| then [prefix]
                 else if next == RESET_CODE then [prefix, CLEAR] + Longests(Empty, x[i..])
                 else [prefix] + Longests(Then(8, WordsOf(d), w), x[i..])
  {
    hide WidthInStep;
    hide Complete;
    hide Unique;
    hide DictNames;
    hide Known;
    hide Spelled;
    hide Longest;
    PowersUsed();
    hide Pow2;
    PendingIsLongest(x, i, m, next, width, prefix, strings, keys, d);
    assert x[|d.out|..][i - |d.out|..] == x[i..];
  }

  lemma CodesFirst(c: Code, rest: seq<Code>)
    ensures CodesOf([c] + rest) == [c.code] + CodesOf(rest)
  {
    assert ([c] + rest)[1..] == rest;
  }

  lemma CodesTwo(c: Code, d: Code, rest: seq<Code>)
    ensures CodesOf([c, d] + rest) == [c.code, d.code] + CodesOf(rest)
  {
    assert [c, d] + rest == [c] + ([d] + rest);
    CodesFirst(c, [d] + rest);
    CodesFirst(d, rest);
  }

  lemma {:induction false} EncodeFromLongest(x: text, i: nat, m: dict, next: nat, width: nat, prefix: nat,
                                             strings: seq<text>, keys: seq<(nat, byte)>, d: Decoder)
    requires AtByte(x, i, m, next, width, prefix, strings, d) && Complete(m, strings, keys) && Unique(strings)
    ensures Filled(WordsOf(d)) && |d.out| <= |x|
    ensures CodesOf(EncodeFrom(x, i, m, next, width, prefix)) == Longests(WordsOf(d), x[|d.out|..]) + [EOI]
    decreases |x| - i
  {
    hide AtByte;
    hide Complete;
    hide Unique;
    hide EncodeFrom;
    hide Longests;
    hide DictNames;
    hide CodesOf;
    AtByteFacts(x, i, m, next, width, prefix, strings, d);
    EncodeFromUnfold(x, i, m, next, width, prefix);
    if i < |x| && (prefix, x[i]) in m {
      Hit(x, i, m, next, width, prefix, strings, d);
      EncodeFromLongest(x, i + 1, m, next, width, m[(prefix, x[i])], strings, keys, d);
    } else {
      NextLongest(x, i, m, next, width, prefix, strings, keys, d);
      if i == |x| {
        TwoCodes(prefix, width);
      } else if next < RESET_CODE {
        MissLongest(x, i, m, next, width, prefix, strings, keys, d);
      } else {
        var e := Decoder(INIT_WIDTH, [], [], x[..i]);
        FreshAtByte(x, i + 1, e);
        NoStrings();
        EncodeFromLongest(x, i + 1, map[], FIRST, INIT_WIDTH, x[i], [], [], e);
        var rest := EncodeFrom(x, i + 1, map[], FIRST, INIT_WIDTH, x[i]);
        CodesTwo(Code(prefix, width), Code(CLEAR, width), rest);
        var later := Longests(Empty, x[i..]);
        assert ([prefix, CLEAR] + later) + [EOI] == [prefix, CLEAR] + (later + [EOI]);
      }
    }
  }

  lemma TwoCodes(prefix: nat, width: nat)
    ensures CodesOf([Code(prefix, width), Code(EOI, width)]) == [prefix] + [EOI]
  {
    CodesTwo(Code(prefix, width), Code(EOI, width), []);
    assert [Code(prefix, width), Code(EOI, width)] + [] == [Code(prefix, width), Code(EOI, width)];
  }

  lemma MissLongest(x: text, i: nat, m: dict, next: nat, width: nat, prefix: nat, strings: seq<text>,
                    keys: seq<(nat, byte)>, d: Decoder)
    requires AtByte(x, i, m, next, width, prefix, strings, d) && Complete(m, strings, keys) && Unique(strings)
    requires i < |x| && (prefix, x[i]) !in m && next < RESET_CODE
    ensures Filled(WordsOf(d)) && |d.out| <= |x|
    ensures CodesOf(EncodeFrom(x, i, m, next, width, prefix)) == Longests(WordsOf(d), x[|d.out|..]) + [EOI]
    decreases |x| - i, 0
  {
    hide Complete;
    hide Unique;
    hide EncodeFrom;
    hide Longests;
    hide CodesOf;
    hide OneCode;
    var w, b := NameOf(strings, prefix), x[i];
    NextLongest(x, i, m, next, width, prefix, strings, keys, d);
    EncodeFromUnfold(x, i, m, next, width, prefix);
    var e := Miss(x, i, m, next, width, prefix, strings, d);
    MissState(x, i, m, next, width, prefix, strings, d, e);
    GrowsUnique(m, strings, keys, prefix, b);
    hide AtByte;
    hide DictNames;
    var grown, m' := strings + [w + [b]], m[(prefix, b) := next];
    EncodeFromLongest(x, i + 1, m', next + 1, Widen(next + 1, width), b, grown, keys + [(prefix, b)], e);
    CodesFirst(Code(prefix, width), EncodeFrom(x, i + 1, m', next + 1, Widen(next + 1, width), b));
    var later := Longests(Words(strings, w), x[i..]);
    assert ([prefix] + later) + [EOI] == [prefix] + (later + [EOI]);
  }

  lemma MissState(x: text, i: nat, m: dict, next: nat, width: nat, prefix: nat, strings: seq<text>, d: Decoder,
                  e: Decoder)
    requires AtByte(x, i, m, next, width, prefix, strings, d) && i < |x| && next < RESET_CODE
    requires OneCode(d.(size := width), prefix, |x|) == Go(e)
    ensures WordsOf(e) == Words(strings, NameOf(strings, prefix)) && |e.out| == i
  {
    ReadInStep(d.(size := width), strings, prefix, NameOf(strings, prefix), |x|);
  }

  // The encoder writes a CLEAR, the longest known strings, and the end code.
  lemma EncodeIsLongest(x: text)
    ensures CodesOf(Encode(x)) == [CLEAR] + Longests(Empty, x) + [EOI]
  {
    hide EncodeFrom;
    hide Longests;
    if x == [] {
      NoText();
      TwoCodes(CLEAR, INIT_WIDTH);
      assert [Code(CLEAR, INIT_WIDTH)] + [Code(EOI, INIT_WIDTH)] == [Code(CLEAR, INIT_WIDTH), Code(EOI, INIT_WIDTH)];
    } else {
      FreshAtByte(x, 1, Start);
      NoStrings();
      EncodeFromLongest(x, 1, map[], FIRST, INIT_WIDTH, x[0], [], [], Start);
      CodesFirst(Code(CLEAR, INIT_WIDTH), EncodeFrom(x, 1, map[], FIRST, INIT_WIDTH, x[0]));
      assert x[0..] == x;
      assert ([CLEAR] + Longests(Empty, x)) + [EOI] == [CLEAR] + (Longests(Empty, x) + [EOI]);
    }
  }

  lemma NoText()
    ensures Longests(Empty, []) == []
  {
  }
}
