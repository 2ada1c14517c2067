/**
  The Rice code of a line of pixels: mapped differences of neighbours, split block by block
  into unary tops and fixed-width bottoms; what decoding any bit string yields; and the
  theorem that decoding undoes encoding.
 */
module RiceSpec {
  import opened Powers
  import opened Bits

  // Split levels take fsbits bits, blocks split at fsmax or above are stored directly, and pixels have bbits bits.
  datatype Coder = Coder(fsbits: nat, fsmax: nat, bbits: nat)

  const BYTES := Coder(3, 6, 8)
  const SHORTS := Coder(4, 14, 16)
  const INTS := Coder(5, 25, 32)

  predicate IsCoder(k: Coder)
  {
    k == BYTES || k == SHORTS || k == INTS
  }

  // ---- mapped differences ----

  // The low bits of v as a signed number.
  function Wrapped(v: int, w: nat): int
    requires w > 0
  {
    (v + Pow2(w - 1)) % Pow2(w) - Pow2(w - 1)
  }

  function Mapped(p: int): nat
  {
    if p < 0 then -2 * p - 1 else 2 * p
  }

  function Unmapped(d: nat): int
  {
    if d % 2 == 0 then d / 2 else -(d / 2) - 1
  }

  function Unsigned(v: int, w: nat): (r: nat)
    ensures r < Pow2(w)
  {
    ModuloRange(v, Pow2(w));
    v % Pow2(w)
  }

  lemma MappedBelow(v: int, w: nat)
    requires w > 0
    ensures Mapped(Wrapped(v, w)) < Pow2(w)
  {
    ModuloRange(v + Pow2(w - 1), Pow2(w));
  }

  lemma UnmappedMapped(p: int)
    ensures Unmapped(Mapped(p)) == p
  {
  }

  lemma SameModulo(a: int, b: int, m: nat, k: int)
    requires m > 0 && a == b + k * m
    ensures a % m == b % m
  {
    assert b == m * (b / m) + b % m;
    assert a == m * (b / m + k) + b % m;
    QuotientUnique(a, m, b / m + k, b % m);
  }

  // Adding the wrapped difference to a neighbour known modulo 2^w gives the pixel modulo 2^w.
  lemma DifferenceUndone(pixel: int, last: int, w: nat)
    requires w > 0
    ensures Unsigned(Wrapped(pixel - last, w) + Unsigned(last, w), w) == Unsigned(pixel, w)
  {
    var m, h := Pow2(w), Pow2(w - 1);
    var x := pixel - last + h;
    var sum := (x % m - h) + last % m;
    assert x == m * (x / m) + x % m && last == m * (last / m) + last % m;
    var k := -(x / m) - (last / m);
    assert sum == pixel + k * m by {
      assert k * m == -(m * (x / m)) - (m * (last / m));
    }
    SameModulo(sum, pixel, m, k);
  }

  function Diff(pixel: int, last: int, w: nat): (d: nat)
    requires w > 0
    ensures d < Pow2(w)
  {
    MappedBelow(pixel - last, w);
    Mapped(Wrapped(pixel - last, w))
  }

  // The mapped differences of neighbours, where last precedes the first pixel.
  function Diffs(a: seq<int>, last: int, w: nat): (d: seq<nat>)
    requires w > 0
    ensures |d| == |a| && forall i :: 0 <= i < |d| ==> d[i] < Pow2(w)
  {
    seq(|a|, i requires 0 <= i < |a| => Diff(a[i], if i == 0 then last else a[i - 1], w))
  }

  // ---- encoding ----

  function Sum(d: seq<nat>): nat
  {
    if d == [] then 0 else Sum(d[..|d| - 1]) + d[|d| - 1]
  }

  // The split level of a block.
  function Split(d: seq<nat>): nat
    requires d != []
  {
    var excess := Sum(d) - |d| / 2 - 1;
    BitLength((if excess < 0 then 0 else excess / |d|) / 2)
  }

  function Ones(n: nat): bits
  {
    Zeros(n) + [true]
  }

  lemma OneAbove(n: nat)
    ensures Msb(1, n + 1) == Ones(n)
  {
    MsbOfZero(n);
  }

  // v split at fs: the top in unary, then the bottom.
  function RiceCode(v: nat, fs: nat): (b: bits)
  {
    hide Pow2;
    NotNegative(v, Pow2(fs));
    Ones(v / Pow2(fs)) + Msb(v, fs)
  }

  function Codes(k: Coder, fs: nat, d: seq<nat>): bits
  {
    if d == [] then [] else (if fs == k.fsmax then Msb(d[0], k.bbits) else RiceCode(d[0], fs)) + Codes(k, fs, d[1..])
  }

  function BlockBits(k: Coder, d: seq<nat>): bits
    requires d != []
  {
    var fs := Split(d);
    if fs >= k.fsmax then Msb(k.fsmax + 1, k.fsbits) + Codes(k, k.fsmax, d)
    else if fs == 0 && Sum(d) == 0 then Msb(0, k.fsbits)
    else Msb(fs + 1, k.fsbits) + Codes(k, fs, d)
  }

  function Blocks(k: Coder, a: seq<int>, last: int, nblock: nat): bits
    requires nblock > 0 && k.bbits > 0
    decreases |a|
  {
    if a == [] then [] else
    var n := Least(nblock, |a|);
    BlockBits(k, Diffs(a[..n], last, k.bbits)) + Blocks(k, a[n..], a[n - 1], nblock)
  }

  // The first pixel, then the blocks.
  function LineBits(k: Coder, a: seq<int>, nblock: nat): bits
    requires a != [] && nblock > 0 && k.bbits > 0
  {
    Msb(a[0], k.bbits) + Blocks(k, a, a[0], nblock)
  }

  // ---- decoding ----

  datatype Taken = Short | Took(value: nat, rest: bits)

  function TakeFixed(s: bits, n: nat): Taken
  {
    if |s| < n then Short else Took(Value(s[..n]), s[n..])
  }

  function LeadingZeros(s: bits): (z: nat)
    ensures z <= |s|
    ensures z < |s| ==> s[z]
    ensures forall i :: 0 <= i < z ==> !s[i]
  {
    if s == [] || s[0] then 0 else LeadingZeros(s[1..]) + 1
  }

  // One Rice code. The decoder keeps the bottom's bits and what is left of the last byte in 32 bits.
  function TakeRice(s: bits, fs: nat): Taken
  {
    var z := LeadingZeros(s);
    if |s| < z + 1 + fs then Short else
    var rest := s[z + 1 + fs..];
    Took(z * Pow2(fs) % 0x1_0000_0000 + Unsigned(Value(s[z + 1..z + 1 + fs]), 32 - |rest| % 8), rest)
  }

  function TakeDiff(k: Coder, fs: nat, s: bits): Taken
  {
    if fs == k.fsmax then TakeFixed(s, k.bbits) else TakeRice(s, fs)
  }

  datatype Line = TooShort | Line(pixels: seq<nat>, rest: bits)

  function Prepend(p: seq<nat>, r: Line): Line
  {
    if r.TooShort? then TooShort else Line(p + r.pixels, r.rest)
  }

  // n pixels of a block.
  function DecodeRun(k: Coder, fs: nat, s: bits, n: nat, last: nat): (r: Line)
    ensures r.Line? ==> |r.pixels| == n
    decreases n
  {
    if n == 0 then Line([], s) else
    var t := TakeDiff(k, fs, s);
    if t.Short? then TooShort else
    var px := Unsigned(Unmapped(t.value) + last, k.bbits);
    Prepend([px], DecodeRun(k, fs, t.rest, n - 1, px))
  }

  function DecodeBlock(k: Coder, s: bits, n: nat, last: nat): (r: Line)
    ensures r.Line? ==> |r.pixels| == n
  {
    var t := TakeFixed(s, k.fsbits);
    if t.Short? then TooShort else
    if t.value == 0 then Line(seq(n, _ => last), t.rest) else DecodeRun(k, t.value - 1, t.rest, n, last)
  }

  function DecodeBlocks(k: Coder, s: bits, nx: nat, last: nat, nblock: nat): (r: Line)
    requires nblock > 0
    ensures r.Line? ==> |r.pixels| == nx
    decreases nx
  {
    if nx == 0 then Line([], s) else
    var n := Least(nblock, nx);
    var b := DecodeBlock(k, s, n, last);
    if b.TooShort? then TooShort else
    Prepend(b.pixels, DecodeBlocks(k, b.rest, nx - n, b.pixels[n - 1], nblock))
  }

  // ---- the round trip ----

  function Residues(a: seq<int>, w: nat): (r: seq<nat>)
    ensures |r| == |a|
  {
    seq(|a|, i requires 0 <= i < |a| => Unsigned(a[i], w))
  }

  lemma FixedTaken(v: nat, n: nat, tail: bits)
    requires v < Pow2(n)
    ensures TakeFixed(Msb(v, n) + tail, n) == Took(v, tail)
  {
    ValueOfMsb(v, n);
    QuotientUnique(v, Pow2(n), 0, v);
    hide Msb;
    assert (Msb(v, n) + tail)[..n] == Msb(v, n);
  }

  lemma {:induction false} ZerosLead(z: nat, tail: bits)
    ensures LeadingZeros(Ones(z) + tail) == z
  {
    var s := Ones(z) + tail;
    if z > 0 {
      assert s[1..] == Ones(z - 1) + tail;
      ZerosLead(z - 1, tail);
    }
  }

  lemma BottomKept(v: nat, fs: nat, r: nat)
    requires fs + r <= 32
    ensures Unsigned(v % Pow2(fs), 32 - r) == v % Pow2(fs)
  {
    var p, q := Pow2(fs), Pow2(32 - r);
    ModuloRange(v, p);
    Pow2Monotone(fs, 32 - r);
    QuotientUnique(v % p, q, 0, v % p);
  }

  lemma TopKept(v: nat, p: nat)
    requires p > 0 && v < 0x1_0000_0000
    ensures v / p * p % 0x1_0000_0000 + v % p == v
  {
    var t := v / p * p;
    assert v == t + v % p;
    QuotientUnique(t, 0x1_0000_0000, 0, t);
  }

  lemma RiceParts(top: bits, low: bits, tail: bits)
    requires |top| > 0
    ensures var s := (top + low) + tail;
            s[|top|..|top| + |low|] == low && s[|top| + |low|..] == tail && s == top + (low + tail)
  {
  }

  lemma RiceTaken(v: nat, fs: nat, tail: bits)
    requires fs <= 25 && v < 0x1_0000_0000
    ensures TakeRice(RiceCode(v, fs) + tail, fs) == Took(v, tail)
  {
    hide Msb;
    hide Ones;
    hide Pow2;
    hide Unsigned;
    var z, low := v / Pow2(fs), Msb(v, fs);
    OnesLength(z);
    RiceParts(Ones(z), low, tail);
    ZerosLead(z, low + tail);
    ValueOfMsb(v, fs);
    BottomKept(v, fs, |tail| % 8);
    TopKept(v, Pow2(fs));
  }

  lemma OnesLength(z: nat)
    ensures |Ones(z)| == z + 1
  {
  }

  lemma CoderFacts(k: Coder)
    requires IsCoder(k)
    ensures k.bbits <= 32 && k.fsmax <= 25 && Pow2(k.bbits) <= 0x1_0000_0000 && k.fsmax + 1 < Pow2(k.fsbits) &&
            k.bbits % 8 == 0
  {
    assert Pow2(4) == 16 && Pow2(3) == 8;
    Pow2Add(4, 4);
    Pow2Add(8, 8);
    Pow2Add(16, 16);
    assert Pow2(5) == 32;
  }

  lemma DiffTaken(k: Coder, fs: nat, d: nat, tail: bits)
    requires IsCoder(k) && fs <= k.fsmax && d < Pow2(k.bbits)
    ensures TakeDiff(k, fs, (if fs == k.fsmax then Msb(d, k.bbits) else RiceCode(d, fs)) + tail) == Took(d, tail)
  {
    hide Msb;
    hide RiceCode;
    hide TakeRice;
    hide TakeFixed;
    hide Pow2;
    CoderFacts(k);
    if fs == k.fsmax {
      FixedTaken(d, k.bbits, tail);
    } else {
      RiceTaken(d, fs, tail);
    }
  }

  lemma DiffsTail(a: seq<int>, last: int, w: nat)
    requires w > 0 && a != []
    ensures Diffs(a, last, w)[1..] == Diffs(a[1..], a[0], w) && Diffs(a, last, w)[0] == Diff(a[0], last, w)
  {
    hide Diff;
  }

  lemma PixelBack(pixel: int, last: int, w: nat)
    requires w > 0
    ensures Unsigned(Unmapped(Diff(pixel, last, w)) + Unsigned(last, w), w) == Unsigned(pixel, w)
  {
    hide Wrapped;
    hide Unsigned;
    hide Unmapped;
    hide Mapped;
    UnmappedMapped(Wrapped(pixel - last, w));
    DifferenceUndone(pixel, last, w);
  }

  lemma CodesStep(k: Coder, fs: nat, d: seq<nat>, tail: bits)
    requires d != []
    ensures Codes(k, fs, d) + tail ==
            (if fs == k.fsmax then Msb(d[0], k.bbits) else RiceCode(d[0], fs)) + (Codes(k, fs, d[1..]) + tail)
  {
    hide Msb;
    hide RiceCode;
    Associative(if fs == k.fsmax then Msb(d[0], k.bbits) else RiceCode(d[0], fs), Codes(k, fs, d[1..]), tail);
  }

  lemma {:induction false} RunRoundTrip(k: Coder, fs: nat, a: seq<int>, last: int, tail: bits)
    requires IsCoder(k) && fs <= k.fsmax
    ensures DecodeRun(k, fs, Codes(k, fs, Diffs(a, last, k.bbits)) + tail, |a|, Unsigned(last, k.bbits)) ==
            Line(Residues(a, k.bbits), tail)
    decreases |a|
  {
    hide Msb;
    hide RiceCode;
    hide TakeDiff;
    hide Unsigned;
    hide Unmapped;
    hide Diff;
    hide Pow2;
    var w := k.bbits;
    var d := Diffs(a, last, w);
    if a != [] {
      DiffsTail(a, last, w);
      CodesStep(k, fs, d, tail);
      DiffTaken(k, fs, d[0], Codes(k, fs, d[1..]) + tail);
      PixelBack(a[0], last, w);
      RunRoundTrip(k, fs, a[1..], a[0], tail);
      assert Residues(a, w) == [Unsigned(a[0], w)] + Residues(a[1..], w);
    } else {
      assert Codes(k, fs, d) + tail == tail;
    }
  }

  lemma {:induction false} SumZero(d: seq<nat>, i: nat)
    requires Sum(d) == 0 && i < |d|
    ensures d[i] == 0
    decreases |d|
  {
    if i < |d| - 1 {
      SumZero(d[..|d| - 1], i);
    }
  }

  lemma DiffZero(pixel: int, last: int, w: nat)
    requires w > 0 && Diff(pixel, last, w) == 0
    ensures Unsigned(pixel, w) == Unsigned(last, w)
  {
    PixelBack(pixel, last, w);
    QuotientUnique(Unsigned(last, w), Pow2(w), 0, Unsigned(last, w));
  }

  // No differences: every pixel is the last one, modulo 2^w.
  lemma {:induction false} AllSame(a: seq<int>, last: int, w: nat, i: nat)
    requires w > 0 && Sum(Diffs(a, last, w)) == 0 && i < |a|
    ensures Unsigned(a[i], w) == Unsigned(last, w)
    decreases i
  {
    hide Diff;
    hide Unsigned;
    SumZero(Diffs(a, last, w), i);
    if i == 0 {
      DiffZero(a[0], last, w);
    } else {
      AllSame(a, last, w, i - 1);
      DiffZero(a[i], a[i - 1], w);
    }
  }

  lemma HeadTaken(k: Coder, v: nat, codes: bits, tail: bits)
    requires IsCoder(k) && v <= k.fsmax + 1
    ensures TakeFixed((Msb(v, k.fsbits) + codes) + tail, k.fsbits) == Took(v, codes + tail)
  {
    hide Msb;
    hide Pow2;
    hide TakeFixed;
    CoderFacts(k);
    Associative(Msb(v, k.fsbits), codes, tail);
    FixedTaken(v, k.fsbits, codes + tail);
  }

  // ---- any choice of split levels ----

  // A block whose head is h: zero for a block without differences, else one more than its split level, where fsmax
  // stands for differences stored directly.
  function BlockWith(k: Coder, h: nat, d: seq<nat>): bits
  {
    Msb(h, k.fsbits) + if h == 0 then [] else Codes(k, h - 1, d)
  }

  predicate Allowed(k: Coder, h: nat, d: seq<nat>)
  {
    h <= k.fsmax + 1 && (h == 0 ==> Sum(d) == 0)
  }

  // Every allowed head is decoded as what it stands for, whatever the encoder would have chosen.
  lemma AnyBlockRoundTrip(k: Coder, h: nat, a: seq<int>, last: int, tail: bits)
    requires IsCoder(k) && Allowed(k, h, Diffs(a, last, k.bbits))
    ensures DecodeBlock(k, BlockWith(k, h, Diffs(a, last, k.bbits)) + tail, |a|, Unsigned(last, k.bbits)) ==
            Line(Residues(a, k.bbits), tail)
  {
    hide Msb;
    hide Codes;
    hide Diffs;
    hide TakeFixed;
    hide DecodeRun;
    hide Unsigned;
    hide Sum;
    var w := k.bbits;
    var d := Diffs(a, last, w);
    if h == 0 {
      HeadTaken(k, 0, [], tail);
      assert [] + tail == tail;
      forall i | 0 <= i < |a|
        ensures Unsigned(a[i], w) == Unsigned(last, w)
      {
        AllSame(a, last, w, i);
      }
      assert Residues(a, w) == seq(|a|, _ => Unsigned(last, w));
    } else {
      HeadTaken(k, h, Codes(k, h - 1, d), tail);
      RunRoundTrip(k, h - 1, a, last, tail);
    }
  }

  // The blocks of a line, the first with the head heads[0], and so on.
  function BlocksWith(k: Coder, a: seq<int>, last: int, nblock: nat, heads: seq<nat>): bits
    requires nblock > 0 && k.bbits > 0
    decreases |a|
  {
    if a == [] || heads == [] then [] else
    var n := Least(nblock, |a|);
    BlockWith(k, heads[0], Diffs(a[..n], last, k.bbits)) + BlocksWith(k, a[n..], a[n - 1], nblock, heads[1..])
  }

  predicate AllAllowed(k: Coder, a: seq<int>, last: int, nblock: nat, heads: seq<nat>)
    requires nblock > 0 && k.bbits > 0
    decreases |a|
  {
    a == [] ||
    (heads != [] &&
     var n := Least(nblock, |a|);
     Allowed(k, heads[0], Diffs(a[..n], last, k.bbits)) && AllAllowed(k, a[n..], a[n - 1], nblock, heads[1..]))
  }

  // Decoding gives the pixels back, modulo 2^w, whatever split levels were chosen, and leaves what follows them.
  lemma {:induction false} AnyBlocksRoundTrip(k: Coder, a: seq<int>, last: int, nblock: nat, heads: seq<nat>,
                                              tail: bits)
    requires IsCoder(k) && nblock > 0 && AllAllowed(k, a, last, nblock, heads)
    ensures DecodeBlocks(k, BlocksWith(k, a, last, nblock, heads) + tail, |a|, Unsigned(last, k.bbits), nblock) ==
            Line(Residues(a, k.bbits), tail)
    decreases |a|
  {
    hide BlockWith;
    hide Allowed;
    hide Diffs;
    hide DecodeBlock;
    hide Unsigned;
    var w := k.bbits;
    if a != [] {
      var n := Least(nblock, |a|);
      var block := BlockWith(k, heads[0], Diffs(a[..n], last, w));
      var rest := BlocksWith(k, a[n..], a[n - 1], nblock, heads[1..]);
      Associative(block, rest, tail);
      AnyBlockRoundTrip(k, heads[0], a[..n], last, rest + tail);
      AnyBlocksRoundTrip(k, a[n..], a[n - 1], nblock, heads[1..], tail);
      assert Residues(a, w) == Residues(a[..n], w) + Residues(a[n..], w);
    } else {
      assert BlocksWith(k, a, last, nblock, heads) + tail == tail;
    }
  }

  // The head that the encoder writes.
  function HeadOf(k: Coder, d: seq<nat>): nat
    requires d != []
  {
    if Split(d) >= k.fsmax then k.fsmax + 1 else if Sum(d) == 0 then 0 else Split(d) + 1
  }

  lemma EncoderChoice(k: Coder, d: seq<nat>)
    requires d != []
    ensures BlockBits(k, d) == BlockWith(k, HeadOf(k, d), d) && Allowed(k, HeadOf(k, d), d)
  {
    hide Msb;
    hide Codes;
    hide Sum;
    assert Msb(0, k.fsbits) + [] == Msb(0, k.fsbits);
    NoSumNoSplit(d);
  }

  lemma NoSumNoSplit(d: seq<nat>)
    requires d != []
    ensures Sum(d) == 0 ==> Split(d) == 0
  {
    hide Sum;
  }

  function HeadsOf(k: Coder, a: seq<int>, last: int, nblock: nat): seq<nat>
    requires nblock > 0 && k.bbits > 0
    decreases |a|
  {
    if a == [] then [] else
    var n := Least(nblock, |a|);
    [HeadOf(k, Diffs(a[..n], last, k.bbits))] + HeadsOf(k, a[n..], a[n - 1], nblock)
  }

  lemma {:induction false} EncoderChoices(k: Coder, a: seq<int>, last: int, nblock: nat)
    requires nblock > 0 && k.bbits > 0
    ensures Blocks(k, a, last, nblock) == BlocksWith(k, a, last, nblock, HeadsOf(k, a, last, nblock))
    ensures AllAllowed(k, a, last, nblock, HeadsOf(k, a, last, nblock))
    decreases |a|
  {
    hide BlockBits;
    hide BlockWith;
    hide Allowed;
    hide HeadOf;
    hide Diffs;
    if a != [] {
      var n := Least(nblock, |a|);
      EncoderChoice(k, Diffs(a[..n], last, k.bbits));
      EncoderChoices(k, a[n..], a[n - 1], nblock);
      assert HeadsOf(k, a, last, nblock)[1..] == HeadsOf(k, a[n..], a[n - 1], nblock);
    }
  }

  lemma BlockRoundTrip(k: Coder, a: seq<int>, last: int, tail: bits)
    requires IsCoder(k) && a != []
    ensures DecodeBlock(k, BlockBits(k, Diffs(a, last, k.bbits)) + tail, |a|, Unsigned(last, k.bbits)) ==
            Line(Residues(a, k.bbits), tail)
  {
    hide BlockBits;
    hide BlockWith;
    hide Diffs;
    hide DecodeBlock;
    var d := Diffs(a, last, k.bbits);
    EncoderChoice(k, d);
    AnyBlockRoundTrip(k, HeadOf(k, d), a, last, tail);
  }

  // Decoding the blocks gives the pixels back, modulo 2^w, and leaves what follows them.
  lemma BlocksRoundTrip(k: Coder, a: seq<int>, last: int, nblock: nat, tail: bits)
    requires IsCoder(k) && nblock > 0
    ensures DecodeBlocks(k, Blocks(k, a, last, nblock) + tail, |a|, Unsigned(last, k.bbits), nblock) ==
            Line(Residues(a, k.bbits), tail)
  {
    hide Blocks;
    hide BlocksWith;
    hide DecodeBlocks;
    EncoderChoices(k, a, last, nblock);
    AnyBlocksRoundTrip(k, a, last, nblock, HeadsOf(k, a, last, nblock), tail);
  }
}
