/** The Rice decoder's block loop, and the theorem that decompression restores every line. */
module RiceCoder {
  import opened Powers
  import opened Bits
  import opened HStream
  import opened RiceSpec
  import opened RiceBound
  import opened RiceSigns
  import opened RiceEncoder
  import opened RiceDecoder

  datatype Decoding = NoFirstPixel | Truncated | Done(line: seq<nat>, unused: bool)

  // What decompressing c to nx pixels comes to. Whole bytes left over are reported.
  ghost function DecodeLine(k: Coder, c: seq<byte>, nx: nat, nblock: nat): Decoding
    requires nx > 0 && nblock > 0
  {
    var m := k.bbits / 8;
    if |c| < m then NoFirstPixel else
    if |c| == m then Truncated else
    var r := DecodeBlocks(k, Unpack(c[m..]), nx, Value(Unpack(c[..m])), nblock);
    if r.TooShort? then Truncated else Done(r.pixels, |r.rest| >= 8)
  }

  // ---- the block loop ----

  // The pixels from i to now, put in front of what the rest decodes to, are what the block decodes to.
  ghost predicate RunUpTo(whole: Line, k: Coder, fs: nat, s: bits, left: nat, last: nat, done: seq<nat>)
  {
    whole == Prepend(done, DecodeRun(k, fs, s, left, last))
  }

  lemma RunStep(whole: Line, k: Coder, fs: nat, s: bits, left: nat, last: nat, done: seq<nat>)
    requires left > 0 && RunUpTo(whole, k, fs, s, left, last, done)
    ensures var t := TakeDiff(k, fs, s);
            if t.Short? then whole == TooShort else
            var px := Unsigned(Unmapped(t.value) + last, k.bbits);
            RunUpTo(whole, k, fs, t.rest, left - 1, px, done + [px])
  {
    hide TakeDiff;
    hide Unsigned;
    hide Unmapped;
    var t := TakeDiff(k, fs, s);
    if t.Took? {
      var px := Unsigned(Unmapped(t.value) + last, k.bbits);
      var r := DecodeRun(k, fs, t.rest, left - 1, px);
      if r.Line? {
        assert done + ([px] + r.pixels) == (done + [px]) + r.pixels;
      }
    }
  }

  lemma RunStarts(k: Coder, fs: nat, s: bits, left: nat, last: nat)
    ensures RunUpTo(DecodeRun(k, fs, s, left, last), k, fs, s, left, last, [])
  {
    hide TakeDiff;
    var r := DecodeRun(k, fs, s, left, last);
    assert r.Line? ==> [] + r.pixels == r.pixels;
  }

  lemma RunEnds(whole: Line, k: Coder, fs: nat, s: bits, last: nat, done: seq<nat>)
    requires RunUpTo(whole, k, fs, s, 0, last, done)
    ensures whole == Line(done, s)
  {
    assert done + [] == done;
  }

  // One difference, stored directly or split.
  method TakeOne(r: Reader, k: Coder, fs: nat, ghost s: bits) returns (ok: bool, diff: nat, ghost rest: bits)
    requires IsCoder(k) && fs <= 31 && r.Holds(s) && r.nbits <= 7
    modifies r`c, r`b, r`nbits
    ensures TakeDiff(k, fs, s) == if ok then Took(diff, rest) else Short
    ensures ok ==> r.Holds(rest) && r.nbits <= 7
  {
    hide Reader.Holds;
    hide TakeRice;
    hide Value;
    rest := s;
    if fs == k.fsmax {
      ok, diff := r.TakeDirect(k.bbits, s);
      if ok {
        rest := s[k.bbits..];
      }
    } else {
      ok, diff := r.TakeSplit(fs, s);
      if ok {
        rest := TakeRice(s, fs).rest;
      }
    }
  }

  // The pixels of one block, from i up to imax.
  method DecodePixels(r: Reader, k: Coder, fs: nat, pixels: array<nat>, i: nat, imax: nat, last: nat, ghost s: bits)
    returns (ok: bool, lastpix: nat, ghost rest: bits)
    requires IsCoder(k) && fs <= 31 && r.Holds(s) && r.nbits <= 7 && i < imax <= pixels.Length
    modifies r`c, r`b, r`nbits, pixels
    ensures DecodeRun(k, fs, s, imax - i, last) == if ok then Line(pixels[i..imax], rest) else TooShort
    ensures ok ==> r.Holds(rest) && r.nbits <= 7 && lastpix == pixels[imax - 1]
    ensures pixels[..i] == old(pixels[..i])
  {
    hide Reader.Holds;
    hide RunUpTo;
    hide TakeDiff;
    hide DecodeRun;
    hide Unsigned;
    hide Unmapped;
    ghost var whole := DecodeRun(k, fs, s, imax - i, last);
    RunStarts(k, fs, s, imax - i, last);
    ok, lastpix, rest := true, last, s;
    var j := i;
    assert pixels[i..i] == [];
    while j < imax
      invariant i <= j <= imax && r.Holds(rest) && r.nbits <= 7
      invariant RunUpTo(whole, k, fs, rest, imax - j, lastpix, pixels[i..j])
      invariant j > i ==> lastpix == pixels[j - 1]
      invariant pixels[..i] == old(pixels[..i])
    {
      ghost var done := pixels[i..j];
      RunStep(whole, k, fs, rest, imax - j, lastpix, done);
      var diff;
      ok, diff, rest := TakeOne(r, k, fs, rest);
      if !ok {
        return;
      }
      pixels[j] := Unsigned(Unmapped(diff) + lastpix, k.bbits);
      lastpix := pixels[j];
      j := j + 1;
      assert pixels[i..j] == done + [lastpix];
    }
    RunEnds(whole, k, fs, rest, lastpix, pixels[i..imax]);
  }

  lemma SmallCode(k: Coder, s: bits, nbits: int)
    requires IsCoder(k) && k.fsbits <= |s| && 0 <= nbits <= 7
    ensures Unsigned(Value(s[..k.fsbits]), 32 - nbits) == Value(s[..k.fsbits]) <= 31
  {
    var v := Value(s[..k.fsbits]);
    hide Value;
    assert Pow2(5) == 32;
    Pow2Monotone(k.fsbits, 5);
    Pow2Monotone(5, 32 - nbits);
    QuotientUnique(v, Pow2(32 - nbits), 0, v);
  }

  // One block.
  method DecodeOne(r: Reader, k: Coder, pixels: array<nat>, i: nat, imax: nat, last: nat, ghost s: bits)
    returns (ok: bool, lastpix: nat, ghost rest: bits)
    requires IsCoder(k) && r.Holds(s) && i < imax <= pixels.Length
    modifies r`c, r`b, r`nbits, pixels
    ensures DecodeBlock(k, s, imax - i, last) == if ok then Line(pixels[i..imax], rest) else TooShort
    ensures ok ==> r.Holds(rest) && r.nbits <= 7 && lastpix == pixels[imax - 1]
    ensures pixels[..i] == old(pixels[..i])
  {
    hide Reader.Holds;
    hide DecodeRun;
    hide Unsigned;
    hide Value;
    lastpix, rest := last, s;
    var code;
    ok, code := r.Take(k.fsbits, s);
    if !ok {
      return;
    }
    SmallCode(k, s, r.nbits);
    rest := s[k.fsbits..];
    if code == 0 {
      for j := i to imax
        invariant r.Holds(rest) && r.nbits <= 7
        invariant forall x :: i <= x < j ==> pixels[x] == last
        invariant pixels[..i] == old(pixels[..i])
      {
        pixels[j] := lastpix;
      }
      assert pixels[i..imax] == seq(imax - i, _ => last);
    } else {
      ok, lastpix, rest := DecodePixels(r, k, code - 1, pixels, i, imax, last, rest);
    }
  }

  lemma BlocksStart(k: Coder, s: bits, nx: nat, last: nat, nblock: nat)
    requires nblock > 0
    ensures DecodeBlocks(k, s, nx, last, nblock) == Prepend([], DecodeBlocks(k, s, nx, last, nblock))
  {
    hide DecodeBlocks;
    var r := DecodeBlocks(k, s, nx, last, nblock);
    assert r.Line? ==> [] + r.pixels == r.pixels;
  }

  lemma BlocksNext(whole: Line, k: Coder, s: bits, nx: nat, last: nat, nblock: nat, done: seq<nat>)
    requires nblock > 0 && nx > 0 && whole == Prepend(done, DecodeBlocks(k, s, nx, last, nblock))
    ensures var n := Least(nblock, nx);
            var b := DecodeBlock(k, s, n, last);
            if b.TooShort? then whole == TooShort else
            whole == Prepend(done + b.pixels, DecodeBlocks(k, b.rest, nx - n, b.pixels[n - 1], nblock))
  {
    hide DecodeBlock;
    var n := Least(nblock, nx);
    var b := DecodeBlock(k, s, n, last);
    if b.Line? {
      var r := DecodeBlocks(k, b.rest, nx - n, b.pixels[n - 1], nblock);
      if r.Line? {
        assert done + (b.pixels + r.pixels) == (done + b.pixels) + r.pixels;
      }
    }
  }

  lemma BlocksEnd(whole: Line, k: Coder, s: bits, last: nat, nblock: nat, done: seq<nat>)
    requires nblock > 0 && whole == Prepend(done, DecodeBlocks(k, s, 0, last, nblock))
    ensures whole == Line(done, s)
  {
    assert done + [] == done;
  }

  // Which of the source's status codes a call returns.
  datatype Status = Ok | WarnUnused | ErrorEndOfBuffer | ErrorEndOfStream

  function StatusOf(d: Decoding): Status
  {
    match d
    case NoFirstPixel => ErrorEndOfBuffer
    case Truncated => ErrorEndOfStream
    case Done(_, unused) => if unused then WarnUnused else Ok
  }

  lemma {:induction false} ValueJoined(s: bits, t: bits)
    ensures Value(s + t) == Value(s) * Pow2(|t|) + Value(t)
    decreases |t|
  {
    if t == [] {
      assert s + t == s;
    } else {
      var n := |t| - 1;
      assert (s + t)[..|s| + n] == s + t[..n];
      ValueJoined(s, t[..n]);
      assert Pow2(|t|) == 2 * Pow2(n);
      Doubled(Value(s), Pow2(n));
    }
  }

  lemma Doubled(v: nat, p: nat)
    ensures v * (2 * p) == 2 * (v * p)
  {
  }

  lemma ValueOfBytes(b: seq<byte>, x: byte)
    ensures Value(Unpack(b + [x])) == Value(Unpack(b)) * 256 + x
  {
    hide Value;
    hide Msb;
    BytePow();
    UnpackSnoc(b, x);
    ValueJoined(Unpack(b), Msb(x, 8));
    ValueOfMsb(x, 8);
    hide Pow2;
  }

  // The first pixel is stored as it is, in m bytes.
  method FirstPixel(c: seq<byte>, m: nat) returns (lastpix: nat)
    requires m <= |c|
    ensures lastpix == Value(Unpack(c[..m]))
  {
    hide Unpack;
    NoBytes(c);
    hide Value;
    lastpix := 0;
    for i := 0 to m
      invariant lastpix == Value(Unpack(c[..i]))
    {
      ValueOfBytes(c[..i], c[i]);
      assert c[..i + 1] == c[..i] + [c[i]];
      lastpix := lastpix * 256 + c[i];
    }
  }

  lemma NoBytes(c: seq<byte>)
    ensures Value(Unpack(c[..0])) == 0
  {
  }

  // The blocks of nx pixels.
  method DecodeAll(r: Reader, k: Coder, pixels: array<nat>, nx: nat, nblock: nat, last: nat, ghost s: bits)
    returns (ok: bool, ghost rest: bits)
    requires IsCoder(k) && r.Holds(s) && nblock > 0 && nx <= pixels.Length
    modifies r`c, r`b, r`nbits, pixels
    ensures DecodeBlocks(k, s, nx, last, nblock) == if ok then Line(pixels[..nx], rest) else TooShort
    ensures ok ==> r.Holds(rest) && (nx > 0 ==> r.nbits <= 7)
  {
    hide Reader.Holds;
    hide DecodeBlock;
    hide DecodeBlocks;
    ghost var whole := DecodeBlocks(k, s, nx, last, nblock);
    BlocksStart(k, s, nx, last, nblock);
    assert pixels[..0] == [];
    var i, lastpix := 0, last;
    rest := s;
    while i < nx
      invariant 0 <= i <= nx && r.Holds(rest) && (i > 0 ==> r.nbits <= 7)
      invariant whole == Prepend(pixels[..i], DecodeBlocks(k, rest, nx - i, lastpix, nblock))
    {
      ghost var done := pixels[..i];
      BlocksNext(whole, k, rest, nx - i, lastpix, nblock, done);
      var imax := if i + nblock > nx then nx else i + nblock;
      ok, lastpix, rest := DecodeOne(r, k, pixels, i, imax, lastpix, rest);
      if !ok {
        return;
      }
      assert pixels[..imax] == done + pixels[i..imax];
      i := imax;
    }
    BlocksEnd(whole, k, rest, lastpix, nblock, pixels[..nx]);
    ok := true;
  }

  // Decompress c to nx pixels.
  method Rdecomp(k: Coder, c: seq<byte>, pixels: array<nat>, nx: nat, nblock: nat) returns (status: Status)
    requires IsCoder(k) && nx > 0 && nblock > 0 && nx <= pixels.Length
    modifies pixels
    ensures status == StatusOf(DecodeLine(k, c, nx, nblock))
    ensures DecodeLine(k, c, nx, nblock).Done? ==> DecodeLine(k, c, nx, nblock).line == pixels[..nx]
  {
    hide Reader.Holds;
    hide DecodeBlocks;
    hide Unpack;
    hide Value;
    var m := k.bbits / 8;
    if |c| < m {
      return ErrorEndOfBuffer;
    }
    var lastpix := FirstPixel(c, m);
    if m >= |c| {
      return ErrorEndOfStream;
    }
    var r := new Reader(c, m);
    var ok;
    ghost var rest;
    ok, rest := DecodeAll(r, k, pixels, nx, nblock, lastpix, Unpack(c[m..]));
    if !ok {
      return ErrorEndOfStream;
    }
    LeftOver(r, rest);
    status := if r.c < |c| then WarnUnused else Ok;
  }

  lemma LeftOver(r: Reader, s: bits)
    requires r.Holds(s)
    ensures r.c <= |r.input| && 0 <= r.nbits && |s| == r.nbits + 8 * (|r.input| - r.c)
  {
    AheadLength(s, r.b, r.nbits, r.input, r.c);
  }

  // ---- the round trip ----

  // The first m bytes are the first pixel, and the blocks follow.
  lemma SplitLine(c: seq<byte>, m: nat, first: bits, blocks: bits, z: bits)
    requires Unpack(c) == (first + blocks) + z && |first| == 8 * m && |blocks| > 0
    ensures m < |c| && Unpack(c[..m]) == first && Unpack(c[m..]) == blocks + z
  {
    hide Unpack;
    assert c == c[..m] + c[m..];
    UnpackConcat(c[..m], c[m..]);
    Associative(first, blocks, z);
    SplitEqual(Unpack(c[..m]), Unpack(c[m..]), first, blocks + z);
  }

  lemma SomeHead(k: Coder, a: seq<int>, last: int, nblock: nat, heads: seq<nat>)
    requires IsCoder(k) && a != [] && nblock > 0 && heads != []
    ensures |BlocksWith(k, a, last, nblock, heads)| > 0
  {
    hide Diffs;
    hide Codes;
  }

  // For every line, width and block size, whatever split level is chosen for each block: decompressing restores every
  // pixel, modulo 2^w, and no byte is left over.
  lemma AnyLineRoundTrip(k: Coder, a: seq<int>, nblock: nat, heads: seq<nat>, c: seq<byte>)
    requires IsCoder(k) && a != [] && nblock > 0 && AllAllowed(k, a, a[0], nblock, heads)
    requires Packs(c, Msb(a[0], k.bbits) + BlocksWith(k, a, a[0], nblock, heads))
    ensures DecodeLine(k, c, |a|, nblock) == Done(Residues(a, k.bbits), false)
  {
    hide Unpack;
    hide Value;
    hide BlocksWith;
    hide DecodeBlocks;
    hide Allowed;
    hide Msb;
    hide Packs;
    hide Residues;
    hide Pow2;
    CoderFacts(k);
    var m, w := k.bbits / 8, k.bbits;
    var blocks := BlocksWith(k, a, a[0], nblock, heads);
    var z := PackedIs(c, Msb(a[0], w) + blocks);
    SomeHead(k, a, a[0], nblock, heads);
    SplitLine(c, m, Msb(a[0], w), blocks, z);
    ValueOfMsb(a[0], w);
    AnyBlocksRoundTrip(k, a, a[0], nblock, heads, z);
  }

  // So it undoes what the encoder chose.
  lemma LineRoundTrip(k: Coder, a: seq<int>, nblock: nat, c: seq<byte>)
    requires IsCoder(k) && a != [] && nblock > 0 && Packs(c, LineBits(k, a, nblock))
    ensures DecodeLine(k, c, |a|, nblock) == Done(Residues(a, k.bbits), false)
  {
    hide Blocks;
    hide BlocksWith;
    hide DecodeLine;
    hide Packs;
    EncoderChoices(k, a, a[0], nblock);
    AnyLineRoundTrip(k, a, nblock, HeadsOf(k, a, a[0], nblock), c);
  }

  // A buffer as large as the bound is always large enough.
  lemma BoundSuffices(k: Coder, a: seq<int>, nblock: nat, clen: nat)
    requires IsCoder(k) && a != [] && nblock > 0 && 8 * clen >= LineBound(k, |a|, nblock)
    ensures |LineBits(k, a, nblock)| <= 8 * clen
  {
    hide LineBound;
    hide LineBits;
    LineLength(k, a, nblock);
  }

  // Compress and decompress: the pixels, seen as unsigned numbers of their width, come back.
  method RoundTrip(k: Coder, a: array<int>, nblock: nat, clen: nat)
    returns (ok: bool, c: seq<byte>, status: Status, back: array<nat>)
    requires IsCoder(k) && a.Length > 0 && nblock > 0 && KeepsSigns(k, a[..], a[0], nblock)
    ensures 8 * clen >= LineBound(k, a.Length, nblock) ==> ok
    ensures ok ==> Packs(c, LineBits(k, a[..], nblock)) && status == Ok && back[..] == Residues(a[..], k.bbits)
  {
    hide LineBits;
    hide LineBound;
    hide DecodeLine;
    hide Residues;
    hide Packs;
    hide KeepsSigns;
    ok, c := Rcomp(k, a, clen, nblock);
    status := Ok;
    back := new nat[a.Length];
    if !ok {
      if 8 * clen >= LineBound(k, a.Length, nblock) {
        BoundSuffices(k, a[..], nblock, clen);
      }
      return;
    }
    LineRoundTrip(k, a[..], nblock, c);
    status := Rdecomp(k, c, back, a.Length, nblock);
    assert back[..a.Length] == back[..];
  }
}
