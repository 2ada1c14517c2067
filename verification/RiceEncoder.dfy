/** The Rice encoder: its 32-bit buffer, which holds up to a whole byte between codes, and its block loop. */
module RiceEncoder {
  import opened Powers
  import opened Bits
  import opened MsbWriters
  import opened HBitIO
  import opened RiceSpec
  import opened RiceBound
  import opened RiceSigns

  // Before n bits are shifted in, with free bits of a byte left, more than 24 + pending bits first fill up that byte.
  // Otherwise all of them have to fit the 32-bit buffer together.
  predicate Fits(free: nat, n: nat)
  {
    free + n > 32 || 8 - free + n <= 32
  }

  // The buffer tells the pending bits apart after the shift exactly if all bits fit it.
  lemma PendingSurvive(pending: nat, n: nat)
    requires pending <= 8 && n <= 32
    ensures (forall x: nat, y: nat, v: int {:trigger Push(x, v, n), Push(y, v, n)} ::
              Push(x, v, n) == Push(y, v, n) ==> Msb(x, pending) == Msb(y, pending)) <==> pending + n <= 32
  {
    hide Msb;
    hide Push;
    if pending + n <= 32 {
      forall x: nat, y: nat, v: int {:trigger Push(x, v, n), Push(y, v, n)} | Push(x, v, n) == Push(y, v, n)
        ensures Msb(x, pending) == Msb(y, pending)
      {
        PushBits(x, pending, v, n);
        PushBits(y, pending, v, n);
        SameFront(Msb(x, pending), Msb(y, pending), Msb(v, n));
      }
    } else {
      TopBitLost(pending, n);
    }
  }

  lemma SameFront(a: bits, b: bits, t: bits)
    requires |a| == |b| && a + t == b + t
    ensures a == b
  {
    assert (a + t)[..|a|] == a && (b + t)[..|b|] == b;
  }

  lemma TopBitLost(pending: nat, n: nat)
    requires 0 < pending <= 8 && n <= 32 < pending + n
    ensures Push(Pow2(pending - 1), 0, n) == Push(0, 0, n) && Msb(Pow2(pending - 1), pending) != Msb(0, pending)
  {
    hide Pow2;
    hide Msb;
    TopBitGone(Pow2(pending - 1), pending, n);
    TopBitThere(pending);
  }

  lemma TopBitGone(x: nat, pending: nat, n: nat)
    requires 0 < pending <= 8 && n <= 32 < pending + n && x == Pow2(pending - 1)
    ensures Push(x, 0, n) == Push(0, 0, n)
  {
    hide Pow2;
    var m: nat := Pow2(pending + n - 33);
    Pow2Add(pending - 1, n);
    Pow2Add(pending + n - 33, 32);
    WordIsPow();
    QuotientUnique(x * Pow2(n), WORD, m, 0);
    QuotientUnique(0, WORD, 0, 0);
  }

  lemma TopBitThere(pending: nat)
    requires 0 < pending
    ensures Msb(Pow2(pending - 1), pending) != Msb(0, pending)
  {
    PowNext(pending);
    hide Pow2;
    hide Msb;
    var x: nat := Pow2(pending - 1);
    ValueOfMsb(x, pending);
    ValueOfMsb(0, pending);
    QuotientUnique(x, 2 * x, 0, x);
    QuotientUnique(0, 2 * x, 0, 0);
  }

  // So with at most seven bits pending, exactly widths of up to 25 bits, and of 32, always fit.
  lemma SafeWidths(n: nat)
    requires n <= 32
    ensures (forall free: nat :: 1 <= free <= 8 ==> Fits(free, n)) <==> n <= 25 || n == 32
  {
    if 25 < n < 32 {
      assert !Fits(1, n);
    }
  }

  class Buffer {
    var out: seq<byte>
    var bitbuffer: nat
    var bitsToGo: int
    ghost var written: bits

    ghost predicate Pending(n: int)
      reads `out, `bitbuffer, `written
    {
      n >= 0 && written == Unpack(out) + Msb(bitbuffer, n)
    }

    ghost predicate Valid()
      reads this
    {
      0 <= bitsToGo <= 8 && Pending(8 - bitsToGo)
    }

    constructor ()
      ensures Valid() && bitsToGo == 8 && written == []
    {
      out := [];
      bitbuffer, bitsToGo := 0, 8;
      written := [];
    }

    // Push the low n bits of v; at most 32 bits can be pending.
    method Insert(v: int, n: nat, ghost pending: int)
      requires Pending(pending) && pending + n <= 32
      modifies this`bitbuffer, this`written
      ensures Pending(pending + n) && written == old(written) + Msb(v, n)
    {
      hide Msb;
      hide Unpack;
      hide Push;
      PushBits(bitbuffer, pending, v, n);
      Associative(Unpack(out), Msb(bitbuffer, pending), Msb(v, n));
      written := written + Msb(v, n);
      bitbuffer := Push(bitbuffer, v, n);
    }

    // Put out the top 8 of n + 8 pending bits.
    method PutByte(n: nat)
      requires Pending(n + 8)
      modifies this`out
      ensures Pending(n)
    {
      hide Msb;
      hide Unpack;
      hide Pow2;
      TakeByte(bitbuffer, n + 8);
      var b := bitbuffer / Pow2(n) % 256;
      UnpackSnoc(out, b);
      Associative(Unpack(out), Msb(b, 8), Msb(bitbuffer, n));
      out := out + [b];
    }

    // Put out whole bytes until bits are free again.
    method Drain()
      requires bitsToGo <= 8 && Pending(8 - bitsToGo)
      modifies this`out, this`bitsToGo
      ensures Valid() && bitsToGo >= 1
    {
      hide Pending;
      while bitsToGo <= 0
        invariant bitsToGo <= 8 && Pending(8 - bitsToGo)
        decreases 8 - bitsToGo
      {
        PutByte(-bitsToGo);
        bitsToGo := bitsToGo + 8;
      }
    }

    // The bits must fit beside the pending ones.
    method OutputNbits(v: int, n: nat)
      requires Valid() && n <= 32 && Fits(bitsToGo, n)
      modifies this
      ensures Valid() && bitsToGo >= 1 && written == old(written) + Msb(v, n)
    {
      hide Pending;
      hide Msb;
      hide Pow2;
      var m := n;
      if bitsToGo + n > 32 {
        ghost var before := written;
        m := n - bitsToGo;
        MsbSplit(v, bitsToGo, m);
        Associative(before, Msb(v / Pow2(m), bitsToGo), Msb(v, m));
        Insert(v / Pow2(m), bitsToGo, 8 - bitsToGo);
        PutByte(0);
        bitsToGo := 8;
      }
      Insert(v, m, 8 - bitsToGo);
      bitsToGo := bitsToGo - m;
      Drain();
    }

    // A zero byte, with nothing else pending.
    method PutZeros(top: nat) returns (rest: nat)
      requires Pending(0)
      modifies this`out, this`written
      ensures Pending(0) && rest < 8 && rest <= top && written == old(written) + Zeros(top - rest)
    {
      rest := top;
      ghost var before := written;
      assert before + Zeros(0) == before;
      while rest >= 8
        invariant Pending(0) && rest <= top && written == before + Zeros(top - rest)
      {
        ZeroByte(out, bitbuffer);
        assert Zeros(top - rest) + Zeros(8) == Zeros(top - rest + 8);
        Associative(before, Zeros(top - rest), Zeros(8));
        out := out + [0];
        written := written + Zeros(8);
        rest := rest - 8;
      }
    }

    // The unary part of a code.
    method PutTop(top0: nat)
      requires Valid()
      modifies this
      ensures Valid() && written == old(written) + Ones(top0)
    {
      hide Pending;
      hide Msb;
      ghost var before := written;
      OneAbove(top0);
      if bitsToGo >= top0 + 1 {
        Insert(1, top0 + 1, 8 - bitsToGo);
        bitsToGo := bitsToGo - (top0 + 1);
      } else {
        var free := bitsToGo;
        MsbOfZero(free);
        Insert(0, free, 8 - bitsToGo);
        PutByte(0);
        var top := PutZeros(top0 - free);
        StartByte(before, free, top0, top);
        bitbuffer := 1;
        written := before + Ones(top0);
        bitsToGo := 7 - top;
        NowPending(top + 1);
      }
    }

    lemma NowPending(n: nat)
      requires written == Unpack(out) + Msb(bitbuffer, n)
      ensures Pending(n)
    {
    }

    // After the whole zero bytes, the rest of the zeros and the one are pending.
    lemma StartByte(before: bits, free: nat, top0: nat, top: nat)
      requires free <= top0 && top <= top0 - free && Pending(0)
      requires written == (before + Zeros(free)) + Zeros(top0 - free - top)
      ensures before + Ones(top0) == Unpack(out) + Msb(1, top + 1)
    {
      OneAbove(top);
      NothingPending(out, bitbuffer);
      assert Zeros(free) + (Zeros(top0 - free - top) + Ones(top)) == Ones(top0);
      Associative(before + Zeros(free), Zeros(top0 - free - top), Ones(top));
      Associative(before, Zeros(free), Zeros(top0 - free - top) + Ones(top));
    }

    method PutRice(v: nat, fs: nat)
      requires Valid() && fs <= 24
      modifies this
      ensures Valid() && written == old(written) + RiceCode(v, fs)
    {
      hide Pending;
      hide Msb;
      hide Pow2;
      hide Ones;
      var top := v / Pow2(fs);
      NotNegative(v, Pow2(fs));
      Associative(written, Ones(top), Msb(v, fs));
      PutTop(top);
      if fs > 0 {
        MsbModulo(v, fs, fs);
        Insert(v % Pow2(fs), fs, 8 - bitsToGo);
        bitsToGo := bitsToGo - fs;
        Drain();
      } else {
        EmptyLow(v, written);
      }
    }

    method Done()
      requires Valid()
      modifies this
      ensures Packs(out, old(written))
    {
      hide Msb;
      hide Unpack;
      hide Zeros;
      hide Packs;
      hide Pow2;
      if 0 < bitsToGo < 8 {
        var b := LastByte(bitbuffer, 8 - bitsToGo);
        PadLast(out, bitbuffer, 8 - bitsToGo, b);
        out := out + [b];
      } else if bitsToGo == 0 {
        var b := LastByte(bitbuffer, 8);
        WholeLast(out, bitbuffer, b);
        out := out + [b];
      } else {
        EmptyTail(bitbuffer, out);
      }
    }
  }

  lemma WholeLast(o: seq<byte>, v: nat, b: byte)
    requires Msb(b, 8) == Msb(v, 8) + Zeros(0)
    ensures Packs(o + [b], Unpack(o) + Msb(v, 8))
  {
    hide Msb;
    UnpackSnoc(o, b);
    assert Msb(v, 8) + Zeros(0) == Msb(v, 8);
    EmptyTail(0, o + [b]);
  }

  lemma NothingPending(o: seq<byte>, v: nat)
    ensures Unpack(o) + Msb(v, 0) == Unpack(o)
  {
  }

  lemma ZeroByte(o: seq<byte>, v: nat)
    ensures Unpack(o + [0]) + Msb(v, 0) == (Unpack(o) + Msb(v, 0)) + Zeros(8)
  {
    NothingPending(o, v);
    NothingPending(o + [0], v);
    UnpackSnoc(o, 0);
    MsbOfZero(8);
    hide Unpack;
    hide Msb;
  }

  // ---- the encoder ----

  // Map the differences of one block and add them up.
  method MapBlock(a: array<int>, i: nat, thisblock: nat, last: int, w: nat, diff: array<nat>)
    returns (pixelsum: nat, lastpix: int)
    requires w > 0 && thisblock > 0 && i + thisblock <= a.Length && thisblock <= diff.Length
    modifies diff
    ensures diff[..thisblock] == Diffs(a[i..i + thisblock], last, w) && pixelsum == Sum(diff[..thisblock])
    ensures lastpix == a[i + thisblock - 1]
  {
    hide Diff;
    hide Diffs;
    hide Sum;
    pixelsum, lastpix := 0, last;
    ghost var block := a[i..i + thisblock];
    NoSum();
    for j := 0 to thisblock
      invariant diff[..j] == Diffs(block, last, w)[..j] && pixelsum == Sum(diff[..j])
      invariant lastpix == if j == 0 then last else a[i + j - 1]
    {
      var nextpix := a[i + j];
      ghost var front := diff[..j];
      DiffsNext(block, last, w, j);
      diff[j] := Diff(nextpix, lastpix, w);
      assert diff[..j + 1] == front + [diff[j]];
      SumSnoc(front, diff[j]);
      pixelsum := pixelsum + diff[j];
      lastpix := nextpix;
    }
  }

  lemma DiffsNext(block: seq<int>, last: int, w: nat, j: nat)
    requires w > 0 && j < |block|
    ensures Diffs(block, last, w)[..j + 1] ==
            Diffs(block, last, w)[..j] + [Diff(block[j], if j == 0 then last else block[j - 1], w)]
  {
    hide Diff;
  }

  lemma NoSum()
    ensures Sum([]) == 0
  {
  }

  lemma SumSnoc(d: seq<nat>, v: nat)
    ensures Sum(d + [v]) == Sum(d) + v
  {
    assert (d + [v])[..|d|] == d;
  }

  // The number of bits to split off, from the block's sum.
  method SplitLevel(pixelsum: nat, thisblock: nat, ghost d: seq<nat>) returns (fs: nat)
    requires thisblock == |d| > 0 && pixelsum == Sum(d)
    ensures fs == Split(d)
  {
    hide Sum;
    hide Pow2;
    var excess := pixelsum - thisblock / 2 - 1;
    if excess >= 0 {
      NotNegative(excess, thisblock);
    }
    var psum := (if excess < 0 then 0 else excess / thisblock) / 2;
    ghost var all := psum;
    fs := 0;
    while psum > 0
      invariant psum >= 0 && fs + BitLength(psum) == BitLength(all)
    {
      psum := psum / 2;
      fs := fs + 1;
    }
  }

  lemma NextCode(w0: bits, before: bits, k: Coder, fs: nat, d: seq<nat>, j: nat, code: bits)
    requires j < |d| && w0 + Codes(k, fs, d[j..]) == before + Codes(k, fs, d)
    requires code == if fs == k.fsmax then Msb(d[j], k.bbits) else RiceCode(d[j], fs)
    ensures (w0 + code) + Codes(k, fs, d[j + 1..]) == before + Codes(k, fs, d)
  {
    hide Msb;
    hide RiceCode;
    assert d[j..][1..] == d[j + 1..];
    Associative(w0, code, Codes(k, fs, d[j + 1..]));
  }

  lemma CodesDone(w0: bits, k: Coder, fs: nat, d: seq<nat>)
    ensures w0 + Codes(k, fs, d[|d|..]) == w0
  {
  }

  // The differences themselves.
  method PutDirect(w: Buffer, k: Coder, diff: array<nat>, thisblock: nat)
    requires IsCoder(k) && w.Valid() && w.bitsToGo >= 1 && thisblock <= diff.Length
    modifies w
    ensures w.Valid() && w.bitsToGo >= 1 && w.written == old(w.written) + Codes(k, k.fsmax, diff[..thisblock])
  {
    hide Buffer.Pending;
    hide Codes;
    hide Msb;
    ghost var d, before := diff[..thisblock], w.written;
    assert d[0..] == d;
    for j := 0 to thisblock
      invariant w.Valid() && w.bitsToGo >= 1 && w.written + Codes(k, k.fsmax, d[j..]) == before + Codes(k, k.fsmax, d)
    {
      NextCode(w.written, before, k, k.fsmax, d, j, Msb(d[j], k.bbits));
      w.OutputNbits(diff[j], k.bbits);
    }
    CodesDone(w.written, k, k.fsmax, d);
  }

  // The differences split at fs.
  method PutSplit(w: Buffer, k: Coder, fs: nat, diff: array<nat>, thisblock: nat)
    requires IsCoder(k) && w.Valid() && fs < k.fsmax && thisblock <= diff.Length
    requires forall j :: 0 <= j < thisblock ==> AsInt(diff[j]) == diff[j]
    modifies w
    ensures w.Valid() && w.written == old(w.written) + Codes(k, fs, diff[..thisblock])
  {
    hide Buffer.Pending;
    hide Codes;
    hide Msb;
    hide RiceCode;
    ghost var d, before := diff[..thisblock], w.written;
    assert d[0..] == d;
    for j := 0 to thisblock
      invariant w.Valid() && w.written + Codes(k, fs, d[j..]) == before + Codes(k, fs, d)
    {
      NextCode(w.written, before, k, fs, d, j, RiceCode(d[j], fs));
      var v := AsInt(diff[j]);
      w.PutRice(v, fs);
    }
    CodesDone(w.written, k, fs, d);
  }

  // One block; false means that the output has outgrown clen bytes.
  method EncodeBlock(w: Buffer, k: Coder, diff: array<nat>, thisblock: nat, pixelsum: nat, clen: nat) returns (ok: bool)
    requires IsCoder(k) && w.Valid() && 0 < thisblock <= diff.Length && pixelsum == Sum(diff[..thisblock])
    requires BlockKeepsSigns(k, diff[..thisblock]) && forall j :: 0 <= j < thisblock ==> diff[j] < 0x1_0000_0000
    modifies w
    ensures w.Valid() && w.written == old(w.written) + BlockBits(k, diff[..thisblock])
    ensures !ok ==> |w.out| > clen
  {
    hide Buffer.Pending;
    hide Codes;
    hide Msb;
    hide Split;
    hide Sum;
    ghost var d, before := diff[..thisblock], w.written;
    var fs := SplitLevel(pixelsum, thisblock, d);
    ok := true;
    if fs >= k.fsmax {
      w.OutputNbits(k.fsmax + 1, k.fsbits);
      PutDirect(w, k, diff, thisblock);
      Associative(before, Msb(k.fsmax + 1, k.fsbits), Codes(k, k.fsmax, d));
    } else if fs == 0 && pixelsum == 0 {
      w.OutputNbits(0, k.fsbits);
    } else {
      w.OutputNbits(fs + 1, k.fsbits);
      assert forall j :: 0 <= j < thisblock ==> AsInt(d[j]) >= 0 && d[j] == diff[j];
      PutSplit(w, k, fs, diff, thisblock);
      Associative(before, Msb(fs + 1, k.fsbits), Codes(k, fs, d));
      ok := |w.out| <= clen;
    }
  }

  lemma BlocksStep(k: Coder, a: seq<int>, last: int, nblock: nat, before: bits)
    requires nblock > 0 && k.bbits > 0 && a != []
    ensures var n := Least(nblock, |a|);
            before + Blocks(k, a, last, nblock) ==
            (before + BlockBits(k, Diffs(a[..n], last, k.bbits))) + Blocks(k, a[n..], a[n - 1], nblock)
  {
    hide BlockBits;
    hide Diffs;
    var n := Least(nblock, |a|);
    Associative(before, BlockBits(k, Diffs(a[..n], last, k.bbits)), Blocks(k, a[n..], a[n - 1], nblock));
  }

  lemma SignsStep(k: Coder, a: seq<int>, last: int, nblock: nat)
    requires nblock > 0 && k.bbits > 0 && a != [] && KeepsSigns(k, a, last, nblock)
    ensures var n := Least(nblock, |a|);
            BlockKeepsSigns(k, Diffs(a[..n], last, k.bbits)) && KeepsSigns(k, a[n..], a[n - 1], nblock)
  {
  }

  lemma WrittenBytes(w: Buffer, clen: nat)
    requires w.Valid() && |w.out| > clen
    ensures |w.written| > 8 * clen
  {
    hide Msb;
    hide Unpack;
  }

  // Code the line a; false means that it does not fit clen bytes. No difference that is split may be negative in a
  // signed 32-bit variable.
  method Rcomp(k: Coder, a: array<int>, clen: nat, nblock: nat) returns (ok: bool, c: seq<byte>)
    requires IsCoder(k) && a.Length > 0 && nblock > 0 && KeepsSigns(k, a[..], a[0], nblock)
    ensures ok ==> Packs(c, LineBits(k, a[..], nblock))
    ensures !ok ==> |LineBits(k, a[..], nblock)| > 8 * clen
  {
    hide Buffer.Pending;
    hide Blocks;
    hide BlockBits;
    hide Msb;
    hide Sum;
    hide Split;
    hide Packs;
    hide Pow2;
    hide KeepsSigns;
    hide BlockKeepsSigns;
    CoderFacts(k);
    var diff := new nat[nblock];
    var w := new Buffer();
    c := [];
    w.OutputNbits(a[0], k.bbits);
    ghost var total := LineBits(k, a[..], nblock);
    assert [] + Msb(a[0], k.bbits) == Msb(a[0], k.bbits);
    var lastpix, i := a[0], 0;
    assert a[0..] == a[..];
    while i < a.Length
      invariant i <= a.Length && w.Valid() && fresh(w) && w.written + Blocks(k, a[i..], lastpix, nblock) == total
      invariant KeepsSigns(k, a[i..], lastpix, nblock)
    {
      var thisblock := if a.Length - i < nblock then a.Length - i else nblock;
      ghost var rest, last, before := a[i..], lastpix, w.written;
      BlocksStep(k, rest, last, nblock, before);
      SignsStep(k, rest, last, nblock);
      assert rest[..thisblock] == a[i..i + thisblock] && rest[thisblock..] == a[i + thisblock..];
      var pixelsum;
      pixelsum, lastpix := MapBlock(a, i, thisblock, lastpix, k.bbits, diff);
      assert forall j :: 0 <= j < thisblock ==> diff[j] == diff[..thisblock][j];
      ok := EncodeBlock(w, k, diff, thisblock, pixelsum, clen);
      i := i + thisblock;
      if !ok {
        WrittenBytes(w, clen);
        return;
      }
    }
    assert a[i..] == [];
    BlocksOver(k, lastpix, nblock, w.written);
    w.Done();
    return true, w.out;
  }

  lemma BlocksOver(k: Coder, last: int, nblock: nat, s: bits)
    requires nblock > 0 && k.bbits > 0
    ensures s + Blocks(k, [], last, nblock) == s
  {
  }
}
