/** The Rice decoder: its bit buffer, which holds at most the rest of one byte between codes, and its block loop. */
module RiceDecoder {
  import opened Powers
  import opened Bits
  import opened MsbWriters
  import opened Grids
  import opened RiceSpec

  function Low32(f: nat): nat
  {
    ModuloRange(f, WORD);
    f % WORD
  }

  function TopPart(f: nat, r: nat): nat
  {
    NotNegative(f, Pow2(r));
    f / Pow2(r)
  }

  // The bits s begin with the n bits of f, and go on at byte c of the input.
  ghost predicate Ahead(s: bits, f: nat, n: nat, input: seq<byte>, c: nat)
  {
    c <= |input| && f < Pow2(n) && s == Msb(f, n) + Unpack(input[c..])
  }

  lemma AheadLength(s: bits, f: nat, n: nat, input: seq<byte>, c: nat)
    requires Ahead(s, f, n, input, c)
    ensures c <= |input| && |s| == n + 8 * (|input| - c)
  {
    hide Msb;
    hide Unpack;
  }

  // One more byte below the bits in hand.
  lemma FetchAhead(s: bits, f: nat, n: nat, input: seq<byte>, c: nat)
    requires Ahead(s, f, n, input, c) && c < |input|
    ensures Ahead(s, f * 256 + input[c], n + 8, input, c + 1)
  {
    hide Msb;
    hide Unpack;
    hide Pow2;
    var x, tail := input[c], input[c + 1..];
    assert input[c..] == [x] + tail;
    BytePow();
    UnpackCons(x, tail);
    MsbAppend(f, x, n, 8);
    Associative(Msb(f, n), Msb(x, 8), Unpack(tail));
    Pow2Add(n, 8);
    ByteBelow(f, x, Pow2(n));
  }

  lemma ByteBelow(f: nat, x: byte, p: nat)
    requires f < p
    ensures f * 256 + x < p * 256
  {
  }

  // The top m of m + r bits in hand come off.
  lemma TakeAhead(s: bits, f: nat, m: nat, r: nat, input: seq<byte>, c: nat)
    requires Ahead(s, f, m + r, input, c)
    ensures m <= |s| && TopPart(f, r) == Value(s[..m]) && Ahead(s[m..], Unsigned(f, r), r, input, c)
  {
    hide Msb;
    hide Unpack;
    var q := f / Pow2(r);
    MsbSplit(f, m, r);
    MsbModulo(f, r, r);
    ValueOfMsb(q, m);
    Pow2Add(m, r);
    HighBelow(f, Pow2(m), Pow2(r));
    ModuloRange(f, Pow2(r));
    var tail := Unpack(input[c..]);
    Associative(Msb(q, m), Msb(f, r), tail);
    assert s[..m] == Msb(q, m) && s[m..] == Msb(f, r) + tail;
  }

  lemma HighBelow(f: nat, h: nat, p: nat)
    requires p > 0 && f < h * p
    ensures 0 <= f / p < h && f / p % h == f / p
  {
    MulMonotone(h, f / p, p);
    QuotientUnique(f / p, h, 0, f / p);
  }

  // Keeping 32 bits keeps the low 32 - r bits of the top part.
  lemma LowWord(f: nat, r: nat)
    requires r <= 32
    ensures TopPart(Low32(f), r) == Unsigned(TopPart(f, r), 32 - r) && Unsigned(Low32(f), r) == Unsigned(f, r)
  {
    var p, q := Pow2(r), Pow2(32 - r);
    WordIsPow();
    Pow2Add(32 - r, r);
    hide Pow2;
    SplitModulo(f, p, q);
  }

  lemma SplitModulo(f: nat, p: nat, q: nat)
    requires p > 0 && q > 0
    ensures q * p > 0 && f % (q * p) / p == f / p % q && f % (q * p) % p == f % p
  {
    var h, l := f / p, f % p;
    var u, v := h / q, h % q;
    assert f == (q * p) * u + (v * p + l) by {
      assert f == (q * u + v) * p + l;
      assert (q * u + v) * p == (q * p) * u + v * p;
    }
    assert v * p + l < q * p by { MulMonotone(v + 1, q, p); assert (v + 1) * p == v * p + p; }
    QuotientUnique(f, q * p, u, v * p + l);
    QuotientUnique(v * p + l, p, v, l);
  }

  lemma ShiftWord(f: nat, x: byte)
    ensures ShiftedIn(Low32(f), x) == Low32(f * 256 + x)
  {
    var q, r := f / WORD, f % WORD;
    var t := r * 256;
    var u, v := t / WORD, t % WORD;
    assert v % 256 == 0 && v + x < WORD;
    assert f * 256 + x == WORD * (q * 256 + u) + (v + x);
    QuotientUnique(f * 256 + x, WORD, q * 256 + u, v + x);
  }

  // ---- the unary part ----

  lemma {:induction false} TopBit(b: nat, m: nat)
    requires 0 < b < Pow2(m)
    ensures var l := BitLength(b);
            0 < l <= m && Pow2(l - 1) <= b < 2 * Pow2(l - 1) && Msb(b, m) == Ones(m - l) + Msb(b - Pow2(l - 1), l - 1)
    decreases m
  {
    var l := BitLength(b);
    BitLengthBelow(b, m);
    var p := Pow2(l - 1);
    assert Pow2(l) == 2 * p;
    QuotientUnique(b, p, 1, b - p);
    MsbSplit(b, m - l + 1, l - 1);
    OneAbove(m - l);
    MsbLow(b - p, b, l - 1, 1);
  }

  // z zeros, then the bits ahead.
  ghost predicate Skipped(s: bits, z: nat, b: nat, m: nat, input: seq<byte>, c: nat)
  {
    z <= |s| && s[..z] == Zeros(z) && Ahead(s[z..], b, m, input, c)
  }

  lemma SkipByte(s: bits, z: nat, m: nat, input: seq<byte>, c: nat)
    requires Skipped(s, z, 0, m, input, c) && c < |input|
    ensures Skipped(s, z + m, input[c], 8, input, c + 1)
  {
    hide Msb;
    hide Unpack;
    MsbOfZero(m);
    BytePow();
    var x, tail := input[c], input[c + 1..];
    assert input[c..] == [x] + tail;
    UnpackCons(x, tail);
    assert s == Zeros(z) + s[z..];
    assert s[z + m..] == s[z..][m..] == Unpack(input[c..]);
    assert s[..z + m] == Zeros(z) + Zeros(m) == Zeros(z + m);
  }

  lemma NoOnes(s: bits, z: nat, m: nat, input: seq<byte>)
    requires Skipped(s, z, 0, m, input, |input|)
    ensures LeadingZeros(s) == |s|
  {
    hide Msb;
    MsbOfZero(m);
    assert input[|input|..] == [];
    assert s[z..] == Zeros(m) + [] == Zeros(m);
    assert s == Zeros(z) + Zeros(m);
    assert forall i :: 0 <= i < |s| ==> !s[i];
  }

  lemma FoundOne(s: bits, z: nat, b: nat, m: nat, input: seq<byte>, c: nat)
    requires Skipped(s, z, b, m, input, c) && b > 0
    ensures var l := BitLength(b);
            0 < l <= m && Pow2(l - 1) <= b && LeadingZeros(s) == z + m - l && z + m - l + 1 <= |s| &&
            Ahead(s[z + m - l + 1..], b - Pow2(l - 1), l - 1, input, c)
  {
    hide Msb;
    hide Unpack;
    hide Pow2;
    hide BitLength;
    TopBit(b, m);
    var l := BitLength(b);
    OneBehind(s, z, m - l, Msb(b - Pow2(l - 1), l - 1), Unpack(input[c..]));
    RestBelow(b, l);
  }

  lemma RestBelow(b: nat, l: nat)
    requires l > 0 && Pow2(l - 1) <= b < 2 * Pow2(l - 1)
    ensures 0 <= b - Pow2(l - 1) < Pow2(l - 1)
  {
  }

  lemma OneBehind(s: bits, z: nat, n: nat, low: bits, tail: bits)
    requires z <= |s| && s[..z] == Zeros(z) && s[z..] == (Ones(n) + low) + tail
    ensures LeadingZeros(s) == z + n && z + n + 1 <= |s| && s[z + n + 1..] == low + tail
  {
    hide LeadingZeros;
    var t := (Ones(n) + low) + tail;
    assert t[n] && t[n + 1..] == low + tail;
    assert s[z..][n..] == s[z + n..] && s[z..][n + 1..] == s[z + n + 1..];
    assert s[z + n] == s[z..][n];
    forall j | 0 <= j < z + n
      ensures !s[j]
    {
      if j < z {
        assert s[j] == s[..z][j];
      } else {
        assert s[j] == s[z..][j - z] == t[j - z];
      }
    }
    FirstOne(s, z + n);
  }

  lemma FirstOne(s: bits, i: nat)
    requires i < |s| && s[i] && forall j :: 0 <= j < i ==> !s[j]
    ensures LeadingZeros(s) == i
  {
  }

  // ---- the reader ----

  class Reader {
    const input: seq<byte>
    var c: nat
    var b: nat
    var nbits: int

    ghost predicate Holds(s: bits)
      reads this
    {
      0 <= nbits <= 8 && Ahead(s, b, nbits, input, c)
    }

    // After the first byte at index c has been fetched.
    constructor (input: seq<byte>, c: nat)
      requires c < |input|
      ensures this.input == input && Holds(Unpack(input[c..])) && nbits == 8
    {
      this.input := input;
      this.c := c + 1;
      b, nbits := input[c], 8;
      new;
      BytePow();
      var x, tail := input[c], input[c + 1..];
      assert input[c..] == [x] + tail;
      UnpackCons(x, tail);
    }

    // The next n bits, of which at most 32 are kept beside what is left of the last byte.
    method Take(n: nat, ghost s: bits) returns (ok: bool, v: nat)
      requires Holds(s) && n <= 31
      modifies this`c, this`b, this`nbits
      ensures ok == (n <= |s|)
      ensures ok ==>
              0 <= nbits <= 8 && Holds(s[n..]) && v == Unsigned(Value(s[..n]), 32 - nbits) &&
                (n > 0 || old(nbits) <= 7 ==> nbits <= 7)
    {
      hide Ahead;
      hide Unsigned;
      hide Value;
      hide Pow2;
      hide ShiftedIn;
      hide Low32;
      hide TopPart;
      ghost var f: nat := b;
      SmallBuffer(s, b, nbits, input, c);
      nbits := nbits - n;
      v := 0;
      while nbits < 0
        invariant nbits <= 8 && nbits + n >= 0 && (n > 0 || old(nbits) <= 7 ==> nbits <= 7)
        invariant b == Low32(f) && Ahead(s, f, n + nbits, input, c)
        decreases 8 - nbits
      {
        AheadLength(s, f, n + nbits, input, c);
        if c >= |input| {
          return false, 0;
        }
        FetchAhead(s, f, n + nbits, input, c);
        ShiftWord(f, input[c]);
        f := f * 256 + input[c];
        b := ShiftedIn(b, input[c]);
        c := c + 1;
        nbits := nbits + 8;
      }
      TakeAhead(s, f, n, nbits, input, c);
      LowWord(f, nbits);
      v := TopPart(b, nbits);
      b := Unsigned(b, nbits);
      ok := true;
    }

    // Skip zeros up to and including a one.
    method TakeTop(ghost s: bits) returns (ok: bool, nzero: nat)
      requires Holds(s) && nbits <= 7
      modifies this`c, this`b, this`nbits
      ensures ok == (LeadingZeros(s) < |s|)
      ensures ok ==> nzero == LeadingZeros(s) && Holds(s[nzero + 1..]) && nbits <= 7
    {
      hide Ahead;
      hide Skipped;
      hide BitLength;
      hide Pow2;
      ghost var z: nat := 0;
      nzero := 0;
      NothingSkipped(s, b, nbits, input, c);
      while b == 0
        invariant 0 <= nbits - z <= 8 && Skipped(s, z, b, nbits - z, input, c)
        decreases |input| - c, b == 0
      {
        SkippedBound(s, z, b, nbits - z, input, c);
        if c >= |input| {
          NoOnes(s, z, nbits - z, input);
          return false, 0;
        }
        SkipByte(s, z, nbits - z, input, c);
        z := nbits;
        nbits := nbits + 8;
        b := input[c];
        c := c + 1;
      }
      FoundOne(s, z, b, nbits - z, input, c);
      nzero := nbits - BitLength(b);
      nbits := nbits - (nzero + 1);
      b := b - Pow2(nbits);
      ok := true;
    }

    // One Rice code.
    method TakeSplit(fs: nat, ghost s: bits) returns (ok: bool, diff: nat)
      requires Holds(s) && nbits <= 7 && fs <= 31
      modifies this`c, this`b, this`nbits
      ensures ok == TakeRice(s, fs).Took?
      ensures ok ==> Holds(TakeRice(s, fs).rest) && diff == TakeRice(s, fs).value && nbits <= 7
    {
      hide Holds;
      hide Unsigned;
      hide Pow2;
      hide Value;
      var nzero, v;
      diff := 0;
      ok, nzero := TakeTop(s);
      if !ok {
        return;
      }
      ok, v := Take(fs, s[nzero + 1..]);
      if !ok {
        return;
      }
      ghost var t := s[nzero + 1..];
      assert t[..fs] == s[nzero + 1..nzero + 1 + fs] && t[fs..] == s[nzero + 1 + fs..];
      HeldLength(t[fs..]);
      ModuloRange(nzero * Pow2(fs), 0x1_0000_0000);
      diff := nzero * Pow2(fs) % 0x1_0000_0000 + v;
    }

    lemma HeldLength(s: bits)
      requires Holds(s) && nbits <= 7
      ensures |s| % 8 == nbits
    {
      AheadLength(s, b, nbits, input, c);
      hide Ahead;
    }

    // A difference stored directly, assembled from the top.
    method TakeDirect(bbits: nat, ghost s: bits) returns (ok: bool, diff: nat)
      requires Holds(s) && nbits <= 7 && 8 <= bbits && bbits % 8 == 0
      modifies this`c, this`b
      ensures ok == (bbits <= |s|)
      ensures ok ==> Holds(s[bbits..]) && diff == Value(s[..bbits])
    {
      hide Ahead;
      hide Value;
      hide Pow2;
      hide TopPart;
      hide Scaled;
      hide Unsigned;
      var k: int := bbits - nbits;
      ghost var f: nat := b;
      diff := Scaled(b, k);
      k := k - 8;
      while k >= 0
        invariant k + 8 >= 0 && (k + nbits) % 8 == 0 && k + 8 <= bbits
        invariant Ahead(s, f, bbits - (k + 8), input, c) && diff == Scaled(f, k + 8)
        decreases k
      {
        AheadLength(s, f, bbits - (k + 8), input, c);
        if c >= |input| {
          return false, 0;
        }
        FetchAhead(s, f, bbits - (k + 8), input, c);
        NextByte(f, input[c], k);
        f := f * 256 + input[c];
        b := input[c];
        c := c + 1;
        diff := diff + Scaled(b, k);
        k := k - 8;
      }
      if nbits > 0 {
        AheadLength(s, f, bbits - (k + 8), input, c);
        if c >= |input| {
          return false, 0;
        }
        assert k == -nbits;
        FetchAhead(s, f, bbits - (k + 8), input, c);
        LastPart(f, input[c], nbits);
        f := f * 256 + input[c];
        b := input[c];
        c := c + 1;
        diff := diff + TopPart(b, -k);
        b := Unsigned(b, nbits);
      } else {
        LastNone(f);
        b := 0;
      }
      TakeAhead(s, f, bbits, nbits, input, c);
      ok := true;
    }
  }

  function ShiftedIn(b: nat, x: byte): nat
  {
    ModuloRange(b * 256, WORD);
    b * 256 % WORD + x
  }

  lemma SmallBuffer(s: bits, b: nat, n: int, input: seq<byte>, c: nat)
    requires 0 <= n <= 8 && Ahead(s, b, n, input, c)
    ensures b == Low32(b)
  {
    BytePow();
    Pow2Monotone(n, 8);
    QuotientUnique(b, WORD, 0, b);
  }

  lemma NothingSkipped(s: bits, b: nat, m: nat, input: seq<byte>, c: nat)
    requires Ahead(s, b, m, input, c)
    ensures Skipped(s, 0, b, m, input, c)
  {
    hide Ahead;
    assert s[0..] == s && s[..0] == Zeros(0);
  }

  lemma SkippedBound(s: bits, z: nat, b: nat, m: nat, input: seq<byte>, c: nat)
    requires Skipped(s, z, b, m, input, c)
    ensures c <= |input|
  {
  }

  lemma NextByte(f: nat, x: byte, k: nat)
    ensures Scaled(f, k + 8) + Scaled(x, k) == Scaled(f * 256 + x, k)
  {
    BytePow();
    Pow2Add(8, k);
    var p := Pow2(k);
    hide Pow2;
    Distribute(f, x, p);
  }

  lemma Distribute(f: nat, x: nat, p: nat)
    ensures f * (256 * p) + x * p == (f * 256 + x) * p && x * p >= 0
  {
  }

  // The last byte's upper bits complete the difference, and its lower n bits stay.
  lemma LastPart(f: nat, x: byte, n: nat)
    requires 0 < n <= 7
    ensures Scaled(f, 8 - n) + TopPart(x, n) == TopPart(f * 256 + x, n) && Unsigned(f * 256 + x, n) == Unsigned(x, n)
  {
    BytePow();
    Pow2Add(8 - n, n);
    var p, q := Pow2(n), Pow2(8 - n);
    hide Pow2;
    Parts(f, x, p, q);
  }

  lemma Parts(f: nat, x: nat, p: nat, q: nat)
    requires p > 0 && q * p == 256
    ensures x / p >= 0 && f * q + x / p == (f * 256 + x) / p && (f * 256 + x) % p == x % p
  {
    assert f * 256 + x == p * (f * q + x / p) + x % p by {
      assert f * 256 == f * (q * p) == p * (f * q);
      assert x == p * (x / p) + x % p;
    }
    QuotientUnique(f * 256 + x, p, f * q + x / p, x % p);
  }

  lemma LastNone(f: nat)
    ensures Scaled(f, 0) == f && TopPart(f, 0) == f && Unsigned(f, 0) == 0
  {
  }
}
