/**
  The TIFF LZW decoder, which keeps no strings: every entry is where its string can be
  read, in the table of literals or in the output written so far, and how long it is.
  It refines the textbook decoder of LzwSpec in both bit orders.
 */
module LzwDecoder {
  import opened Powers
  import opened Bits
  import opened LzwSpec
  import opened LzwReader

  // A pointer into the literal table or into the output.
  datatype Ptr = Literal(i: nat) | Output(o: nat)

  // The literal table: byte i is i, then eight more so that a chunk read stays inside.
  const LITERALS := 264

  function LiteralByte(i: nat): byte
  {
    if i < 256 then i else 0
  }

  // The string of length n read at p, given the output so far.
  ghost predicate Denotes(p: Ptr, n: nat, out: text, s: text)
  {
    match p
    case Literal(i) => i < 256 && n == 1 && s == [i as byte]
    case Output(o) => o + n <= |out| && out[o..o + n] == s
  }

  lemma DenotesLonger(p: Ptr, n: nat, out: text, s: text, more: text)
    requires Denotes(p, n, out, s)
    ensures Denotes(p, n, out + more, s)
  {
    if p.Output? {
      assert (out + more)[p.o..p.o + n] == out[p.o..p.o + n];
    }
  }

  // Entry i is read from the output.
  ghost predicate Entry(ptrs: seq<Ptr>, lens: seq<nat>, d: Decoder, i: nat)
    requires |ptrs| == |lens| == MAX_CODES && d.Next() <= MAX_CODES && i < |d.table|
  {
    ptrs[FIRST + i].Output? && Denotes(ptrs[FIRST + i], lens[FIRST + i], d.out, d.table[i])
  }

  // The tables denote the literals and the decoder's dictionary.
  ghost predicate Tables(ptrs: seq<Ptr>, lens: seq<nat>, d: Decoder)
  {
    |ptrs| == |lens| == MAX_CODES && d.Next() <= MAX_CODES &&
    (forall c :: 0 <= c < 256 ==> ptrs[c] == Literal(c) && lens[c] == 1) &&
    (forall i :: 0 <= i < |d.table| ==> Entry(ptrs, lens, d, i))
  }

  // No string is longer than its code allows, so a length always fits 16 bits.
  ghost predicate Bounded(d: Decoder)
  {
    (forall i :: 0 <= i < |d.table| ==> 0 < |d.table[i]| <= i + 2) && |d.prev| <= |d.table| + 1
  }

  // The previous code's string is the end of the output.
  ghost predicate Previous(d: Decoder, prevCode: int, prevOut: nat, prevLen: nat)
  {
    (prevCode < 0 <==> d.prev == []) &&
    (d.prev != [] ==> prevLen == |d.prev| && prevOut + prevLen == |d.out| && d.out[prevOut..] == d.prev)
  }

  // ---- one code on the specification side ----

  // The new entry is found where the previous string starts, one byte longer.
  lemma EntryDenotes(d: Decoder, s: text, prevCode: int, prevOut: nat, prevLen: nat)
    requires Previous(d, prevCode, prevOut, prevLen) && d.prev != [] && s != []
    ensures Denotes(Output(prevOut), prevLen + 1, d.out + s, d.prev + [s[0]])
  {
    var out := d.out + s;
    assert out[prevOut..prevOut + prevLen + 1] == d.out[prevOut..] + [s[0]];
  }

  lemma TablesEmit(ptrs: seq<Ptr>, lens: seq<nat>, d: Decoder, s: text)
    requires Tables(ptrs, lens, d)
    ensures Tables(ptrs, lens, d.(out := d.out + s, prev := s))
  {
    hide Denotes;
    var e := d.(out := d.out + s, prev := s);
    assert e.Next() == d.Next();
    forall i | 0 <= i < |e.table|
      ensures Entry(ptrs, lens, e, i)
    {
      assert Entry(ptrs, lens, d, i);
      DenotesLonger(ptrs[FIRST + i], lens[FIRST + i], d.out, d.table[i], s);
    }
  }

  lemma TablesAdd(ptrs: seq<Ptr>, lens: seq<nat>, d: Decoder, p: Ptr, n: nat, t: text)
    requires Tables(ptrs, lens, d) && d.Next() < MAX_CODES && p.Output? && Denotes(p, n, d.out, t)
    ensures Tables(ptrs[d.Next() := p], lens[d.Next() := n], d.(table := d.table + [t]))
  {
    hide Denotes;
    var e, ptrs', lens' := d.(table := d.table + [t]), ptrs[d.Next() := p], lens[d.Next() := n];
    forall i | 0 <= i < |e.table|
      ensures Entry(ptrs', lens', e, i)
    {
      if i < |d.table| {
        assert Entry(ptrs, lens, d, i);
      }
    }
  }

  lemma BoundedString(d: Decoder, code: nat)
    requires d.Sound() && Bounded(d)
    requires code < 256 || FIRST <= code <= d.Next()
    requires code == d.Next() ==> d.prev != []
    ensures |StringOf(d, code)| <= |d.table| + 2
    ensures code < d.Next() ==> |StringOf(d, code)| <= |d.table| + 1
  {
  }

  // The state after the string s is emitted and the new entry, if any, is added.
  function Advance(d: Decoder, s: text): Decoder
    requires s != []
  {
    Decoder(d.size, if d.prev != [] && d.Next() < MAX_CODES then d.table + [d.prev + [s[0]]] else d.table, s, d.out + s)
  }

  lemma AdvanceBounded(d: Decoder, code: nat)
    requires d.Sound() && Bounded(d) && d.Next() <= MAX_CODES && code < MAX_CODES
    requires code < 256 || FIRST <= code <= d.Next()
    requires code == d.Next() ==> d.prev != []
    ensures Bounded(Advance(d, StringOf(d, code))) && Advance(d, StringOf(d, code)).Sound()
  {
    BoundedString(d, code);
    var e := Advance(d, StringOf(d, code));
    forall i | 0 <= i < |e.table|
      ensures 0 < |e.table[i]| <= i + 2
    {
      if i < |d.table| {
        assert e.table[i] == d.table[i];
      }
    }
  }

  // ---- the code ----

  class TiffDecoder {
    const ptrs: array<Ptr>
    const lens: array<nat>
    const output: array<byte>
    var codeSize: nat
    var nextCode: nat
    var prevCode: int
    var prevOut: nat
    var prevLen: nat
    var outP: nat
    ghost var d: Decoder

    ghost predicate Valid()
      reads this, ptrs, lens, output
    {
      output != ptrs as object && output != lens as object && ptrs != lens as object &&
      outP <= output.Length && output[..outP] == d.out &&
      codeSize == d.size && 9 <= codeSize <= 12 && nextCode == d.Next() &&
      d.Sound() && Bounded(d) && Tables(ptrs[..], lens[..], d) && Previous(d, prevCode, prevOut, prevLen)
    }

    constructor (out: array<byte>)
      ensures Valid() && d == Start && output == out && outP == 0
      ensures fresh(ptrs) && fresh(lens)
    {
      ptrs := new Ptr[MAX_CODES](i => Literal(i));
      lens := new nat[MAX_CODES](_ => 1);
      output := out;
      codeSize, nextCode, prevCode := INIT_WIDTH, FIRST, -1;
      prevOut, prevLen, outP := 0, 0, 0;
      d := Start;
    }

    // May a chunk of n bytes be read at p?
    predicate Readable(p: Ptr, n: nat)
    {
      match p
      case Literal(i) => i + n <= LITERALS
      case Output(o) => o + n <= output.Length
    }

    function ByteAt(p: Ptr, k: nat): byte
      requires Readable(p, k + 1)
      reads output
    {
      match p
      case Literal(i) => LiteralByte(i + k)
      case Output(o) => output[o + k]
    }

    // memcpy(&t, p + k, n)
    method Load(p: Ptr, k: nat, n: nat) returns (t: text)
      requires Readable(p, k + n)
      ensures |t| == n && forall i :: 0 <= i < n ==> t[i] == ByteAt(p, k + i)
    {
      t := [];
      while |t| < n
        invariant |t| <= n && forall i :: 0 <= i < |t| ==> t[i] == ByteAt(p, k + i)
      {
        t := t + [ByteAt(p, k + |t|)];
      }
    }

    // memcpy(output + dst, &t, |t|)
    method Store(dst: nat, t: text)
      requires dst + |t| <= output.Length
      modifies output
      ensures output[..dst] == old(output[..dst]) && output[dst..dst + |t|] == t
      ensures output[dst + |t|..] == old(output[dst + |t|..])
    {
      forall i | 0 <= i < |t| {
        output[dst + i] := t[i];
      }
    }

    lemma BytesDenoted(p: Ptr, n: nat, s: text)
      requires outP <= output.Length && Denotes(p, n, output[..outP], s)
      ensures |s| == n && Readable(p, n)
      ensures forall k :: 0 <= k < n ==> ByteAt(p, k) == s[k]
    {
      assert |s| == n;
      if p.Output? {
        assert output[..outP][p.o..p.o + n] == output[p.o..p.o + n];
        forall k | 0 <= k < n
          ensures ByteAt(p, k) == s[k]
        {
          assert s[k] == output[p.o..p.o + n][k] == output[p.o + k];
        }
      } else {
        assert ByteAt(p, 0) == p.i;
      }
    }

    // Emit the string at p: short ones move as one or two chunks of eight bytes, which
    // may write past the string but never before the current output position.
    method EmitString(p: Ptr, len: nat, ghost s: text)
      requires outP + len <= output.Length && Denotes(p, len, output[..outP], s)
      modifies output
      ensures output[..outP + len] == old(output[..outP]) + s
    {
      BytesDenoted(p, len, s);
      hide LiteralByte;
      hide Denotes;
      var avail := output.Length - outP;
      if len <= 8 && avail >= 8 {
        EmitOne(p, len, s);
      } else if len <= 16 && avail >= 16 {
        var t0 := Load(p, 0, 8);
        var t1 := Load(p, 8, 8);
        EmitTwo(t0, t1, len, s);
      } else {
        var t := Load(p, 0, len);
        assert t == s;
        Store(outP, t);
      }
      assert output[..outP + len] == output[..outP] + output[outP..outP + len];
    }

    method EmitOne(p: Ptr, len: nat, ghost s: text)
      requires outP + 8 <= output.Length && Readable(p, 8) && len <= 8 && |s| == len
      requires forall k :: 0 <= k < len ==> ByteAt(p, k) == s[k]
      modifies output
      ensures output[..outP] == old(output[..outP]) && output[outP..outP + len] == s
    {
      var t := Load(p, 0, 8);
      forall k | 0 <= k < len
        ensures t[k] == s[k]
      {
        assert t[k] == ByteAt(p, 0 + k);
      }
      Store(outP, t);
      assert t[..len] == s;
      assert output[outP..outP + len] == output[outP..outP + 8][..len];
    }

    method EmitTwo(t0: text, t1: text, len: nat, ghost s: text)
      requires outP + 16 <= output.Length && |t0| == |t1| == 8 && 8 <= len <= 16 && |s| == len
      requires t0 == s[..8] && t1[..len - 8] == s[8..]
      modifies output
      ensures output[..outP] == old(output[..outP]) && output[outP..outP + len] == s
    {
      Store(outP, t0);
      Store(outP + 8, t1);
      assert output[outP..outP + 8] == t0 by {
        assert output[..outP + 8][outP..] == t0;
      }
      assert output[outP + 8..outP + len] == t1[..len - 8];
      assert output[outP..outP + len] == output[outP..outP + 8] + output[outP + 8..outP + len];
      assert output[..outP] == output[..outP + 8][..outP];
      assert s == s[..8] + s[8..];
    }

    // K-w-K: the previous string copied forward a byte at a time runs into itself.
    method EmitRepeat(len: nat, ghost w: text)
      requires 0 < |w| <= outP && len == |w| + 1 && outP + len <= output.Length
      requires output[outP - |w|..outP] == w
      modifies output
      ensures output[..outP + len] == old(output[..outP]) + (w + [w[0]])
    {
      var src := outP - (len - 1);
      var i := 0;
      while i < len
        invariant 0 <= i <= len
        invariant output[..outP] == old(output[..outP])
        invariant output[outP..outP + i] == (w + [w[0]])[..i]
      {
        assert output[src + i] == (w + [w[0]])[i] by {
          if i < |w| {
            assert output[src + i] == output[..outP][src + i] == old(output[..outP])[src + i];
            assert old(output[outP - |w|..outP])[i] == old(output[src + i]);
          } else {
            assert output[src + i] == output[outP..outP + i][0];
          }
        }
        output[outP + i] := output[src + i];
        i := i + 1;
        assert output[outP..outP + i] == output[outP..outP + i - 1] + [output[outP + i - 1]];
      }
      assert output[outP..outP + len] == w + [w[0]];
      assert output[..outP + len] == output[..outP] + output[outP..outP + len];
    }

    // What the function returns for an outcome, and what the output then holds.
    ghost predicate Returned(o: Outcome, r: int)
      reads output
    {
      match o
      case Count(t) => r == |t| && r <= output.Length && output[..r] == t
      case Short => r == -1
      case Corrupt => r == -2
      case TooLong => r == -3
    }

    // The new entry, once the string s of code has been emitted.
    method AddEntry(ghost s: text)
      requires outP <= output.Length && ptrs != lens as object
      requires nextCode == d.Next() && d.Sound() && Bounded(d) && Tables(ptrs[..], lens[..], d)
      requires Previous(d, prevCode, prevOut, prevLen) && s != []
      modifies this`nextCode, ptrs, lens
      ensures nextCode == Advance(d, s).Next() && Tables(ptrs[..], lens[..], Advance(d, s))
    {
      ghost var e := d.(out := d.out + s, prev := s);
      TablesEmit(ptrs[..], lens[..], d, s);
      if prevCode >= 0 && nextCode < MAX_CODES {
        EntryDenotes(d, s, prevCode, prevOut, prevLen);
        TablesAdd(ptrs[..], lens[..], e, Output(prevOut), prevLen + 1, d.prev + [s[0]]);
        assert prevLen + 1 < 65536;
        ptrs[nextCode] := Output(prevOut);
        lens[nextCode] := (prevLen + 1) % 65536;
        assert ptrs[..] == old(ptrs[..])[nextCode := Output(prevOut)];
        assert lens[..] == old(lens[..])[nextCode := prevLen + 1];
        nextCode := nextCode + 1;
      }
    }

    // Record the emitted string as the previous one.
    method Record(code: nat, len: nat, ghost s: text)
      requires output != ptrs as object && output != lens as object && ptrs != lens as object
      requires outP + len <= output.Length && output[..outP + len] == d.out + s && outP == |d.out|
      requires codeSize == d.size && 9 <= codeSize <= 12 && nextCode == d.Next()
      requires d.Sound() && Bounded(d) && Tables(ptrs[..], lens[..], d) && Previous(d, prevCode, prevOut, prevLen)
      requires code < 256 || FIRST <= code <= d.Next()
      requires code == d.Next() ==> d.prev != []
      requires code < MAX_CODES && s == StringOf(d, code) && |s| == len
      modifies this, ptrs, lens
      ensures Valid() && d == Advance(old(d), s) && outP == old(outP) + len
    {
      AdvanceBounded(d, code);
      hide Tables;
      hide Bounded;
      AddEntry(s);
      prevCode := code;
      prevOut := outP;
      prevLen := len;
      outP := outP + len;
      d := Advance(d, s);
    }

    method SetSize(size: nat)
      requires Valid() && 9 <= size <= 12
      modifies this`codeSize, this`d
      ensures Valid() && d == old(d).(size := size)
    {
      ghost var e := d.(size := size);
      forall i | 0 <= i < |e.table|
        ensures Entry(ptrs[..], lens[..], e, i)
      {
        assert Entry(ptrs[..], lens[..], d, i);
      }
      codeSize := size;
      d := e;
    }

    // Emit the string of a code that the dictionary holds.
    method AcceptKnown(code: nat) returns (stop: bool, r: int)
      requires Valid() && (code < 256 || FIRST <= code < nextCode)
      modifies this, ptrs, lens, output
      ensures var s := StringOf(old(d), code);
              if |old(d).out| + |s| > output.Length then stop && r == -3
              else !stop && Valid() && d == Advance(old(d), s)
    {
      ghost var s := StringOf(d, code);
      assert nextCode <= MAX_CODES;
      var p, len := ptrs[code], lens[code];
      KnownDenotes(ptrs[..], lens[..], d, code);
      r := 0;
      DenotesLength(p, len, d.out, s);
      if len > output.Length - outP {
        return true, -3;
      }
      hide Tables;
      hide Bounded;
      hide Previous;
      hide Denotes;
      EmitString(p, len, s);
      Record(code, len, s);
      stop := false;
    }

    // K-w-K: the code names the entry that is about to be added.
    method AcceptNext() returns (stop: bool, r: int)
      requires Valid() && nextCode < MAX_CODES && prevCode >= 0
      modifies this, ptrs, lens, output
      ensures var s := old(d).prev + [old(d).prev[0]];
              if |old(d).out| + |s| > output.Length then stop && r == -3
              else !stop && Valid() && d == Advance(old(d), s)
    {
      ghost var s := d.prev + [d.prev[0]];
      assert s == StringOf(d, nextCode);
      var len := prevLen + 1;
      r := 0;
      assert d.out[prevOut..] == output[outP - prevLen..outP];
      if len > output.Length - outP {
        return true, -3;
      }
      EmitRepeat(len, d.prev);
      hide Tables;
      hide Bounded;
      Record(nextCode, len, s);
      stop := false;
    }

    method Accept(code: nat) returns (stop: bool, r: int)
      requires Valid() && code < MAX_CODES
      modifies this, ptrs, lens, output
      ensures var step := OneCode(old(d), code, output.Length);
              if step.Stop? then stop && Returned(step.o, r) else !stop && Valid() && d == step.d
    {
      r := 0;
      if code == EOI {
        return true, outP;
      }
      if code == CLEAR {
        codeSize, nextCode, prevCode := INIT_WIDTH, FIRST, -1;
        d := Decoder(INIT_WIDTH, [], [], d.out);
        return false, 0;
      }
      assert nextCode == d.Next() && (prevCode < 0 <==> d.prev == []);
      hide Tables;
      hide Bounded;
      hide Previous;
      if code < nextCode {
        stop, r := AcceptKnown(code);
      } else {
        if code > nextCode || prevCode < 0 {
          return true, -2;
        }
        stop, r := AcceptNext();
      }
      if !stop && outP == output.Length {
        return true, outP;
      }
    }
  }

  lemma KnownDenotes(ptrs: seq<Ptr>, lens: seq<nat>, d: Decoder, code: nat)
    requires Tables(ptrs, lens, d) && d.Sound() && (code < 256 || FIRST <= code < d.Next())
    ensures Denotes(ptrs[code], lens[code], d.out, StringOf(d, code))
  {
    if code >= FIRST {
      assert Entry(ptrs, lens, d, code - FIRST);
    }
  }

  lemma DenotesLength(p: Ptr, n: nat, out: text, s: text)
    requires Denotes(p, n, out, s)
    ensures |s| == n
  {
  }

  // Decode input into out: the count, or -1, -2 or -3.
  method TiffDecodeOrder(input: seq<byte>, out: array<byte>, lsb: bool) returns (r: int)
    modifies out
    ensures match Decode(StreamBits(input, lsb), Start, out.Length, lsb)
            case Count(t) => r == |t| && r <= out.Length && out[..r] == t
            case Short => r == -1
            case Corrupt => r == -2
            case TooLong => r == -3
  {
    var q := new CodeReader(input, lsb);
    var t := new TiffDecoder(out);
    ghost var bits := StreamBits(input, lsb);
    assert q.Rest() == bits;
    hide OneCode;
    hide Decode;
    hide StreamBits;
    hide Tables;
    hide Bounded;
    hide Previous;
    hide CodeOf;
    while true
      invariant t.output == out && fresh(t) && fresh(t.ptrs) && fresh(t.lens) && fresh(q)
      invariant q.Valid() && q.lsb == lsb && t.Valid()
      invariant Decode(q.Rest(), t.d, out.Length, lsb) == Decode(bits, Start, out.Length, lsb)
      decreases |q.Rest()|
    {
      DecodeUnfold(q.Rest(), t.d, out.Length, lsb);
      var size := Grow(t.codeSize, t.nextCode, lsb);
      ghost var rest := q.Rest();
      var ok, code := q.Read(size);
      if !ok {
        return if t.outP == out.Length then t.outP else -1;
      }
      CodeBelow(rest[..size], lsb);
      t.SetSize(size);
      var stop;
      stop, r := t.Accept(code);
      if stop {
        return;
      }
    }
  }

  lemma CodeBelow(s: bits, lsb: bool)
    requires |s| <= 12
    ensures CodeOf(s, lsb) < MAX_CODES
  {
    PowersUsed();
    Pow2Monotone(|s|, 12);
  }

  lemma DecodeUnfold(s: bits, d: Decoder, n: nat, lsb: bool)
    requires d.size > 0 && d.Sound()
    ensures var size := Grow(d.size, d.Next(), lsb);
            Decode(s, d, n, lsb) ==
            if |s| < size then (if |d.out| == n then Count(d.out) else Short)
            else
              var step := OneCode(d.(size := size), CodeOf(s[..size], lsb), n);
              if step.Stop? then step.o else Decode(s[size..], step.d, n, lsb)
  {
  }
}
