/**
  The GIF decoder, whose table holds a prefix code and a last byte for each code, and which unwinds strings onto a
  stack.
 */
module GifDecoder {
  import opened Powers
  import opened Bits
  import opened LzwSpec
  import opened LzwReader
  import opened GifSpec

  const STACK_SIZE := 4096

  // ---- chains ----

  // Following the prefixes from c spells s backwards; every prefix is a smaller code.
  ghost predicate Denotes(prefix: seq<nat>, suffix: seq<byte>, clear: nat, c: nat, s: text)
    decreases c
  {
    if c < clear then s == [c % 256] else
    c < |prefix| && c < |suffix| && prefix[c] < c && |s| > 1 && suffix[c] == s[|s| - 1] &&
    Denotes(prefix, suffix, clear, prefix[c], s[..|s| - 1])
  }

  // Entries at n or above do not matter to smaller codes.
  lemma {:induction false} DenotesFrame(prefix: seq<nat>, suffix: seq<byte>, clear: nat, c: nat, s: text, n: nat,
                                        p: nat, x: byte)
    requires Denotes(prefix, suffix, clear, c, s) && c < n < |prefix| && n < |suffix|
    ensures Denotes(prefix[n := p], suffix[n := x], clear, c, s)
    decreases c
  {
    if c >= clear {
      DenotesFrame(prefix, suffix, clear, prefix[c], s[..|s| - 1], n, p, x);
    }
  }

  // The string of a code that is in use.
  ghost function StringAt(clear: nat, table: seq<text>, c: nat): text
    requires c < clear || clear + 2 <= c < clear + 2 + |table|
  {
    if c < clear then [c % 256] else table[c - clear - 2]
  }

  ghost predicate Entry(prefix: seq<nat>, suffix: seq<byte>, first: seq<byte>, clear: nat, table: seq<text>, i: nat)
  {
    i < |table| && clear + 2 + i < |first| && table[i] != [] &&
    Denotes(prefix, suffix, clear, clear + 2 + i, table[i]) && first[clear + 2 + i] == table[i][0]
  }

  ghost predicate Tables(prefix: seq<nat>, suffix: seq<byte>, first: seq<byte>, clear: nat, table: seq<text>)
  {
    |prefix| == |suffix| == |first| == MAX_CODES && 0 < clear <= 256 && clear + 2 + |table| <= MAX_CODES &&
    (forall c :: 0 <= c < clear ==> first[c] == c % 256) &&
    (forall i {:trigger table[i]} :: 0 <= i < |table| ==> Entry(prefix, suffix, first, clear, table, i)) &&
    (forall i {:trigger table[i]} :: 0 <= i < |table| ==> |table[i]| <= i + 2)
  }

  lemma StringDenoted(prefix: seq<nat>, suffix: seq<byte>, first: seq<byte>, clear: nat, table: seq<text>, c: nat)
    requires Tables(prefix, suffix, first, clear, table) && (c < clear || clear + 2 <= c < clear + 2 + |table|)
    ensures var s := StringAt(clear, table, c);
            s != [] && Denotes(prefix, suffix, clear, c, s) && first[c] == s[0] && |s| <= |table| + 1 && c < MAX_CODES
  {
    if c >= clear {
      assert Entry(prefix, suffix, first, clear, table, c - clear - 2);
    }
  }

  lemma AddEntry(prefix: seq<nat>, suffix: seq<byte>, first: seq<byte>, clear: nat, table: seq<text>, p: nat, x: byte)
    requires Tables(prefix, suffix, first, clear, table) && clear + 2 + |table| < MAX_CODES
    requires p < clear || clear + 2 <= p < clear + 2 + |table|
    ensures var n := clear + 2 + |table|;
            Tables(prefix[n := p], suffix[n := x], first[n := first[p]], clear,
              table + [StringAt(clear, table, p) + [x]])
  {
    var n := clear + 2 + |table|;
    var prefix', suffix', first' := prefix[n := p], suffix[n := x], first[n := first[p]];
    var s := StringAt(clear, table, p);
    var table' := table + [s + [x]];
    StringDenoted(prefix, suffix, first, clear, table, p);
    DenotesFrame(prefix, suffix, clear, p, s, n, p, x);
    assert (s + [x])[..|s|] == s;
    forall i | 0 <= i < |table'|
      ensures Entry(prefix', suffix', first', clear, table', i) && |table'[i]| <= i + 2
    {
      if i < |table| {
        assert Entry(prefix, suffix, first, clear, table, i);
        DenotesFrame(prefix, suffix, clear, clear + 2 + i, table[i], n, p, x);
      }
    }
  }

  // ---- the decoder ----

  class Decoder {
    const m: nat
    const clearCode: nat
    const prefix: array<nat>
    const suffix: array<byte>
    const firstByte: array<byte>
    const stack: array<byte>
    const output: array<byte>
    var codeSize: nat
    var nextCode: nat
    var prevCode: int
    var outP: nat
    ghost var d: Gif

    ghost predicate Apart()
      reads this
    {
      output != suffix && output != firstByte && output != stack && suffix != firstByte && suffix != stack &&
      firstByte != stack &&
      stack.Length == STACK_SIZE && 2 <= m <= 8 && clearCode == ClearCode(m)
    }

    ghost predicate Valid()
      reads this, prefix, suffix, firstByte, output
    {
      Apart() && outP <= output.Length && output[..outP] == d.out && codeSize == d.size && m < codeSize <= 12 &&
      nextCode == NextCode(m, d) && Tables(prefix[..], suffix[..], firstByte[..], clearCode, d.table) && Previous()
    }

    // The string put out last is that of prevCode.
    ghost predicate Previous()
      reads this
    {
      if d.prev == [] then prevCode == -1
      else
        prevCode >= 0 && (prevCode < clearCode || clearCode + 2 <= prevCode < clearCode + 2 + |d.table|) &&
        d.prev == StringAt(clearCode, d.table, prevCode)
    }

    constructor (m: nat, out: array<byte>)
      requires 2 <= m <= 8
      ensures Valid() && this.m == m && d == GifStart(m) && output == out
      ensures fresh(prefix) && fresh(suffix) && fresh(firstByte) && fresh(stack)
    {
      ClearRange(m);
      this.m := m;
      clearCode := Pow2(m);
      prefix := new nat[MAX_CODES](_ => 0);
      suffix := new byte[MAX_CODES](i => i % 256);
      firstByte := new byte[MAX_CODES](i => i % 256);
      stack := new byte[STACK_SIZE];
      output := out;
      codeSize, nextCode, prevCode, outP := m + 1, Pow2(m) + 2, -1, 0;
      d := GifStart(m);
    }

    // Push the string s of code c onto the stack, last byte first; c is then its first byte.
    method Walk(code: nat, sp0: nat, ghost s: text) returns (first: byte, sp: nat)
      requires Apart() && Denotes(prefix[..], suffix[..], clearCode, code, s) && clearCode <= 256
      requires s != [] && sp0 + |s| <= STACK_SIZE
      modifies stack
      ensures sp == sp0 + |s| && stack[..sp0] == old(stack[..sp0]) && first == s[0]
      ensures forall k {:trigger stack[k]} :: sp0 <= k < sp ==> stack[k] == s[sp - 1 - k]
    {
      var c: nat := code;
      ghost var w := s;
      sp := sp0;
      while c >= clearCode
        invariant Denotes(prefix[..], suffix[..], clearCode, c, w) && w != []
        invariant sp0 <= sp && |w| + (sp - sp0) == |s| && w == s[..|w|]
        invariant stack[..sp0] == old(stack[..sp0])
        invariant forall k {:trigger stack[k]} :: sp0 <= k < sp ==> stack[k] == s[sp0 + |s| - 1 - k]
        decreases c
      {
        stack[sp] := suffix[c];
        sp := sp + 1;
        c := prefix[c];
        w := w[..|w| - 1];
      }
      stack[sp] := c % 256;
      sp := sp + 1;
      first := c % 256;
    }

    // Move n bytes from the top of the stack to the output.
    method Drain(sp: nat, n: nat, ghost s: text)
      requires Apart() && n <= sp == |s| <= STACK_SIZE && outP + n <= output.Length
      requires forall k {:trigger stack[k]} :: 0 <= k < sp ==> stack[k] == s[sp - 1 - k]
      modifies this`outP, output
      ensures outP == old(outP) + n && output[..outP] == old(output[..outP]) + s[..n]
    {
      var i := sp;
      ghost var p := outP;
      while i > sp - n
        invariant sp - n <= i <= sp && outP == p + (sp - i) && output[..p] == old(output[..outP])
        invariant output[p..outP] == s[..sp - i]
      {
        i := i - 1;
        output[outP] := stack[i];
        outP := outP + 1;
        assert output[p..outP] == output[p..outP - 1] + [stack[i]];
      }
      assert output[..outP] == output[..p] + output[p..outP];
    }

    // The new entry: the previous string and the first byte of this one.
    method AddNew(first: byte, ghost s: text)
      requires Apart() && s != [] && first == s[0] && codeSize == d.size && m < codeSize <= 12 &&
               nextCode == NextCode(m, d)
      requires Tables(prefix[..], suffix[..], firstByte[..], clearCode, d.table) && Previous()
      modifies this`nextCode, this`codeSize, prefix, suffix, firstByte
      ensures var e := Extended(m, d, s);
              nextCode == NextCode(m, e) && codeSize == e.size && m < codeSize <= 12 &&
              Tables(prefix[..], suffix[..], firstByte[..], clearCode, e.table)
    {
      if prevCode >= 0 && nextCode < MAX_CODES {
        AddEntry(prefix[..], suffix[..], firstByte[..], clearCode, d.table, prevCode, first);
        ghost var p0, s0, f0 := prefix[..], suffix[..], firstByte[..];
        ghost var p: nat := prevCode;
        prefix[nextCode] := prevCode;
        suffix[nextCode] := first;
        firstByte[nextCode] := firstByte[prevCode];
        assert prefix[..] == p0[nextCode := p];
        assert suffix[..] == s0[nextCode := first];
        assert firstByte[..] == f0[nextCode := f0[prevCode]];
        nextCode := nextCode + 1;
        if nextCode == Pow2(codeSize) && codeSize < 12 {
          codeSize := codeSize + 1;
        }
      }
    }

    // What the source returns for an outcome.
    ghost predicate Returned(o: GifOutcome, r: int)
      reads output
    {
      match o
      case Done(t) => r == 0 && |t| == output.Length && output[..] == t
      case TooSoon => r == -2
      case BadCode => r == -4
    }

    method Finished() returns (r: int)
      requires Valid()
      ensures Returned(Finish(d, output.Length), r)
    {
      assert output[..output.Length] == output[..];
      r := if outP == output.Length then 0 else -2;
    }

    method Clear()
      requires Valid()
      modifies this`codeSize, this`nextCode, this`prevCode, this`d
      ensures Valid() && d == Gif(m + 1, [], [], old(d).out)
    {
      codeSize, nextCode, prevCode := m + 1, clearCode + 2, -1;
      d := Gif(m + 1, [], [], d.out);
      assert Tables(prefix[..], suffix[..], firstByte[..], clearCode, []);
    }

    // The string of a defined code, on the stack.
    method Unwind(code: nat) returns (first: byte, sp: nat)
      requires Valid() && Defined(m, d, code) && code < MAX_CODES
      modifies stack
      ensures var s := GifString(m, d, code);
              first == s[0] && sp == |s| <= STACK_SIZE && forall k {:trigger stack[k]} :: 0 <= k < sp ==>
                stack[k] == s[sp - 1 - k]
    {
      if code >= nextCode {
        StringDenoted(prefix[..], suffix[..], firstByte[..], clearCode, d.table, prevCode);
        ghost var w := d.prev;
        stack[0] := firstByte[prevCode];
        ghost var bottom := stack[..1];
        first, sp := Walk(prevCode, 1, w);
        assert stack[0] == stack[..1][0] == bottom[0];
      } else {
        StringDenoted(prefix[..], suffix[..], firstByte[..], clearCode, d.table, code);
        first, sp := Walk(code, 0, StringAt(clearCode, d.table, code));
      }
    }

    // Put out the string on the stack and add the new entry.
    method Accept(code: nat, first: byte, sp: nat, ghost s: text)
      requires Valid() && Defined(m, d, code) && code < MAX_CODES && s == GifString(m, d, code) && first == s[0]
      requires sp == |s| <= STACK_SIZE && |d.out| + |s| <= output.Length
      requires forall k {:trigger stack[k]} :: 0 <= k < sp ==> stack[k] == s[sp - 1 - k]
      modifies this`outP, this`nextCode, this`codeSize, this`prevCode, this`d, output, prefix, suffix, firstByte
      ensures Valid() && d == Extended(m, old(d), s)
    {
      hide Tables;
      TablesSound(prefix[..], suffix[..], firstByte[..], clearCode, d);
      Drain(sp, sp, s);
      assert s[..sp] == s;
      AddNew(first, s);
      PrevStays(clearCode, m, d, code, s);
      prevCode := code;
      d := Extended(m, d, s);
    }
  }

  // The code just read names its string in the extended table too.
  lemma PrevStays(clear: nat, m: nat, d: Gif, code: nat, s: text)
    requires 2 <= m <= 8 && clear == ClearCode(m) && GifSpec.Sound(d) && Defined(m, d, code) &&
             s == GifString(m, d, code)
    requires clear + 2 + |d.table| <= MAX_CODES && code < MAX_CODES
    ensures var e := Extended(m, d, s);
            (code < clear || clear + 2 <= code < clear + 2 + |e.table|) && s == StringAt(clear, e.table, code)
  {
    ClearRange(m);
    hide Pow2;
  }

  lemma ClearRange(m: nat)
    requires 2 <= m <= 8
    ensures 4 <= Pow2(m) <= 256
  {
    Pow2Monotone(2, m);
    LiteralBelow(m);
    assert Pow2(2) == 4;
  }

  lemma TablesSound(prefix: seq<nat>, suffix: seq<byte>, first: seq<byte>, clear: nat, d: Gif)
    requires Tables(prefix, suffix, first, clear, d.table)
    ensures GifSpec.Sound(d) && clear + 2 + |d.table| <= MAX_CODES
  {
    forall i | 0 <= i < |d.table|
      ensures d.table[i] != []
    {
      assert Entry(prefix, suffix, first, clear, d.table, i);
    }
  }

  lemma CodeBelow(s: bits)
    requires |s| <= 12
    ensures ValueLsb(s) < MAX_CODES
  {
    PowersUsed();
    Pow2Monotone(|s|, 12);
  }

  lemma GifUnfold(s: bits, d: Gif, m: nat, n: nat)
    requires m <= 8 && d.size > 0 && GifSpec.Sound(d) && |d.out| <= n
    ensures GifDecode(s, d, m, n) ==
            if |s| < d.size then Finish(d, n) else
            var code, rest := ValueLsb(s[..d.size]), s[d.size..];
            if code == ClearCode(m) + 1 then Finish(d, n) else
            if code == ClearCode(m) then GifDecode(rest, Gif(m + 1, [], [], d.out), m, n) else
            if !Defined(m, d, code) then BadCode else
            var str := GifString(m, d, code);
            if |d.out| + |str| > n then Done(d.out + str[..n - |d.out|]) else
            GifDecode(rest, Extended(m, d, str), m, n)
  {
  }

  // Decode input into out. Returns 0 if out is full, -2 if the data end too soon, -4 for an undefined code, and -1
  // if the literals are not 2 to 8 bits wide.
  method GifLzwDecode(minCodeSize: int, input: seq<byte>, out: array<byte>) returns (r: int)
    modifies out
    ensures minCodeSize < 2 || minCodeSize > 8 ==> r == -1
    ensures 2 <= minCodeSize <= 8 ==>
      match GifDecode(UnpackLsb(input), GifStart(minCodeSize), minCodeSize, out.Length)
      case Done(t) => r == 0 && out[..] == t
      case TooSoon => r == -2
      case BadCode => r == -4
  {
    if minCodeSize < 2 || minCodeSize > 8 {
      return -1;
    }
    var m: nat := minCodeSize;
    var q := new CodeReader(input, true);
    var t := new Decoder(m, out);
    ghost var result := GifDecode(UnpackLsb(input), GifStart(m), m, out.Length);
    var more := true;
    r := 0;
    while more
      invariant t.output == out && fresh(t) && fresh(t.prefix) && fresh(t.suffix) && fresh(t.firstByte) &&
                fresh(t.stack) && fresh(q)
      invariant more ==> q.Valid() && q.lsb && t.Valid() && t.m == m && GifSpec.Sound(t.d)
      invariant more ==> GifDecode(q.Rest(), t.d, m, out.Length) == result
      invariant !more ==> t.Returned(result, r)
      decreases if more then |q.Rest()| + 1 else 0
    {
      more, r := Step(q, t, m, result);
    }
  }

  // Read one code and act on it.
  method Step(q: CodeReader, t: Decoder, m: nat, ghost result: GifOutcome) returns (more: bool, r: int)
    requires q.Valid() && q.lsb && t.Valid() && t.m == m && GifSpec.Sound(t.d)
    requires GifDecode(q.Rest(), t.d, m, t.output.Length) == result
    modifies q, t, t.output, t.prefix, t.suffix, t.firstByte, t.stack
    ensures more ==> q.Valid() && t.Valid() && GifSpec.Sound(t.d) && |q.Rest()| < |old(q.Rest())|
    ensures more ==> GifDecode(q.Rest(), t.d, m, t.output.Length) == result
    ensures !more ==> t.Returned(result, r)
  {
    hide GifDecode;
    hide Tables;
    hide Extended;
    hide GifString;
    hide CodeReader.Rest;
    hide Buffered;
    hide ValueLsb;
    hide Pow2;
    GifUnfold(q.Rest(), t.d, m, t.output.Length);
    more, r := true, 0;
    ghost var rest := q.Rest();
    var ok, code := q.Read(t.codeSize);
    if !ok {
      r := t.Finished();
      return false, r;
    }
    CodeBelow(rest[..t.codeSize]);
    if code == t.clearCode + 1 {
      r := t.Finished();
      return false, r;
    }
    if code == t.clearCode {
      t.Clear();
      return;
    }
    if code >= t.nextCode && (t.prevCode < 0 || code > t.nextCode) {
      return false, -4;
    }
    ghost var s := GifString(m, t.d, code);
    var first, sp := t.Unwind(code);
    if t.outP + sp > t.output.Length {
      t.Drain(sp, t.output.Length - t.outP, s);
      assert t.output[..t.output.Length] == t.output[..];
      return false, 0;
    }
    t.Accept(code, first, sp, s);
    TablesSound(t.prefix[..], t.suffix[..], t.firstByte[..], t.clearCode, t.d);
  }
}
