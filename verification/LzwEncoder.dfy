/** The TIFF LZW encoder: one table lookup per input byte, codes through a bit writer. */
module LzwEncoder {
  import opened Powers
  import opened Bits
  import opened LzwSpec
  import opened LzwTable
  import opened MsbWriters

  // (prefix << 8) | byte
  function Key(prefix: nat, b: byte): nat
  {
    prefix * 256 + b
  }

  // The table holds exactly the entries of the encoder's map.
  ghost predicate SameEntries(m: dict, t: map<nat, nat>)
  {
    (forall p: nat, b: byte :: (p, b) in m ==> p < MAX_CODES) &&
    (forall p: nat, b: byte :: p < MAX_CODES ==> ((p, b) in m <==> Key(p, b) in t)) &&
    (forall p: nat, b: byte :: (p, b) in m ==> m[(p, b)] == t[Key(p, b)])
  }

  lemma KeyInjective(p: nat, b: byte, q: nat, c: byte)
    requires Key(p, b) == Key(q, c)
    ensures p == q && b == c
  {
  }

  lemma SameAfterInsert(m: dict, t: map<nat, nat>, p: nat, b: byte, code: nat)
    requires SameEntries(m, t) && p < MAX_CODES
    ensures SameEntries(m[(p, b) := code], t[Key(p, b) := code])
  {
    forall q: nat, c: byte | Key(q, c) == Key(p, b)
      ensures q == p && c == b
    {
      KeyInjective(p, b, q, c);
    }
    hide Key;
  }

  lemma Entries(m: dict, t: map<nat, nat>, p: nat, b: byte)
    requires SameEntries(m, t) && p < MAX_CODES
    ensures (p, b) in m <==> Key(p, b) in t
    ensures (p, b) in m ==> m[(p, b)] == t[Key(p, b)]
  {
  }

  // What the map's codes may be: all below next, and next is the map's size past FIRST.
  ghost predicate MapBelow(m: dict, next: nat)
  {
    forall k :: k in m ==> m[k] < next
  }

  lemma BitsOfPrefix(done: seq<Code>, rest: seq<Code>, c: Code)
    requires rest != [] && rest[0] == c
    ensures |CodeBits(done)| + c.width <= |CodeBits(done + rest)|
    ensures CodeBits(done + [c]) == CodeBits(done) + Msb(c.code, c.width)
    ensures (done + [c]) + rest[1..] == done + rest
  {
    CodeBitsConcat(done, rest);
    CodeBitsConcat(done, [c]);
    assert [c][1..] == [];
    assert CodeBits([c]) == Msb(c.code, c.width) + [];
    assert [c] + rest[1..] == rest;
  }

  /** The writer and the codes written so far, as a prefix of those still to come. */
  ghost predicate Emitted(w: MsbWriter, done: seq<Code>, rest: seq<Code>, all: seq<Code>)
    reads w, w.out
  {
    w.Valid() && w.written == CodeBits(done) && done + rest == all
  }

  // Write the next code of the sequence.
  method Emit(w: MsbWriter, code: nat, width: nat, ghost done: seq<Code>, ghost rest: seq<Code>, ghost all: seq<Code>)
    returns (ok: bool)
    requires Emitted(w, done, rest, all) && rest != [] && rest[0] == Code(code, width)
    requires code < Pow2(width) && width <= 12
    modifies w, w.out
    ensures ok ==> Emitted(w, done + [Code(code, width)], rest[1..], all)
    ensures !ok ==> 8 * w.out.Length < |CodeBits(all)|
  {
    BitsOfPrefix(done, rest, Code(code, width));
    hide CodeBits;
    hide Msb;
    ok := w.Put(code, width);
  }

  // The encoder's variables before it reads byte i; td is the table's map.
  ghost predicate Data(x: text, i: nat, td: map<nat, nat>, m: dict, next: nat, width: nat, prefix: nat)
  {
    0 < i <= |x| && SameEntries(m, td) && MapBelow(m, next) && |td| == next - FIRST &&
    FIRST <= next <= RESET_CODE && prefix < next && width == WidthFor(next)
  }

  ghost predicate State(x: text, i: nat, t: CodeTable, m: dict, next: nat, width: nat, prefix: nat)
    reads t, t.tags, t.codes
  {
    t.Valid() && Data(x, i, t.dict, m, next, width, prefix)
  }

  lemma DataFacts(x: text, i: nat, td: map<nat, nat>, m: dict, next: nat, width: nat, prefix: nat)
    requires Data(x, i, td, m, next, width, prefix)
    ensures prefix < Pow2(width) && CLEAR < Pow2(width) && EOI < Pow2(width) && width <= 12
    ensures 0 < i <= |x| && prefix < MAX_CODES && |td| < HSIZE && next <= RESET_CODE
  {
    StateFacts(next, prefix);
  }

  lemma DataHit(x: text, i: nat, td: map<nat, nat>, m: dict, next: nat, width: nat, prefix: nat)
    requires Data(x, i, td, m, next, width, prefix) && i < |x|
    ensures (prefix, x[i]) in m <==> Key(prefix, x[i]) in td
    ensures Key(prefix, x[i]) < KEYS
    ensures (prefix, x[i]) in m ==>
              m[(prefix, x[i])] == td[Key(prefix, x[i])] &&
              Data(x, i + 1, td, m, next, width, m[(prefix, x[i])])
  {
    Entries(m, td, prefix, x[i]);
    KeyBound(prefix, x[i]);
    hide SameEntries;
    hide Key;
  }

  lemma DataExtended(x: text, i: nat, td: map<nat, nat>, m: dict, next: nat, width: nat, prefix: nat)
    requires Data(x, i, td, m, next, width, prefix) && i < |x| && next < RESET_CODE
    requires Key(prefix, x[i]) !in td
    ensures Data(x, i + 1, td[Key(prefix, x[i]) := next], m[(prefix, x[i]) := next],
                 next + 1, Widen(next + 1, width), x[i])
  {
    SameAfterInsert(m, td, prefix, x[i], next);
    StateFacts(next, prefix);
    hide SameEntries;
    hide Key;
    hide WidthFor;
    hide Widen;
  }

  lemma DataRestarted(x: text, i: nat)
    requires i < |x|
    ensures Data(x, i + 1, map[], map[], FIRST, INIT_WIDTH, x[i])
  {
  }

  lemma StateFacts(next: nat, prefix: nat)
    requires FIRST <= next <= RESET_CODE && prefix < next
    ensures prefix < Pow2(WidthFor(next)) && CLEAR < Pow2(WidthFor(next)) && EOI < Pow2(WidthFor(next))
    ensures WidthFor(next) <= 12 && Widen(next + 1, WidthFor(next)) == WidthFor(next + 1)
    ensures WidthFor(FIRST) == INIT_WIDTH
  {
    PowersUsed();
  }

  // A miss with room in the table: emit the pending string and add its extension.
  method Extend(x: text, i: nat, t: CodeTable, w: MsbWriter, next: nat, width: nat, prefix: nat, slot: nat,
                ghost j: nat, ghost m: dict, ghost done: seq<Code>, ghost all: seq<Code>)
    returns (ok: bool)
    requires State(x, i, t, m, next, width, prefix) && i < |x| && next < RESET_CODE
    requires Emitted(w, done, EncodeFrom(x, i, m, next, width, prefix), all)
    requires Key(prefix, x[i]) !in t.dict && j < HSIZE && slot == At(Home(Key(prefix, x[i])), j)
    requires Reached(t.tags[..], t.epoch, Key(prefix, x[i]), j) && !LiveSlot(t.tags[..], t.epoch, slot)
    requires w.out != t.tags as object && w.out != t.codes as object
    modifies t, t.tags, t.codes, w, w.out
    ensures ok ==> State(x, i + 1, t, m[(prefix, x[i]) := next], next + 1, Widen(next + 1, width), x[i])
    ensures ok ==> Emitted(w, done + [Code(prefix, width)],
                           EncodeFrom(x, i + 1, m[(prefix, x[i]) := next], next + 1, Widen(next + 1, width), x[i]), all)
    ensures !ok ==> 8 * w.out.Length < |CodeBits(all)|
  {
    DataFacts(x, i, t.dict, m, next, width, prefix);
    DataHit(x, i, t.dict, m, next, width, prefix);
    DataExtended(x, i, t.dict, m, next, width, prefix);
    EncodeFromUnfold(x, i, m, next, width, prefix);
    hide Data;
    hide Key;
    hide Refines;
    hide EncodeFrom;
    hide CodeBits;
    hide Reached;
    hide LiveSlot;
    hide Home;
    hide At;
    hide Emitted;
    hide Widen;
    hide Pow2;
    ok := Emit(w, prefix, width, done, EncodeFrom(x, i, m, next, width, prefix), all);
    if ok {
      t.Insert(Key(prefix, x[i]), slot, next, j);
    }
  }

  lemma KeyBound(prefix: nat, b: byte)
    requires prefix < MAX_CODES
    ensures Key(prefix, b) < KEYS
  {
  }

  // A miss with a full table: emit the pending string and a CLEAR, and start over.
  method Restart(x: text, i: nat, t: CodeTable, w: MsbWriter, next: nat, width: nat, prefix: nat, ghost m: dict,
                 ghost done: seq<Code>, ghost all: seq<Code>)
    returns (ok: bool)
    requires State(x, i, t, m, next, width, prefix) && i < |x| && next == RESET_CODE
    requires Emitted(w, done, EncodeFrom(x, i, m, next, width, prefix), all) && (prefix, x[i]) !in m
    requires w.out != t.tags as object && w.out != t.codes as object
    modifies t, t.tags, t.codes, w, w.out
    ensures ok ==> State(x, i + 1, t, map[], FIRST, INIT_WIDTH, x[i])
    ensures ok ==> Emitted(w, done + [Code(prefix, width)] + [Code(CLEAR, width)],
                           EncodeFrom(x, i + 1, map[], FIRST, INIT_WIDTH, x[i]), all)
    ensures !ok ==> 8 * w.out.Length < |CodeBits(all)|
  {
    DataFacts(x, i, t.dict, m, next, width, prefix);
    DataRestarted(x, i);
    EncodeFromUnfold(x, i, m, next, width, prefix);
    ghost var rest := EncodeFrom(x, i, m, next, width, prefix);
    hide Data;
    hide Key;
    hide Refines;
    hide EncodeFrom;
    hide CodeBits;
    hide Reached;
    hide LiveSlot;
    hide Home;
    hide At;
    hide Emitted;
    hide Widen;
    hide Pow2;
    ok := Emit(w, prefix, width, done, rest, all);
    if ok {
      ok := Emit(w, CLEAR, width, done + [Code(prefix, width)], rest[1..], all);
      if ok {
        t.Clear();
      }
    }
  }

  // Encode x into out: the number of bytes written, or -2 when they do not fit.
  method TiffEncode(x: text, out: array<byte>) returns (r: int)
    modifies out
    ensures r == -2 || 0 <= r <= out.Length
    ensures r == -2 <==> 8 * out.Length < |CodeBits(Encode(x))|
    ensures r >= 0 ==> Packs(out[..r], CodeBits(Encode(x)))
  {
    ghost var all := Encode(x);
    var t := new CodeTable();
    var w := new MsbWriter(out);
    ghost var done: seq<Code> := [];
    assert done + all == all;
    StateFacts(FIRST, 0);
    var ok := Emit(w, CLEAR, INIT_WIDTH, done, all, all);
    if !ok {
      return -2;
    }
    done := [Code(CLEAR, INIT_WIDTH)];
    var width := INIT_WIDTH;
    if |x| > 0 {
      ok, width, done := EncodeData(x, t, w, all);
      if !ok {
        return -2;
      }
    }
    r := Finish(w, width, done, all);
  }

  // The end code and the partial byte.
  method Finish(w: MsbWriter, width: nat, ghost done: seq<Code>, ghost all: seq<Code>) returns (r: int)
    requires Emitted(w, done, [Code(EOI, width)], all) && EOI < Pow2(width) && width <= 12
    modifies w, w.out
    ensures r == -2 || 0 <= r <= w.out.Length
    ensures r == -2 <==> 8 * w.out.Length < |CodeBits(all)|
    ensures r >= 0 ==> Packs(w.out[..r], CodeBits(all))
  {
    var ok := Emit(w, EOI, width, done, [Code(EOI, width)], all);
    if !ok {
      return -2;
    }
    assert w.written == CodeBits(all) by {
      assert done + [Code(EOI, width)] + [] == all;
    }
    ok := w.Flush();
    if !ok {
      return -2;
    }
    r := w.op;
  }

  // The codes of all data bytes; the last string is emitted at the end.
  method EncodeData(x: text, t: CodeTable, w: MsbWriter, ghost all: seq<Code>)
    returns (ok: bool, width: nat, ghost done: seq<Code>)
    requires |x| > 0 && all == Encode(x) && t.Valid() && t.dict == map[]
    requires Emitted(w, [Code(CLEAR, INIT_WIDTH)], all[1..], all)
    requires w.out != t.tags as object && w.out != t.codes as object
    modifies t, t.tags, t.codes, w, w.out
    ensures ok ==> Emitted(w, done, [Code(EOI, width)], all) && EOI < Pow2(width) && width <= 12
    ensures !ok ==> 8 * w.out.Length < |CodeBits(all)|
  {
    var prefix: nat := x[0];
    var next: nat := FIRST;
    width := INIT_WIDTH;
    done := [Code(CLEAR, INIT_WIDTH)];
    ghost var m: dict := map[];
    var i: nat := 1;
    assert State(x, i, t, m, next, width, prefix);
    assert all[1..] == EncodeFrom(x, 1, m, next, width, prefix);
    hide State;
    hide Emitted;
    hide EncodeFrom;
    hide Encode;
    hide CodeBits;
    while i < |x|
      invariant 0 < i <= |x| && State(x, i, t, m, next, width, prefix)
      invariant Emitted(w, done, EncodeFrom(x, i, m, next, width, prefix), all)
    {
      ok, next, width, prefix, m, done := EncodeByte(x, i, t, w, next, width, prefix, m, done, all);
      if !ok {
        return;
      }
      i := i + 1;
    }
    ok := EmitLast(x, t, w, next, width, prefix, m, done, all);
    done := done + [Code(prefix, width)];
  }

  method EmitLast(x: text, ghost t: CodeTable, w: MsbWriter, ghost next: nat, width: nat, prefix: nat, ghost m: dict,
                  ghost done: seq<Code>, ghost all: seq<Code>)
    returns (ok: bool)
    requires |x| > 0 && State(x, |x|, t, m, next, width, prefix)
    requires Emitted(w, done, EncodeFrom(x, |x|, m, next, width, prefix), all)
    modifies w, w.out
    ensures ok ==> Emitted(w, done + [Code(prefix, width)], [Code(EOI, width)], all)
    ensures EOI < Pow2(width) && width <= 12
    ensures !ok ==> 8 * w.out.Length < |CodeBits(all)|
  {
    DataFacts(x, |x|, t.dict, m, next, width, prefix);
    EncodeFromUnfold(x, |x|, m, next, width, prefix);
    hide Data;
    hide EncodeFrom;
    hide CodeBits;
    hide Emitted;
    hide Pow2;
    ok := Emit(w, prefix, width, done, EncodeFrom(x, |x|, m, next, width, prefix), all);
  }

  // One byte: extend the pending string when the table knows it, else emit its code.
  method EncodeByte(x: text, i: nat, t: CodeTable, w: MsbWriter, next: nat, width: nat, prefix: nat, ghost m: dict,
                    ghost done: seq<Code>, ghost all: seq<Code>)
    returns (ok: bool, next': nat, width': nat, prefix': nat, ghost m': dict, ghost done': seq<Code>)
    requires State(x, i, t, m, next, width, prefix) && i < |x|
    requires Emitted(w, done, EncodeFrom(x, i, m, next, width, prefix), all)
    requires w.out != t.tags as object && w.out != t.codes as object
    modifies t, t.tags, t.codes, w, w.out
    ensures ok ==> State(x, i + 1, t, m', next', width', prefix')
    ensures ok ==> Emitted(w, done', EncodeFrom(x, i + 1, m', next', width', prefix'), all)
    ensures !ok ==> 8 * w.out.Length < |CodeBits(all)|
  {
    ok, next', width', m', done' := true, next, width, m, done;
    DataFacts(x, i, t.dict, m, next, width, prefix);
    DataHit(x, i, t.dict, m, next, width, prefix);
    EncodeFromUnfold(x, i, m, next, width, prefix);
    var key := Key(prefix, x[i]);
    hide Data;
    hide Key;
    hide Refines;
    hide EncodeFrom;
    hide CodeBits;
    hide Reached;
    hide LiveSlot;
    hide Home;
    hide At;
    hide Emitted;
    hide Widen;
    hide Pow2;
    var found, slot, j := t.Lookup(key);
    if found {
      prefix' := t.codes[slot];
    } else if next < RESET_CODE {
      ok := Extend(x, i, t, w, next, width, prefix, slot, j, m, done, all);
      next', width', prefix' := next + 1, Widen(next + 1, width), x[i];
      m', done' := m[(prefix, x[i]) := next], done + [Code(prefix, width)];
    } else {
      ok := Restart(x, i, t, w, next, width, prefix, m, done, all);
      next', width', prefix' := FIRST, INIT_WIDTH, x[i];
      m', done' := map[], done + [Code(prefix, width)] + [Code(CLEAR, width)];
    }
  }
}
