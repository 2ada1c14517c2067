/** The PLIO encoder and decoder loops, and when a line survives the two. */
module Plio {
  import opened Grids
  import opened Powers
  import opened PlioSpec

  // ---- encoder ----

  method PutZeros(ws: seq<int>, nz0: int) returns (w: seq<int>)
    ensures w == ws + ZeroWords(nz0)
  {
    w := ws;
    var nz := nz0;
    while nz > 0
      invariant w + ZeroWords(nz) == ws + ZeroWords(nz0)
    {
      Regroup(w, [Least(CHUNK, nz)], ZeroWords(nz - CHUNK));
      w := w + [Least(CHUNK, nz)];
      nz := nz - CHUNK;
    }
    assert w + [] == w;
  }

  method PutValues(ws: seq<int>, np0: int) returns (w: seq<int>)
    ensures w == ws + ValueWords(np0)
  {
    w := ws;
    var np := np0;
    while np > 0
      invariant w + ValueWords(np) == ws + ValueWords(np0)
    {
      Regroup(w, [Least(CHUNK, np) + 16384], ValueWords(np - CHUNK));
      w := w + [Least(CHUNK, np) + 16384];
      np := np - CHUNK;
    }
    assert w + [] == w;
  }

  // The last word of a run of zeros takes the pixel behind it.
  lemma {:induction false} LastZeros(nz: int)
    requires nz > 0
    ensures ZeroWords(nz) != []
    ensures var z := ZeroWords(nz); ZerosAndOne(nz) == z[..|z| - 1] + [z[|z| - 1] + 20481]
    decreases nz
  {
    if nz > CHUNK {
      LastZeros(nz - CHUNK);
      var z := ZeroWords(nz - CHUNK);
      assert ZeroWords(nz) == [CHUNK] + z;
      assert ([CHUNK] + z)[..|z|] == [CHUNK] + z[..|z| - 1];
    } else {
      assert ZeroWords(nz - CHUNK) == [];
    }
  }

  lemma Amended(ws: seq<int>, z: seq<int>, x: int)
    requires z != []
    ensures var w := ws + z; w[|w| - 1 := w[|w| - 1] + x] == ws + (z[..|z| - 1] + [z[|z| - 1] + x])
  {
  }

  // The change of value, if any; done means that the same word also stands for the only pixel.
  method PutChange(ws: seq<int>, nz: nat, v: nat, np: nat, hi: nat) returns (w: seq<int>, done: bool)
    requires v > 0 && np > 0
    ensures done == (np == 1 && nz == 0 && |ChangeWords(v, hi)| == 1)
    ensures w == ws + if done then [ChangeWords(v, hi)[0] + 16384] else ChangeWords(v, hi)
  {
    w, done := ws, false;
    var dv := v - hi;
    if dv != 0 {
      if dv > CHUNK || -dv > CHUNK {
        w := w + [v % 4096 + 4096];
        w := w + [v / 4096];
        assert w == ws + [v % 4096 + 4096, v / 4096];
      } else {
        if dv < 0 {
          w := w + [-dv + 12288];
        } else {
          w := w + [dv + 8192];
        }
        if np == 1 && nz == 0 {
          Amended(ws, ChangeWords(v, hi), 16384);
          w := w[|w| - 1 := w[|w| - 1] + 16384];
          done := true;
        }
      }
    } else {
      assert ws + [] == ws;
    }
  }

  // One segment.
  method PutSegment(ws: seq<int>, nz: nat, v: nat, np: nat, hi: nat) returns (w: seq<int>)
    requires v > 0 && np > 0
    ensures w == ws + SegmentWords(nz, v, np, hi)
  {
    hide ZeroWords;
    hide ValueWords;
    hide ChangeWords;
    hide ZerosAndOne;
    var done;
    w, done := PutChange(ws, nz, v, np, hi);
    if done {
      return;
    }
    ghost var c, before := ChangeWords(v, hi), w;
    w := PutZeros(w, nz);
    if nz > 0 && np == 1 {
      LastZeros(nz);
      Amended(before, ZeroWords(nz), 20481);
      Regroup(ws, c, ZerosAndOne(nz));
      w := w[|w| - 1 := w[|w| - 1] + 20481];
      return;
    }
    w := PutValues(w, np);
    Regroup(before, ZeroWords(nz), ValueWords(np));
    Regroup(ws, c, ZeroWords(nz) + ValueWords(np));
  }

  // Zeros from iz to x1 and the value pv from x1 to ip; or zeros only, so far.
  ghost predicate InSegment(p: seq<nat>, iz: nat, x1: nat, ip: nat, pv: nat)
  {
    iz <= x1 <= ip < |p| && p[ip] == pv &&
    (forall j :: iz <= j < x1 ==> p[j] == 0) && (forall j :: x1 <= j <= ip ==> p[j] == pv) && (pv == 0 ==> x1 == iz)
  }

  // The run that ends at ip, seen from where it starts.
  lemma RunIn(p: seq<nat>, a: nat, b: nat, v: nat)
    requires a <= b <= |p| && (forall j :: a <= j < b ==> p[j] == v) && (b < |p| ==> p[b] != v)
    ensures RunOf(p[a..], v) == b - a
  {
    RunIs(p[a..], v, b - a);
  }

  lemma RunIs(q: seq<nat>, v: nat, n: nat)
    requires n <= |q| && (forall j :: 0 <= j < n ==> q[j] == v) && (n < |q| ==> q[n] != v)
    ensures RunOf(q, v) == n
  {
  }

  lemma SegmentEnds(p: seq<nat>, iz: nat, x1: nat, ip: nat, pv: nat, hi: int)
    requires InSegment(p, iz, x1, ip, pv) && (ip + 1 < |p| ==> p[ip + 1] != pv) && pv > 0
    ensures Words(p[iz..], hi) == SegmentWords(x1 - iz, pv, ip - x1 + 1, hi) + Words(p[ip + 1..], pv)
  {
    hide Words;
    hide SegmentWords;
    hide RunOf;
    var q := p[iz..];
    RunIn(p, iz, x1, 0);
    RunIn(p, x1, ip + 1, pv);
    assert q[x1 - iz..] == p[x1..] && q[x1 - iz] == pv;
    WordsStep(q, hi);
    assert q[ip + 1 - iz..] == p[ip + 1..];
  }

  lemma ZerosEnd(p: seq<nat>, iz: nat, hi: int)
    requires iz < |p| && forall j :: iz <= j < |p| ==> p[j] == 0
    ensures Words(p[iz..], hi) == ZeroWords(|p| - iz)
  {
    RunIn(p, iz, |p|, 0);
  }

  lemma SegmentGrows(p: seq<nat>, iz: nat, x1: nat, ip: nat, pv: nat)
    requires InSegment(p, iz, x1, ip, pv) && ip + 1 < |p|
    ensures p[ip + 1] == pv ==> InSegment(p, iz, x1, ip + 1, pv)
    ensures p[ip + 1] != 0 && pv == 0 ==> InSegment(p, iz, ip + 1, ip + 1, p[ip + 1])
    ensures InSegment(p, ip + 1, ip + 1, ip + 1, p[ip + 1])
  {
  }

  // The end of a run: write the segment.
  method Emit(w0: seq<int>, ghost p: seq<nat>, iz: nat, x1: nat, ip: nat, n: nat, pv: nat, hi: nat,
              ghost total: seq<int>)
    returns (w: seq<int>, hi': nat)
    requires InSegment(p, iz, x1, ip, pv) && n == |p| && (ip + 1 < n ==> p[ip + 1] != pv && pv > 0)
    requires WrittenTo(w0, p, iz, hi, total)
    ensures WrittenTo(w, p, ip + 1, hi', total)
  {
    hide Words;
    hide SegmentWords;
    hide ZeroWords;
    if pv > 0 {
      SegmentEnds(p, iz, x1, ip, pv, hi);
      Regroup(w0, SegmentWords(x1 - iz, pv, ip - x1 + 1, hi), Words(p[ip + 1..], pv));
      w := PutSegment(w0, x1 - iz, pv, ip - x1 + 1, hi);
      hi' := pv;
    } else {
      ZerosEnd(p, iz, hi);
      w := PutZeros(w0, n - iz);
      LastIsEmpty(p, w, hi);
      hi' := hi;
    }
  }

  function HeaderWords(n: nat): (h: seq<int>)
    ensures |h| == 7
  {
    [0, 7, -100, n % 32768, n / 32768, 0, 0]
  }

  ghost predicate WrittenTo(w: seq<int>, p: seq<nat>, iz: nat, hi: int, total: seq<int>)
  {
    iz <= |p| && w + Words(p[iz..], hi) == total
  }

  // The instructions of all segments.
  method PutSegments(px: array<int>) returns (w: seq<int>)
    requires px.Length > 0
    ensures w == Words(Clamped(px[..]), 1)
  {
    hide Words;
    hide WrittenTo;
    hide InSegment;
    hide Clamped;
    ghost var p := Clamped(px[..]);
    ClampedIs(px);
    var n := px.Length;
    w := [];
    var pv: nat := if px[0] < 0 then 0 else px[0];
    var nv: nat, x1: nat, iz: nat, hi: nat := 0, 0, 0, 1;
    ghost var total := Words(p, 1);
    FirstSegment(p);
    for ip := 0 to n
      invariant WrittenTo(w, p, iz, hi, total)
      invariant if ip < n then InSegment(p, iz, x1, ip, pv) else iz == n
    {
      if ip < n - 1 {
        nv := if px[ip + 1] < 0 then 0 else px[ip + 1];
        SegmentGrows(p, iz, x1, ip, pv);
        if nv == pv {
          continue;
        }
        if pv == 0 {
          pv, x1 := nv, ip + 1;
          continue;
        }
      }
      w, hi := Emit(w, p, iz, x1, ip, n, pv, hi, total);
      x1 := ip + 1;
      iz := x1;
      pv := nv;
    }
    AllWritten(w, p, hi, total);
  }

  // The line list of px; an empty line has none.
  method P2li(px: array<int>) returns (ll: seq<int>)
    ensures px.Length == 0 ==> ll == []
    ensures px.Length > 0 ==> var w := Words(Clamped(px[..]), 1); ll == HeaderWords(7 + |w|) + w
  {
    hide Words;
    hide Clamped;
    if px.Length <= 0 {
      return [];
    }
    var w := PutSegments(px);
    ll := HeaderWords(7 + |w|) + w;
  }

  lemma ClampedIs(px: array<int>)
    ensures forall i :: 0 <= i < px.Length ==> Clamped(px[..])[i] == if px[i] < 0 then 0 else px[i]
  {
  }

  lemma FirstSegment(p: seq<nat>)
    requires p != []
    ensures InSegment(p, 0, 0, 0, p[0]) && WrittenTo([], p, 0, 1, Words(p, 1))
  {
    hide Words;
    assert p[0..] == p;
    assert [] + Words(p, 1) == Words(p, 1);
  }

  lemma AllWritten(w: seq<int>, p: seq<nat>, hi: int, total: seq<int>)
    requires WrittenTo(w, p, |p|, hi, total)
    ensures w == total
  {
    LastIsEmpty(p, w, hi);
  }

  lemma LastIsEmpty(p: seq<nat>, w: seq<int>, hi: int)
    ensures w + Words(p[|p|..], hi) == w
  {
  }

  // ---- decoder ----

  // The instructions from the word with index ip, counted from one, on.
  function From(ll: seq<int>, ip: int): seq<int>
  {
    if 1 <= ip <= |ll| then ll[ip - 1..] else []
  }

  // All header words are there that the decoder looks at: the third, and unless it is positive the first five.
  predicate HasHeader(ll: seq<int>)
  {
    |ll| >= 3 && (ll[2] <= 0 ==> |ll| >= 5)
  }

  // The header says how many words there are and where the instructions begin, in either of two formats.
  function ListLength(ll: seq<int>): int
    requires HasHeader(ll)
  {
    if ll[2] > 0 then ll[2] else ll[4] * 32768 + ll[3]
  }

  function FirstWord(ll: seq<int>): int
    requires HasHeader(ll)
  {
    if ll[2] > 0 then 4 else ll[1] + 1
  }

  // What a list that is not empty decodes to.
  function Decoded(ll: seq<int>, npix: nat): Pixels
    requires HasHeader(ll) && ListLength(ll) > 0
  {
    var first := FirstWord(ll);
    if first < 1 && npix > 0 && first <= ListLength(ll) then OutOfWords else
    Interpret(From(ll, first), ListLength(ll) - first + 1, 1, npix)
  }

  // The pixels so far, in front of what the instructions from ip on do, are the whole line.
  ghost predicate Decoding(whole: Pixels, ll: seq<int>, ip: int, len: int, pv: int, px: seq<int>, op: nat)
  {
    op <= |px| && ip >= 1 && whole == Prepend(px[..op], Interpret(From(ll, ip), len - ip + 1, pv, |px| - op))
  }

  lemma FromNext(ll: seq<int>, ip: int)
    requires 1 <= ip <= |ll|
    ensures From(ll, ip) != [] && From(ll, ip)[0] == ll[ip - 1] && From(ll, ip)[1..] == From(ll, ip + 1)
    ensures (|From(ll, ip)| < 2) == (ip + 1 > |ll|)
    ensures ip + 1 <= |ll| ==> From(ll, ip)[1] == ll[ip] && From(ll, ip)[2..] == From(ll, ip + 2)
  {
  }

  // Store n values from op on.
  method Fill(px: array<int>, op: nat, n: nat, v: int)
    requires op + n <= px.Length
    modifies px
    ensures px[..] == old(px[..op]) + Copies(n, v) + old(px[op + n..])
  {
    for i := op to op + n
      invariant forall x :: 0 <= x < px.Length ==> px[x] == if op <= x < i then v else old(px[x])
    {
      px[i] := v;
    }
  }

  lemma StepRun(whole: Pixels, ll: seq<int>, ip: int, len: int, pv: int, px: seq<int>, op: nat, pv': int,
                drawn: seq<int>, px': seq<int>)
    requires Decoding(whole, ll, ip, len, pv, px, op) && op < |px| && ip <= len && ip <= |ll|
    requires |px'| == |px| && op + |drawn| <= |px| && From(ll, ip) != []
    requires Interpret(From(ll, ip), len - ip + 1, pv, |px| - op) ==
             Prepend(drawn, Interpret(From(ll, ip)[1..], len - ip, pv', |px| - op - |drawn|))
    requires px'[..op + |drawn|] == px[..op] + drawn
    ensures Decoding(whole, ll, ip + 1, len, pv', px', op + |drawn|)
  {
    hide Interpret;
    FromNext(ll, ip);
    PrependTwice(px[..op], drawn, Interpret(From(ll, ip + 1), len - ip, pv', |px| - op - |drawn|));
  }

  // Opcodes 0, 4 and 5: a run of data pixels, the part of it that fits.
  method DrawRun(px: array<int>, op: nat, opcode: int, data: nat, pv: int) returns (op': nat, ghost drawn: seq<int>)
    requires op < px.Length && (opcode == 0 || opcode == 4 || opcode == 5) && 0 <= data
    modifies px
    ensures var n := if data < px.Length - op then data else px.Length - op;
            |drawn| == n && op' == op + n && px[..op'] == old(px[..op]) + drawn &&
            drawn == if opcode == 0 then Copies(n, 0) else if opcode == 4 then Copies(n, pv) else ZerosThen(data, n, pv)
  {
    var np := if data < px.Length - op then data else px.Length - op;
    drawn := if opcode == 4 then Copies(np, pv) else Copies(np, 0);
    op' := op;
    if np > 0 {
      if opcode == 4 {
        Fill(px, op, np, pv);
      } else {
        Fill(px, op, np, 0);
        if opcode == 5 && np == data {
          px[op + np - 1] := pv;
          drawn := Copies(np - 1, 0) + [pv];
        }
      }
      op' := op + np;
    }
  }

  // One instruction; skip means that it took the next word too.
  method Instruction(ll: seq<int>, ip: int, len: int, px: array<int>, op: nat, pv: int, ghost whole: Pixels)
    returns (ok: bool, op': nat, pv': int, skip: bool)
    requires 1 <= ip <= |ll| && ip <= len && op < px.Length && Decoding(whole, ll, ip, len, pv, px[..], op)
    modifies px
    ensures ok ==> op' <= px.Length && Decoding(whole, ll, if skip then ip + 2 else ip + 1, len, pv', px[..], op')
    ensures !ok ==> whole == OutOfWords
  {
    hide Decoding;
    hide Interpret;
    hide From;
    hide Copies;
    hide ZerosThen;
    hide Prepend;
    hide Opcode;
    hide Data;
    ghost var was, room := px[..], px.Length - op;
    var opcode, data := Opcode(ll[ip - 1]), Data(ll[ip - 1]);
    FromNext(ll, ip);
    ghost var ws := From(ll, ip);
    ok, op', pv', skip := true, op, pv, false;
    if opcode == 0 || opcode == 4 || opcode == 5 {
      RunDoes(ws, len - ip + 1, pv, room);
      ghost var drawn;
      op', drawn := DrawRun(px, op, opcode, data, pv);
      StepRun(whole, ll, ip, len, pv, was, op, pv, drawn, px[..]);
    } else if opcode == 1 {
      SetDoes(ws, len - ip + 1, pv, room);
      if ip + 1 > |ll| {
        WholeFails(whole, ll, ip, len, pv, was, op);
        ok := false;
        return;
      }
      pv' := ll[ip] * 4096 + data;
      skip := true;
      StepTwo(whole, ll, ip, len, pv, was, op, pv');
    } else {
      MoveDoes(ws, len - ip + 1, pv, room);
      if opcode == 2 || opcode == 6 {
        pv' := pv + data;
      } else if opcode == 3 || opcode == 7 {
        pv' := pv - data;
      }
      ghost var drawn: seq<int> := [];
      if opcode == 6 || opcode == 7 {
        px[op] := pv';
        op' := op + 1;
        drawn := [pv'];
      }
      StepRun(whole, ll, ip, len, pv, was, op, pv', drawn, px[..]);
    }
  }

  lemma RunDoes(ws: seq<int>, left: int, pv: int, room: nat)
    requires ws != [] && left > 0 && room > 0
    ensures var data := Data(ws[0]);
            var n := if data < room then data else room;
            (Opcode(ws[0]) == 0 ==>
              Interpret(ws, left, pv, room) == Prepend(Copies(n, 0), Interpret(ws[1..], left - 1, pv, room - n))) &&
            (Opcode(ws[0]) == 4 ==>
              Interpret(ws, left, pv, room) == Prepend(Copies(n, pv), Interpret(ws[1..], left - 1, pv, room - n))) &&
            (Opcode(ws[0]) == 5 ==>
              Interpret(ws, left, pv, room) ==
                Prepend(ZerosThen(data, n, pv), Interpret(ws[1..], left - 1, pv, room - n)))
  {
    hide Opcode;
    hide Data;
    hide Prepend;
    hide Copies;
    hide ZerosThen;
  }

  lemma SetDoes(ws: seq<int>, left: int, pv: int, room: nat)
    requires ws != [] && left > 0 && room > 0 && Opcode(ws[0]) == 1
    ensures Interpret(ws, left, pv, room) ==
            if |ws| < 2 then OutOfWords else Interpret(ws[2..], left - 2, ws[1] * 4096 + Data(ws[0]), room)
  {
    hide Opcode;
    hide Data;
  }

  lemma MoveDoes(ws: seq<int>, left: int, pv: int, room: nat)
    requires ws != [] && left > 0 && room > 0 && Opcode(ws[0]) !in {0, 1, 4, 5}
    ensures var code, data := Opcode(ws[0]), Data(ws[0]);
            var next := if code == 2 || code == 6 then pv + data else if code == 3 || code == 7 then pv - data else pv;
            var drawn := if code == 6 || code == 7 then [next] else [];
            Interpret(ws, left, pv, room) == Prepend(drawn, Interpret(ws[1..], left - 1, next, room - |drawn|))
  {
    hide Opcode;
    hide Data;
    var code, data := Opcode(ws[0]), Data(ws[0]);
    var next := if code == 2 || code == 6 then pv + data else if code == 3 || code == 7 then pv - data else pv;
    NonePrepended(Interpret(ws[1..], left - 1, next, room));
    hide Prepend;
  }

  lemma NonePrepended(r: Pixels)
    ensures Prepend([], r) == r
  {
    if r.Pixels? {
      assert [] + r.line == r.line;
    }
  }

  lemma WholeFails(whole: Pixels, ll: seq<int>, ip: int, len: int, pv: int, px: seq<int>, op: nat)
    requires Decoding(whole, ll, ip, len, pv, px, op) &&
             Interpret(From(ll, ip), len - ip + 1, pv, |px| - op) == OutOfWords
    ensures whole == OutOfWords
  {
    hide Interpret;
  }

  lemma StepTwo(whole: Pixels, ll: seq<int>, ip: int, len: int, pv: int, px: seq<int>, op: nat, pv': int)
    requires Decoding(whole, ll, ip, len, pv, px, op) && ip + 1 <= |ll|
    requires Interpret(From(ll, ip), len - ip + 1, pv, |px| - op) ==
             Interpret(From(ll, ip)[2..], len - ip - 1, pv', |px| - op)
    ensures Decoding(whole, ll, ip + 2, len, pv', px, op)
  {
    hide Interpret;
    FromNext(ll, ip);
  }

  lemma StartsDecoding(ll: seq<int>, ip: int, len: int, pv: int, px: seq<int>)
    requires ip >= 1
    ensures Decoding(Interpret(From(ll, ip), len - ip + 1, pv, |px|), ll, ip, len, pv, px, 0)
  {
    hide Interpret;
    NonePrepended(Interpret(From(ll, ip), len - ip + 1, pv, |px|));
  }

  lemma EndsDecoding(whole: Pixels, ll: seq<int>, ip: int, len: int, pv: int, px: seq<int>, op: nat)
    requires Decoding(whole, ll, ip, len, pv, px, op) && (op == |px| || ip > len)
    ensures whole == Pixels(px[..op] + Copies(|px| - op, 0))
  {
  }

  lemma OutOfReach(whole: Pixels, ll: seq<int>, ip: int, len: int, pv: int, px: seq<int>, op: nat)
    requires Decoding(whole, ll, ip, len, pv, px, op) && op < |px| && ip <= len && ip > |ll|
    ensures whole == OutOfWords
  {
  }

  // Translate a line list into as many pixels as px has. Returns their number, 0 if the list is empty, or -1 if it
  // refers to words it does not have.
  method L2pi(ll: seq<int>, px: array<int>) returns (ret: int)
    requires HasHeader(ll)
    modifies px
    ensures px.Length == 0 || ListLength(ll) <= 0 ==> ret == 0 && px[..] == old(px[..])
    ensures px.Length > 0 && ListLength(ll) > 0 ==>
      var d := Decoded(ll, px.Length);
      ret == (if d.Pixels? then px.Length else -1) && (d.Pixels? ==> d == Pixels(px[..]))
  {
    hide Interpret;
    hide Decoding;
    hide From;
    var len, first;
    if ll[2] > 0 {
      len, first := ll[2], 4;
    } else {
      len, first := ll[4] * 32768 + ll[3], ll[1] + 1;
    }
    if px.Length <= 0 || len <= 0 {
      return 0;
    }
    if first < 1 {
      return -1;
    }
    ghost var whole := Interpret(From(ll, first), len - first + 1, 1, px.Length);
    StartsDecoding(ll, first, len, 1, px[..]);
    var op: nat, pv: int, skip, ip := 0, 1, false, first;
    while ip <= len && op < px.Length
      invariant ip >= 1 && op <= px.Length && Decoding(whole, ll, if skip then ip + 1 else ip, len, pv, px[..], op)
      decreases len - ip
    {
      if skip {
        skip := false;
      } else {
        if ip > |ll| {
          OutOfReach(whole, ll, ip, len, pv, px[..], op);
          return -1;
        }
        var fine;
        fine, op, pv, skip := Instruction(ll, ip, len, px, op, pv, whole);
        if !fine {
          return -1;
        }
      }
      ip := ip + 1;
    }
    EndsDecoding(whole, ll, if skip then ip + 1 else ip, len, pv, px[..], op);
    Fill(px, op, px.Length - op, 0);
    ret := px.Length;
  }

  // ---- when a line comes back ----

  // The header is read as it was written.
  lemma HeaderRead(w: seq<int>)
    ensures var ll := HeaderWords(7 + |w|) + w;
            ListLength(ll) == |ll| && FirstWord(ll) == 8 && From(ll, 8) == w
  {
    var n := 7 + |w|;
    assert n == n / 32768 * 32768 + n % 32768;
  }

  // In the old format the third word is the length of the list, and three header words are all there are.
  lemma OldFormat(x: int, y: int, w: seq<int>, npix: nat)
    requires w != []
    ensures var ll := [x, y, 3 + |w|] + w;
            ListLength(ll) > 0 && Decoded(ll, npix) == Interpret(w, |w|, 1, npix)
  {
    hide Interpret;
    var ll := [x, y, 3 + |w|] + w;
    assert From(ll, 4) == w;
  }

  // In the new one the second word is the number of header words, and the fourth and fifth the length.
  lemma NewFormat(h: seq<int>, w: seq<int>, npix: nat)
    requires |h| >= 5 && h[1] == |h| && h[2] <= 0 && h[3] + 32768 * h[4] == |h| + |w| && w != []
    ensures ListLength(h + w) > 0 && Decoded(h + w, npix) == Interpret(w, |w|, 1, npix)
  {
    hide Interpret;
    assert From(h + w, |h| + 1) == w;
  }

  // Decoding an encoded line gives the line, with negative pixels as zeros, if and only if no pixel that differs
  // from its right neighbour follows a maximal run of zeros of a length that is a multiple of 4095.
  lemma LineRoundTrip(p: seq<int>)
    requires p != []
    ensures var w := Words(Clamped(p), 1);
            var ll := HeaderWords(7 + |w|) + w;
            ListLength(ll) > 0 &&
            (Decoded(ll, |p|) == Pixels(Clamped(p))) == !exists i: nat, z: nat :: Isolated(Clamped(p), i, z)
  {
    hide Interpret;
    hide Words;
    hide Isolated;
    hide Misread;
    hide From;
    hide HeaderWords;
    var w := Words(Clamped(p), 1);
    HeaderRead(w);
    WordsYield(Clamped(p), 1);
    MisreadIsIsolated(Clamped(p));
  }

  // The shortest line that does not come back: 4095 zeros and a one.
  lemma Counterexample()
    ensures var p := Copies(CHUNK, 0) + [1];
            var w := Words(Clamped(p), 1);
            var ll := HeaderWords(7 + |w|) + w;
            ListLength(ll) > 0 && Decoded(ll, |p|) != Pixels(Clamped(p))
  {
    hide Decoded;
    hide Words;
    hide HeaderWords;
    hide ListLength;
    var p := Copies(CHUNK, 0) + [1];
    LineRoundTrip(p);
    assert Isolated(Clamped(p), CHUNK, CHUNK);
  }

  // Encode and decode a line.
  method RoundTrip(px: array<int>) returns (ll: seq<int>, ret: int, back: array<int>)
    requires px.Length > 0
    ensures var w := Words(Clamped(px[..]), 1); ll == HeaderWords(7 + |w|) + w
    ensures back.Length == px.Length
    ensures (ret == px.Length && back[..] == Clamped(px[..])) == !exists i: nat, z: nat ::
            Isolated(Clamped(px[..]), i, z)
  {
    hide Interpret;
    hide Words;
    hide Isolated;
    hide From;
    ll := P2li(px);
    LineRoundTrip(px[..]);
    back := new int[px.Length];
    ret := L2pi(ll, back);
    assert Decoded(ll, px.Length) == Pixels(Clamped(px[..])) ==> back[..] == Clamped(px[..]);
    assert back[..] == Clamped(px[..]) && ret == px.Length ==> Decoded(ll, px.Length) == Pixels(Clamped(px[..]));
  }

  // ---- the words are 16-bit numbers ----

  predicate Short(x: int)
  {
    -32768 <= x < 32768
  }

  predicate AllShort(w: seq<int>)
  {
    forall i :: 0 <= i < |w| ==> Short(w[i])
  }

  lemma {:induction false} ZerosShort(nz: int)
    ensures AllShort(ZeroWords(nz)) && |ZeroWords(nz)| <= if nz > 0 then nz else 0
    decreases nz
  {
    if nz > 0 {
      ZerosShort(nz - CHUNK);
    }
  }

  lemma {:induction false} ValuesShort(np: int)
    ensures AllShort(ValueWords(np)) && |ValueWords(np)| <= if np > 0 then np else 0
    decreases np
  {
    if np > 0 {
      ValuesShort(np - CHUNK);
    }
  }

  lemma {:induction false} ZerosAndOneShort(nz: int)
    requires nz > 0
    ensures AllShort(ZerosAndOne(nz)) && |ZerosAndOne(nz)| <= nz
    decreases nz
  {
    if nz > CHUNK {
      ZerosAndOneShort(nz - CHUNK);
    }
  }

  lemma ChangeShort(v: nat, hi: nat)
    requires v < PIXEL_LIMIT
    ensures AllShort(ChangeWords(v, hi)) && (|ChangeWords(v, hi)| == 1 ==> Short(ChangeWords(v, hi)[0] + 16384))
  {
  }

  lemma SegmentShort(nz: nat, v: nat, np: nat, hi: nat)
    requires 0 < v < PIXEL_LIMIT && np > 0
    ensures AllShort(SegmentWords(nz, v, np, hi)) && |SegmentWords(nz, v, np, hi)| <= 2 + nz + np
  {
    hide ChangeWords;
    hide ZeroWords;
    hide ValueWords;
    hide ZerosAndOne;
    ChangeShort(v, hi);
    ZerosShort(nz);
    ValuesShort(np);
    if nz > 0 {
      ZerosAndOneShort(nz);
    }
  }

  // Below 2^27 every instruction word fits its 16 bits, and there are at most three words to a pixel.
  lemma {:induction false} WordsShort(p: seq<nat>, hi: nat)
    requires forall i :: 0 <= i < |p| ==> p[i] < PIXEL_LIMIT
    ensures AllShort(Words(p, hi)) && |Words(p, hi)| <= 3 * |p|
    decreases |p|
  {
    hide SegmentWords;
    hide Words;
    hide RunOf;
    hide AllShort;
    if p == [] || RunOf(p, 0) == |p| {
      ZerosShort(|p|);
      OnlyZeroWords(p, hi);
    } else {
      WordsStep(p, hi);
      var nz := RunOf(p, 0);
      var v := p[nz];
      var np := RunOf(p[nz..], v);
      SegmentShort(nz, v, np, hi);
      WordsShort(p[nz + np..], v);
      JoinShort(SegmentWords(nz, v, np, hi), Words(p[nz + np..], v));
    }
  }

  lemma JoinShort(a: seq<int>, b: seq<int>)
    requires AllShort(a) && AllShort(b)
    ensures AllShort(a + b)
  {
  }

  lemma OnlyZeroWords(p: seq<nat>, hi: nat)
    requires p == [] || RunOf(p, 0) == |p|
    ensures Words(p, hi) == ZeroWords(|p|)
  {
  }

  // So the whole list does, for lines of up to 2^28 pixels.
  lemma ListShort(p: seq<int>)
    requires 0 < |p| <= 0x1000_0000 && forall i :: 0 <= i < |p| ==> p[i] < PIXEL_LIMIT
    ensures var w := Words(Clamped(p), 1); AllShort(HeaderWords(7 + |w|) + w)
  {
    hide Words;
    WordsShort(Clamped(p), 1);
    var n := 7 + |Words(Clamped(p), 1)|;
    assert n / 32768 < 32768;
  }
}
