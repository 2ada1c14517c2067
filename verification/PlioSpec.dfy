/**
  PLIO line lists: the instructions that stand for a line of pixels, what interpreting any
  list of instructions yields, and exactly which lines come back.
 */
module PlioSpec {
  import opened Grids
  import opened Powers

  const CHUNK := 4095

  // ---- the instructions of a line ----

  // Negative pixels count as zero.
  function Clamped(p: seq<int>): (r: seq<nat>)
    ensures |r| == |p|
  {
    seq(|p|, i requires 0 <= i < |p| => if p[i] < 0 then 0 else p[i])
  }

  // How many pixels at the front have the value v.
  function RunOf(p: seq<nat>, v: nat): (n: nat)
    ensures n <= |p|
    ensures forall i :: 0 <= i < n ==> p[i] == v
    ensures n < |p| ==> p[n] != v
  {
    if p == [] || p[0] != v then 0 else RunOf(p[1..], v) + 1
  }

  function ZeroWords(nz: int): (w: seq<int>)
    decreases nz
  {
    if nz <= 0 then [] else [Least(CHUNK, nz)] + ZeroWords(nz - CHUNK)
  }

  function ValueWords(np: int): (w: seq<int>)
    decreases np
  {
    if np <= 0 then [] else [Least(CHUNK, np) + 16384] + ValueWords(np - CHUNK)
  }

  // Zeros and then a single pixel: the pixel is added to the last word of the zeros.
  function ZerosAndOne(nz: int): (w: seq<int>)
    decreases nz
  {
    if nz <= CHUNK then [nz + 20481] else [CHUNK] + ZerosAndOne(nz - CHUNK)
  }

  // From the value hi to the value v.
  function ChangeWords(v: nat, hi: int): (w: seq<int>)
    ensures |w| <= 2
  {
    var dv := v - hi;
    if dv == 0 then [] else
    if dv > CHUNK || -dv > CHUNK then [v % 4096 + 4096, v / 4096] else
    if dv < 0 then [-dv + 12288] else [dv + 8192]
  }

  // nz zeros and then np pixels of value v.
  function SegmentWords(nz: nat, v: nat, np: nat, hi: int): (w: seq<int>)
    requires v > 0 && np > 0
  {
    var c := ChangeWords(v, hi);
    if np == 1 && nz == 0 && |c| == 1 then [c[0] + 16384] else
    if np == 1 && nz > 0 then c + ZerosAndOne(nz) else
    c + (ZeroWords(nz) + ValueWords(np))
  }

  function Words(p: seq<nat>, hi: int): (w: seq<int>)
    decreases |p|
  {
    if p == [] then [] else
    var nz := RunOf(p, 0);
    if nz == |p| then ZeroWords(nz) else
    var v := p[nz];
    var np := RunOf(p[nz..], v);
    SegmentWords(nz, v, np, hi) + Words(p[nz + np..], v)
  }

  // ---- interpreting instructions ----

  datatype Pixels = OutOfWords | Pixels(line: seq<int>)

  function Prepend(p: seq<int>, r: Pixels): Pixels
  {
    if r.OutOfWords? then OutOfWords else Pixels(p + r.line)
  }

  function Copies(n: nat, v: int): (p: seq<int>)
    ensures |p| == n
  {
    seq(n, _ => v)
  }

  // Division as C does it.
  function Opcode(word: int): int
  {
    if word < 0 then -(-word / 4096) else word / 4096
  }

  function Data(word: int): (d: nat)
    ensures d < 4096
  {
    word % 4096
  }

  // What the first left words of ws do: pv is the current value, and room the number of pixels to go.
  function Interpret(ws: seq<int>, left: int, pv: int, room: nat): (r: Pixels)
    ensures r.Pixels? ==> |r.line| == room
    decreases left
  {
    if room == 0 || left <= 0 then Pixels(Copies(room, 0)) else
    if ws == [] then OutOfWords else
    var code, data := Opcode(ws[0]), Data(ws[0]);
    var n := if data < room then data else room;
    if code == 0 then Prepend(Copies(n, 0), Interpret(ws[1..], left - 1, pv, room - n)) else
    if code == 4 then Prepend(Copies(n, pv), Interpret(ws[1..], left - 1, pv, room - n)) else
    if code == 5 then Prepend(ZerosThen(data, n, pv), Interpret(ws[1..], left - 1, pv, room - n)) else
    if code == 1 then (if |ws| < 2 then OutOfWords else Interpret(ws[2..], left - 2, ws[1] * 4096 + data, room)) else
    if code == 2 then Interpret(ws[1..], left - 1, pv + data, room) else
    if code == 3 then Interpret(ws[1..], left - 1, pv - data, room) else
    if code == 6 then Prepend([pv + data], Interpret(ws[1..], left - 1, pv + data, room - 1)) else
    if code == 7 then Prepend([pv - data], Interpret(ws[1..], left - 1, pv - data, room - 1)) else
    Interpret(ws[1..], left - 1, pv, room)
  }

  // data - 1 zeros and a pixel, cut to n pixels.
  function ZerosThen(data: nat, n: nat, pv: int): (p: seq<int>)
    requires n <= data
    ensures |p| == n
  {
    if n > 0 && n == data then Copies(n - 1, 0) + [pv] else Copies(n, 0)
  }

  lemma PrependTwice(p: seq<int>, q: seq<int>, r: Pixels)
    ensures Prepend(p, Prepend(q, r)) == Prepend(p + q, r)
  {
    if r.Pixels? {
      assert p + (q + r.line) == (p + q) + r.line;
    }
  }

  // ---- what the encoder's instructions do ----

  lemma {:induction false} ZeroWordsDo(nz: int, rest: seq<int>, left: nat, pv: int, room: nat)
    requires 0 <= nz <= room
    ensures Interpret(ZeroWords(nz) + rest, |ZeroWords(nz)| + left, pv, room) ==
            Prepend(Copies(nz, 0), Interpret(rest, left, pv, room - nz))
    decreases nz
  {
    hide Interpret;
    if nz > 0 {
      var n, m := Least(CHUNK, nz), Least(CHUNK, nz);
      var more := nz - n;
      StepZeros(n, ZeroWords(nz - CHUNK) + rest, |ZeroWords(nz)| - 1 + left, pv, room);
      assert ZeroWords(nz) + rest == [n] + (ZeroWords(nz - CHUNK) + rest);
      if more > 0 {
        ZeroWordsDo(more, rest, left, pv, room - n);
        PrependTwice(Copies(n, 0), Copies(more, 0), Interpret(rest, left, pv, room - nz));
        assert Copies(n, 0) + Copies(more, 0) == Copies(nz, 0);
      } else {
        assert ZeroWords(nz - CHUNK) + rest == rest;
      }
    } else {
      assert ZeroWords(nz) + rest == rest;
      PrependNone(Interpret(rest, left, pv, room));
    }
  }

  lemma PrependNone(r: Pixels)
    ensures Prepend(Copies(0, 0), r) == r
  {
    if r.Pixels? {
      assert Copies(0, 0) + r.line == r.line;
    }
  }

  lemma StepZeros(n: nat, rest: seq<int>, left: nat, pv: int, room: nat)
    requires 0 < n <= CHUNK && n <= room
    ensures Interpret([n] + rest, left + 1, pv, room) == Prepend(Copies(n, 0), Interpret(rest, left, pv, room - n))
  {
    assert ([n] + rest)[1..] == rest;
    assert Opcode(n) == 0 && Data(n) == n;
  }

  lemma StepValues(n: nat, rest: seq<int>, left: nat, pv: int, room: nat)
    requires 0 < n <= CHUNK && n <= room
    ensures Interpret([n + 16384] + rest, left + 1, pv, room) ==
            Prepend(Copies(n, pv), Interpret(rest, left, pv, room - n))
  {
    assert ([n + 16384] + rest)[1..] == rest;
    assert Opcode(n + 16384) == 4 && Data(n + 16384) == n;
  }

  lemma StepZerosAndOne(n: nat, rest: seq<int>, left: nat, pv: int, room: nat)
    requires 0 < n < CHUNK && n < room
    ensures Interpret([n + 20481] + rest, left + 1, pv, room) ==
            Prepend(Copies(n, 0) + [pv], Interpret(rest, left, pv, room - n - 1))
  {
    assert ([n + 20481] + rest)[1..] == rest;
    assert Opcode(n + 20481) == 5 && Data(n + 20481) == n + 1;
  }

  // A full chunk and a pixel overflow into another instruction: a single pixel, with no zeros.
  lemma StepOverflow(rest: seq<int>, left: nat, pv: int, room: nat)
    requires room > 0
    ensures Interpret([CHUNK + 20481] + rest, left + 1, pv, room) == Prepend([pv], Interpret(rest, left, pv, room - 1))
  {
    assert ([CHUNK + 20481] + rest)[1..] == rest;
    assert Opcode(CHUNK + 20481) == 6 && Data(CHUNK + 20481) == 0;
  }

  lemma {:induction false} ValueWordsDo(np: int, rest: seq<int>, left: nat, pv: int, room: nat)
    requires 0 <= np <= room
    ensures Interpret(ValueWords(np) + rest, |ValueWords(np)| + left, pv, room) ==
            Prepend(Copies(np, pv), Interpret(rest, left, pv, room - np))
    decreases np
  {
    hide Interpret;
    if np > 0 {
      var n := Least(CHUNK, np);
      var more := np - n;
      StepValues(n, ValueWords(np - CHUNK) + rest, |ValueWords(np)| - 1 + left, pv, room);
      assert ValueWords(np) + rest == [n + 16384] + (ValueWords(np - CHUNK) + rest);
      if more > 0 {
        ValueWordsDo(more, rest, left, pv, room - n);
        PrependTwice(Copies(n, pv), Copies(more, pv), Interpret(rest, left, pv, room - np));
        assert Copies(n, pv) + Copies(more, pv) == Copies(np, pv);
      } else {
        assert ValueWords(np - CHUNK) + rest == rest;
      }
    } else {
      assert ValueWords(np) + rest == rest;
      PrependNone(Interpret(rest, left, pv, room));
      assert Copies(0, pv) == Copies(0, 0);
    }
  }

  // How many of the nz zeros the decoder sees.
  function ZerosSeen(nz: nat): (n: nat)
    ensures n <= nz
  {
    if nz > 0 && nz % CHUNK == 0 then nz - CHUNK else nz
  }

  lemma SeenStep(nz: nat)
    requires nz > CHUNK
    ensures ZerosSeen(nz) == CHUNK + ZerosSeen(nz - CHUNK)
  {
  }

  lemma {:induction false} ZerosAndOneDo(nz: nat, rest: seq<int>, left: nat, pv: int, room: nat)
    requires 0 < nz < room
    ensures Interpret(ZerosAndOne(nz) + rest, |ZerosAndOne(nz)| + left, pv, room) ==
            Prepend(Copies(ZerosSeen(nz), 0) + [pv], Interpret(rest, left, pv, room - ZerosSeen(nz) - 1))
    decreases nz
  {
    hide Interpret;
    if nz > CHUNK {
      var more := nz - CHUNK;
      assert ZerosAndOne(nz) + rest == [CHUNK] + (ZerosAndOne(more) + rest);
      StepZeros(CHUNK, ZerosAndOne(more) + rest, |ZerosAndOne(more)| + left, pv, room);
      ZerosAndOneDo(more, rest, left, pv, room - CHUNK);
      SeenStep(nz);
      PrependTwice(Copies(CHUNK, 0), Copies(ZerosSeen(more), 0) + [pv],
        Interpret(rest, left, pv, room - ZerosSeen(nz) - 1));
      assert Copies(CHUNK, 0) + (Copies(ZerosSeen(more), 0) + [pv]) == Copies(ZerosSeen(nz), 0) + [pv];
    } else if nz == CHUNK {
      StepOverflow(rest, left, pv, room);
      assert Copies(0, 0) + [pv] == [pv];
    } else {
      StepZerosAndOne(nz, rest, left, pv, room);
    }
  }

  // Pixels that the change instruction's second word can hold.
  const PIXEL_LIMIT := 0x800_0000

  lemma ChangeDoes(v: nat, hi: nat, rest: seq<int>, left: nat, room: nat)
    requires room > 0
    ensures Interpret(ChangeWords(v, hi) + rest, |ChangeWords(v, hi)| + left, hi, room) ==
            Interpret(rest, left, v, room)
  {
    hide Interpret;
    hide Opcode;
    hide Data;
    var c, dv := ChangeWords(v, hi), v - hi;
    if dv == 0 {
      assert c + rest == rest;
    } else if |c| == 2 {
      TwoWords(v);
      StepSet(c[0], c[1], rest, left, hi, room);
      assert c == [c[0], c[1]];
    } else {
      OneWord(dv);
      StepMove(c[0], rest, left, hi, room);
      assert c == [c[0]];
    }
  }

  lemma StepSet(a: int, b: int, rest: seq<int>, left: nat, pv: int, room: nat)
    requires room > 0 && Opcode(a) == 1
    ensures Interpret([a, b] + rest, left + 2, pv, room) == Interpret(rest, left, b * 4096 + Data(a), room)
  {
    hide Opcode;
    hide Data;
    assert ([a, b] + rest)[2..] == rest;
  }

  lemma StepMove(a: int, rest: seq<int>, left: nat, pv: int, room: nat)
    requires room > 0 && (Opcode(a) == 2 || Opcode(a) == 3)
    ensures Interpret([a] + rest, left + 1, pv, room) ==
            Interpret(rest, left, if Opcode(a) == 2 then pv + Data(a) else pv - Data(a), room)
  {
    hide Opcode;
    hide Data;
    assert ([a] + rest)[1..] == rest;
  }

  lemma TwoWords(v: nat)
    ensures Opcode(v % 4096 + 4096) == 1 && Data(v % 4096 + 4096) == v % 4096 && v / 4096 * 4096 + v % 4096 == v
  {
  }

  lemma OneWord(dv: int)
    requires dv != 0 && -CHUNK <= dv <= CHUNK
    ensures dv > 0 ==>
            Opcode(dv + 8192) == 2 && Data(dv + 8192) == dv && Opcode(dv + 24576) == 6 && Data(dv + 24576) == dv
    ensures dv < 0 ==>
            Opcode(-dv + 12288) == 3 && Data(-dv + 12288) == -dv && Opcode(-dv + 28672) == 7 && Data(-dv + 28672) == -dv
  {
  }

  // A single pixel right after another value, in one instruction.
  lemma SingleDoes(v: nat, hi: nat, rest: seq<int>, left: nat, room: nat)
    requires room > 0 && |ChangeWords(v, hi)| == 1
    ensures Interpret([ChangeWords(v, hi)[0] + 16384] + rest, left + 1, hi, room) ==
            Prepend([v], Interpret(rest, left, v, room - 1))
  {
    OneWord(v - hi);
    assert ([ChangeWords(v, hi)[0] + 16384] + rest)[1..] == rest;
  }

  // ---- segments ----

  // The pixels the decoder makes of a segment.
  function SeenSegment(nz: nat, v: nat, np: nat): seq<int>
  {
    Copies(if np == 1 then ZerosSeen(nz) else nz, 0) + Copies(np, v)
  }

  lemma SegmentDoes(nz: nat, v: nat, np: nat, hi: nat, rest: seq<int>, left: nat, room: nat)
    requires v > 0 && np > 0 && nz + np <= room
    ensures |SeenSegment(nz, v, np)| <= room
    ensures Interpret(SegmentWords(nz, v, np, hi) + rest, |SegmentWords(nz, v, np, hi)| + left, hi, room) ==
            Prepend(SeenSegment(nz, v, np), Interpret(rest, left, v, room - |SeenSegment(nz, v, np)|))
  {
    hide Interpret;
    hide ChangeWords;
    hide ZeroWords;
    hide ValueWords;
    hide ZerosAndOne;
    hide ZerosSeen;
    var c := ChangeWords(v, hi);
    if np == 1 && nz == 0 && |c| == 1 {
      SingleDoes(v, hi, rest, left, room);
      NoZerosSeen();
      assert SeenSegment(nz, v, np) == [v];
    } else if np == 1 && nz > 0 {
      var z := ZerosAndOne(nz);
      Regroup(c, z, rest);
      ChangeDoes(v, hi, z + rest, |z| + left, room);
      ZerosAndOneDo(nz, rest, left, v, room);
      assert SeenSegment(nz, v, np) == Copies(ZerosSeen(nz), 0) + [v];
    } else {
      NoZerosSeen();
      var z, w := ZeroWords(nz), ValueWords(np);
      Regroup(c, z + w, rest);
      Regroup(z, w, rest);
      ChangeDoes(v, hi, (z + w) + rest, |z + w| + left, room);
      ZeroWordsDo(nz, w + rest, |w| + left, v, room);
      ValueWordsDo(np, rest, left, v, room - nz);
      PrependTwice(Copies(nz, 0), Copies(np, v), Interpret(rest, left, v, room - nz - np));
    }
  }

  lemma NoZerosSeen()
    ensures ZerosSeen(0) == 0
  {
  }

  lemma Regroup(a: seq<int>, b: seq<int>, c: seq<int>)
    ensures (a + b) + c == a + (b + c)
  {
  }

  // ---- exactly which lines come back ----

  // The zeros end in a full chunk, and the single pixel behind them overflows its word.
  predicate LosesZeros(nz: nat, np: nat)
  {
    np == 1 && nz > 0 && nz % CHUNK == 0
  }

  // Some segment of the line is misread: a single pixel after a whole number of chunks of zeros.
  predicate Misread(p: seq<nat>)
    decreases |p|
  {
    p != [] &&
    var nz := RunOf(p, 0);
    nz < |p| &&
    var np := RunOf(p[nz..], p[nz]);
    (LosesZeros(nz, np) || Misread(p[nz + np..]))
  }

  lemma Segmented(p: seq<nat>, nz: nat, np: nat)
    requires p != [] && nz == RunOf(p, 0) && nz < |p| && np == RunOf(p[nz..], p[nz])
    ensures np > 0 && nz + np <= |p| && p == (Copies(nz, 0) + Copies(np, p[nz])) + p[nz + np..]
  {
    hide RunOf;
    assert p[nz..][0] == p[nz];
    assert forall i :: nz <= i < nz + np ==> p[i] == p[nz..][i - nz];
  }

  // The words of a line yield the line exactly if no segment is misread.
  lemma {:induction false} WordsYield(p: seq<nat>, hi: nat)
    ensures (Interpret(Words(p, hi), |Words(p, hi)|, hi, |p|) == Pixels(p)) == !Misread(p)
    decreases |p|
  {
    hide Interpret;
    hide Words;
    hide Misread;
    hide SegmentWords;
    hide SeenSegment;
    hide Prepend;
    hide RunOf;
    hide Copies;
    if p == [] || RunOf(p, 0) == |p| {
      OnlyZeros(p, hi);
    } else {
      var nz := RunOf(p, 0);
      var v := p[nz];
      var np := RunOf(p[nz..], v);
      Segmented(p, nz, np);
      WordsStep(p, hi);
      var rest, tail := p[nz + np..], Words(p[nz + np..], v);
      SegmentDoes(nz, v, np, hi, tail, |tail|, |p|);
      WordsYield(rest, v);
      var more := Interpret(tail, |tail|, v, |p| - |SeenSegment(nz, v, np)|);
      SegmentSeen(p, nz, v, np, more);
    }
  }

  lemma WordsStep(p: seq<nat>, hi: int)
    requires p != [] && RunOf(p, 0) < |p|
    ensures var nz := RunOf(p, 0);
            var v := p[nz];
            var np := RunOf(p[nz..], v);
            np > 0 && nz + np <= |p| && v > 0 &&
            Words(p, hi) == SegmentWords(nz, v, np, hi) + Words(p[nz + np..], v) &&
            Misread(p) == (LosesZeros(nz, np) || Misread(p[nz + np..]))
  {
    hide SegmentWords;
    hide LosesZeros;
    hide RunOf;
    hide Words;
    hide Misread;
    RunBehind(p);
    var nz := RunOf(p, 0);
    var np := RunOf(p[nz..], p[nz]);
    WordsUnfold(p, hi, nz, np, p[nz + np..]);
    MisreadUnfold(p, nz, np, p[nz + np..]);
  }

  lemma WordsUnfold(p: seq<nat>, hi: int, nz: nat, np: nat, rest: seq<nat>)
    requires p != [] && nz == RunOf(p, 0) < |p| && p[nz] > 0 && np == RunOf(p[nz..], p[nz]) > 0
    requires nz + np <= |p| && rest == p[nz + np..]
    ensures Words(p, hi) == SegmentWords(nz, p[nz], np, hi) + Words(rest, p[nz])
  {
    hide SegmentWords;
    hide ZeroWords;
    hide RunOf;
  }

  lemma MisreadUnfold(p: seq<nat>, nz: nat, np: nat, rest: seq<nat>)
    requires p != [] && nz == RunOf(p, 0) < |p| && np == RunOf(p[nz..], p[nz])
    requires nz + np <= |p| && rest == p[nz + np..]
    ensures Misread(p) == (LosesZeros(nz, np) || Misread(rest))
  {
    hide LosesZeros;
    hide RunOf;
  }

  lemma RunBehind(p: seq<nat>)
    requires RunOf(p, 0) < |p|
    ensures var nz := RunOf(p, 0);
            RunOf(p[nz..], p[nz]) > 0 && nz + RunOf(p[nz..], p[nz]) <= |p| && p[nz] > 0
  {
    hide RunOf;
    var nz := RunOf(p, 0);
    assert p[nz..][0] == p[nz];
  }

  lemma OnlyZeros(p: seq<nat>, hi: int)
    requires p == [] || RunOf(p, 0) == |p|
    ensures Interpret(Words(p, hi), |Words(p, hi)|, hi, |p|) == Pixels(p) && !Misread(p)
  {
    hide Interpret;
    NoRoom(hi);
    if p != [] {
      ZeroWordsDo(|p|, [], 0, hi, |p|);
      assert ZeroWords(|p|) + [] == ZeroWords(|p|);
      assert Copies(|p|, 0) + [] == p;
    }
  }

  lemma NoRoom(hi: int)
    ensures Interpret([], 0, hi, 0) == Pixels([])
  {
  }

  // A segment that is not misread leaves it to the rest; one that is shows a pixel where a zero was.
  lemma SegmentSeen(p: seq<nat>, nz: nat, v: nat, np: nat, more: Pixels)
    requires v > 0 && np > 0 && nz + np <= |p| && p == (Copies(nz, 0) + Copies(np, v)) + p[nz + np..]
    ensures LosesZeros(nz, np) ==> Prepend(SeenSegment(nz, v, np), more) != Pixels(p)
    ensures !LosesZeros(nz, np) ==>
      |SeenSegment(nz, v, np)| == nz + np &&
        (Prepend(SeenSegment(nz, v, np), more) == Pixels(p)) == (more == Pixels(p[nz + np..]))
  {
    var s := SeenSegment(nz, v, np);
    if LosesZeros(nz, np) {
      var z := ZerosSeen(nz);
      assert s[z] == v && p[z] == 0;
      assert more.Pixels? ==> (s + more.line)[z] == v;
    } else {
      assert s == Copies(nz, 0) + Copies(np, v);
      if more.Pixels? {
        SameTail(s, more.line, p[nz + np..]);
      }
    }
  }

  lemma SameTail(s: seq<int>, a: seq<int>, b: seq<int>)
    ensures (s + a == s + b) == (a == b)
  {
    if s + a == s + b {
      assert (s + a)[|s|..] == a && (s + b)[|s|..] == b;
    }
  }

  // ---- the condition in terms of the pixels ----

  // Pixel i differs from its right neighbour, and a maximal run of z zeros, a whole number of chunks, ends right before
  // it.
  predicate Isolated(p: seq<nat>, i: nat, z: nat)
  {
    0 < z <= i < |p| && z % CHUNK == 0 && p[i] != 0 && (i + 1 < |p| ==> p[i + 1] != p[i]) &&
    (forall j :: i - z <= j < i ==> p[j] == 0) && (z < i ==> p[i - z - 1] != 0)
  }

  lemma IsolatedInRest(p: seq<nat>, k: nat, i: nat, z: nat)
    requires 0 < k <= |p| && p[k - 1] != 0 && i < |p| - k
    ensures Isolated(p[k..], i, z) == (z <= i && Isolated(p, k + i, z))
  {
    var rest := p[k..];
    assert forall j :: 0 <= j < |rest| ==> rest[j] == p[k + j];
    if z <= i < |rest| {
      assert (forall j :: i - z <= j < i ==> rest[j] == 0) == (forall j :: k + i - z <= j < k + i ==> p[j] == 0) by {
        if forall j :: i - z <= j < i ==> rest[j] == 0 {
          assert forall j :: k + i - z <= j < k + i ==> p[j] == rest[j - k];
        }
      }
    }
  }

  lemma SecondInRun(p: seq<nat>, nz: nat, np: nat)
    requires nz < |p| && nz + np <= |p| && np == RunOf(p[nz..], p[nz])
    ensures np > 1 ==> p[nz + 1] == p[nz]
  {
    assert np > 1 ==> p[nz..][1] == p[nz + 1];
  }

  lemma SegmentIsolated(p: seq<nat>, nz: nat, np: nat, i: nat, z: nat)
    requires nz < |p| && np > 0 && nz + np <= |p| && nz == RunOf(p, 0) && np == RunOf(p[nz..], p[nz])
    requires i < nz + np && Isolated(p, i, z)
    ensures i == nz && z == nz && np == 1 && nz > 0 && nz % CHUNK == 0
  {
    SecondInRun(p, nz, np);
    assert p[i - 1] == 0;
    assert forall j :: nz <= j < nz + np ==> p[j] == p[nz..][j - nz];
  }

  lemma SegmentIsolates(p: seq<nat>, nz: nat, np: nat)
    requires nz < |p| && nz == RunOf(p, 0) && np == RunOf(p[nz..], p[nz]) && np == 1 && nz > 0 && nz % CHUNK == 0
    ensures Isolated(p, nz, nz)
  {
    if nz + 1 < |p| {
      assert p[nz..][1] == p[nz + 1];
    }
  }

  // A line is misread exactly if it has such a pixel.
  lemma {:induction false} MisreadIsIsolated(p: seq<nat>)
    ensures Misread(p) == exists i: nat, z: nat :: Isolated(p, i, z)
    decreases |p|
  {
    hide Isolated;
    hide RunOf;
    hide Misread;
    if p == [] || RunOf(p, 0) == |p| {
      NoneMisread(p);
      AllZeroNone(p);
    } else {
      var nz := RunOf(p, 0);
      var np := RunOf(p[nz..], p[nz]);
      var k := nz + np;
      Segmented(p, nz, np);
      assert p[k - 1] != 0;
      MisreadUnfold(p, nz, np, p[k..]);
      MisreadIsIsolated(p[k..]);
      if Misread(p) {
        if LosesZeros(nz, np) {
          SegmentIsolates(p, nz, np);
        } else {
          var i: nat, z: nat :| Isolated(p[k..], i, z);
          IsolatedRange(p[k..], i, z);
          IsolatedInRest(p, k, i, z);
        }
      }
      if i: nat, z: nat :| Isolated(p, i, z) {
        IsolatedRange(p, i, z);
        if i < k {
          SegmentIsolated(p, nz, np, i, z);
        } else {
          RunBounded(p, k, i, z);
          IsolatedInRest(p, k, i - k, z);
        }
      }
    }
  }

  lemma NoneMisread(p: seq<nat>)
    requires p == [] || RunOf(p, 0) == |p|
    ensures !Misread(p)
  {
    hide RunOf;
  }

  lemma IsolatedRange(p: seq<nat>, i: nat, z: nat)
    requires Isolated(p, i, z)
    ensures i < |p| && z <= i
  {
  }

  lemma RunBounded(p: seq<nat>, k: nat, i: nat, z: nat)
    requires Isolated(p, i, z) && 0 < k <= i && p[k - 1] != 0
    ensures z <= i - k
  {
  }

  lemma AllZeroNone(p: seq<nat>)
    requires p == [] || RunOf(p, 0) == |p|
    ensures !exists i: nat, z: nat :: Isolated(p, i, z)
  {
  }
}
