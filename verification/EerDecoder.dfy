/**
  The event decoder: a 64-bit window that is refilled before each event, and a row and column that follow the position.
 */
module EerDecoder {
  import opened Powers
  import opened Bits
  import opened Grids
  import opened Eer

  // ---- the window ----

  class Window {
    const src: seq<byte>
    var p: nat
    var acc: nat
    var nbits: nat

    // s is what has not been taken.
    ghost predicate Holds(s: bits)
      reads this
    {
      p <= |src| && nbits <= 64 && acc < Pow2(nbits) && s == Lsb(acc, nbits) + UnpackLsb(src[p..])
    }

    constructor (src: seq<byte>)
      ensures this.src == src && Holds(UnpackLsb(src))
    {
      this.src := src;
      p, acc, nbits := 0, 0, 0;
      new;
      assert src[0..] == src;
      assert [] + UnpackLsb(src) == UnpackLsb(src);
    }

    lemma Length(s: bits)
      requires Holds(s)
      ensures p <= |src| && nbits <= 64 && |s| == nbits + 8 * (|src| - p)
    {
    }

    method FetchByte(ghost s: bits)
      requires Holds(s) && nbits <= 56 && p < |src|
      modifies this
      ensures Holds(s) && p == old(p) + 1
    {
      hide Lsb;
      hide UnpackLsb;
      hide Pow2;
      FetchLow(acc, nbits, src, p);
      acc := acc + Scaled(src[p], nbits);
      nbits := nbits + 8;
      p := p + 1;
    }

    method Refill(ghost s: bits)
      requires Holds(s)
      modifies this
      ensures Holds(s) && (nbits > 56 || p == |src|)
    {
      hide Holds;
      Length(s);
      while nbits <= 56 && p < |src|
        invariant Holds(s) && p <= |src|
        decreases |src| - p
      {
        FetchByte(s);
      }
    }

    method Take(n: nat, ghost s: bits) returns (v: nat)
      requires Holds(s) && n <= nbits
      modifies this
      ensures nbits == old(nbits) - n && n <= |s| && v == ValueLsb(s[..n]) && v < Pow2(n) && Holds(s[n..])
    {
      hide Lsb;
      hide ValueLsb;
      hide UnpackLsb;
      hide Pow2;
      TakeLow(acc, nbits, n, UnpackLsb(src[p..]));
      v := Lowest(acc, n);
      acc := Quotient(acc, Pow2(n));
      nbits := nbits - n;
    }
  }

  function Lowest(acc: nat, n: nat): (v: nat)
    ensures v < Pow2(n)
  {
    Remainder(acc, Pow2(n));
    acc % Pow2(n)
  }

  lemma Remainder(a: nat, b: nat)
    requires b > 0
    ensures 0 <= a % b < b
  {
  }

  lemma FetchLow(acc: nat, n: nat, src: seq<byte>, p: nat)
    requires p < |src| && acc < Pow2(n)
    ensures acc + Scaled(src[p], n) < Pow2(n + 8)
    ensures Lsb(acc + Scaled(src[p], n), n + 8) + UnpackLsb(src[p + 1..]) == Lsb(acc, n) + UnpackLsb(src[p..])
  {
    hide Lsb;
    hide Pow2;
    var b, tail := src[p], src[p + 1..];
    assert src[p..][0] == b && src[p..][1..] == tail;
    LsbAppend(acc, b, n, 8);
    Associative(Lsb(acc, n), Lsb(b, 8), UnpackLsb(tail));
    Pow2Add(n, 8);
    BytePow();
    ByteAbove(acc, b, Pow2(n));
  }

  lemma TakeLow(acc: nat, nbits: nat, n: nat, rest: bits)
    requires n <= nbits && acc < Pow2(nbits)
    ensures var s := Lsb(acc, nbits) + rest;
            Lowest(acc, n) == ValueLsb(s[..n]) && s[n..] == Lsb(Quotient(acc, Pow2(n)), nbits - n) + rest
    ensures Quotient(acc, Pow2(n)) < Pow2(nbits - n)
  {
    hide Lsb;
    hide ValueLsb;
    hide Pow2;
    var q := Quotient(acc, Pow2(n));
    LsbSplit(acc, n, nbits - n);
    ValueOfLsb(acc, n);
    Pow2Add(n, nbits - n);
    Below(acc, Pow2(nbits - n), Pow2(n));
    var s := Lsb(acc, nbits) + rest;
    assert s == (Lsb(acc, n) + Lsb(q, nbits - n)) + rest;
    assert s[..n] == Lsb(acc, n) && s[n..] == Lsb(q, nbits - n) + rest;
  }

  // ---- the position ----

  // Row and column of the position.
  predicate At(pos: nat, row: nat, col: nat, w: nat)
  {
    col < w && pos == Place(row, col, w)
  }

  lemma Carry(row: nat, col: nat, w: nat)
    requires col >= w
    ensures Place(row + 1, col - w, w) == Place(row, col, w)
  {
  }

  // Move on by n cells.
  method Advance(row0: nat, col0: nat, n: nat, w: nat, ghost pos: nat) returns (row: nat, col: nat)
    requires At(pos, row0, col0, w)
    ensures At(pos + n, row, col, w)
  {
    hide Place;
    row, col := row0, col0 + n;
    Along(row0, col0, n, w);
    while col >= w
      invariant pos + n == Place(row, col, w)
      decreases col
    {
      Carry(row, col, w);
      col := col - w;
      row := row + 1;
    }
  }

  lemma Along(row: nat, col: nat, n: nat, w: nat)
    ensures Place(row, col + n, w) == Place(row, col, w) + n
  {
  }

  lemma AtIs(pos: nat, row: nat, col: nat, w: nat)
    requires At(pos, row, col, w)
    ensures Quotient(pos, w) == row && pos % w == col
  {
    QuotientUnique(pos, w, row, col);
  }

  // ---- the events so far ----

  function PrecededBy(es: seq<Event>, r: Frame): Frame
  {
    match r
    case Overshoot(b) => Overshoot(es + b)
    case Events(e) => Events(es + e)
  }

  lemma OneMore(es: seq<Event>, e: Event, r: Frame)
    ensures PrecededBy(es, Preceded(e, r)) == PrecededBy(es + [e], r)
  {
    match r
    case Overshoot(b) => assert es + ([e] + b) == (es + [e]) + b;
    case Events(b) => assert es + ([e] + b) == (es + [e]) + b;
  }

  // The pixels of the events drawn so far.
  ghost predicate Drawing(f: Format, dst0: seq<nat>, dst: seq<nat>, max: nat, es: seq<Event>)
  {
    Accepted(f) && BaseWidth(f) > 0 && (forall i {:trigger es[i]} :: 0 <= i < |es| ==> PixelOf(f, es[i]) < |dst0|) &&
    dst == Drawn(f, dst0, max, es)
  }

  lemma DrawOne(f: Format, dst0: seq<nat>, dst: seq<nat>, max: nat, es: seq<Event>, e: Event)
    requires Drawing(f, dst0, dst, max, es) && PixelOf(f, e) < |dst0|
    ensures |dst| == |dst0|
    ensures var p := PixelOf(f, e);
            Drawing(f, dst0, if dst[p] < max then dst[p := dst[p] + 1] else dst, max, es + [e])
  {
    hide PixelOf;
    assert (es + [e])[..|es|] == es;
  }

  // Count one event in its pixel.
  method Draw(f: Format, dst: array<nat>, max: nat, row: nat, col: nat, x: nat, y: nat, ghost e: Event,
              ghost dst0: seq<nat>, ghost es: seq<Event>)
    requires Drawing(f, dst0, dst[..], max, es) && |dst0| == f.height * f.width
    requires e.pos < Cells(f) && At(e.pos, row, col, BaseWidth(f)) && e.x == x < Factor(f) && e.y == y < Factor(f)
    modifies dst
    ensures Drawing(f, dst0, dst[..], max, es + [e])
  {
    hide Drawing;
    hide Cells;
    hide Place;
    DrawingAccepted(f, dst0, dst[..], max, es);
    PixelInside(f, e);
    AtIs(e.pos, row, col, BaseWidth(f));
    DrawOne(f, dst0, dst[..], max, es, e);
    var cell := Place(Place(row, y, Factor(f)), Place(col, x, Factor(f)), f.width);
    ghost var was := dst[..];
    if dst[cell] < max {
      dst[cell] := dst[cell] + 1;
      assert dst[..] == was[cell := was[cell] + 1];
    }
  }

  lemma DrawingAccepted(f: Format, dst0: seq<nat>, dst: seq<nat>, max: nat, es: seq<Event>)
    requires Drawing(f, dst0, dst, max, es)
    ensures Accepted(f) && BaseWidth(f) > 0 && |dst| == |dst0|
  {
  }

  // ---- the decoder ----

  const VALUE_ERROR := -5
  const OUTPUT_TOO_SMALL := -7

  function StatusOf(r: Frame): int
  {
    match r
    case Overshoot(_) => OUTPUT_TOO_SMALL
    case Events(es) => |es|
  }

  // Where the next event's bits decide what happens.
  datatype Next = Ended | Skipped(n: nat) | Overshot | Full | Hit(n: nat, x: nat, y: nat)

  ghost function NextOf(f: Format, s: bits, pos: nat): Next
    requires Accepted(f)
  {
    if |s| < f.skipbits + f.horzbits + f.vertbits then Ended else
    var skip := Field(s, 0, f.skipbits);
    if skip == Pow2(f.skipbits) - 1 then Skipped(skip) else
    if pos + skip > Cells(f) then Overshot else
    if pos + skip == Cells(f) then Full else
    Hit(skip, SubPixel(f, Field(s, f.skipbits, f.horzbits), f.horzbits),
        SubPixel(f, Field(s, f.skipbits + f.horzbits, f.vertbits), f.vertbits))
  }

  lemma ParseStep(f: Format, s: bits, pos: nat)
    requires Accepted(f)
    ensures var need := f.skipbits + f.horzbits + f.vertbits;
            match NextOf(f, s, pos)
            case Ended => Parse(f, s, pos) == Events([])
            case Skipped(n) => need <= |s| && Parse(f, s, pos) == Parse(f, s[f.skipbits..], pos + n)
            case Overshot => Parse(f, s, pos) == Overshoot([])
            case Full => Parse(f, s, pos) == Events([])
            case Hit(n, x, y) =>
              need <= |s| && Parse(f, s, pos) == Preceded(Event(pos + n, x, y), Parse(f, s[need..], pos + n + 1))
  {
    hide Field;
    hide SubPixel;
    hide Cells;
    hide Pow2;
  }

  // Read one skip, and the position fields unless the skip stands alone.
  method ReadEvent(b: Window, f: Format, pos: nat, ghost s: bits) returns (next: Next)
    requires Accepted(f) && b.Holds(s)
    modifies b
    ensures next == NextOf(f, s, pos)
    ensures next.Skipped? ==> f.skipbits <= |s| && b.Holds(s[f.skipbits..])
    ensures next.Hit? ==>
            f.skipbits + f.horzbits + f.vertbits <= |s| && b.Holds(s[f.skipbits + f.horzbits + f.vertbits..])
  {
    hide Window.Holds;
    hide ValueLsb;
    hide Cells;
    hide Factor;
    hide Pow2;
    b.Refill(s);
    b.Length(s);
    if b.nbits < f.skipbits + f.horzbits + f.vertbits {
      return Ended;
    }
    assert s[0..0 + f.skipbits] == s[..f.skipbits];
    var skip := b.Take(f.skipbits, s);
    if skip == Pow2(f.skipbits) - 1 {
      return Skipped(skip);
    }
    ghost var t := s[f.skipbits..];
    assert t[..f.horzbits] == s[f.skipbits..f.skipbits + f.horzbits];
    var h := b.Take(f.horzbits, t);
    ghost var u := t[f.horzbits..];
    assert u[..f.vertbits] == s[f.skipbits + f.horzbits..f.skipbits + f.horzbits + f.vertbits];
    assert u[f.vertbits..] == s[f.skipbits + f.horzbits + f.vertbits..];
    var v := b.Take(f.vertbits, u);
    if pos + skip > Cells(f) {
      return Overshot;
    }
    if pos + skip == Cells(f) {
      return Full;
    }
    next := Hit(skip, SubPixel(f, h, f.horzbits), SubPixel(f, v, f.vertbits));
  }

  lemma NextInside(f: Format, s: bits, pos: nat)
    requires Accepted(f)
    ensures var e := NextOf(f, s, pos); e.Hit? ==> pos + e.n < Cells(f) && e.x < Factor(f) && e.y < Factor(f)
  {
    hide Field;
    hide SubPixel;
    hide Factor;
    hide Cells;
    hide Pow2;
    if |s| >= f.skipbits + f.horzbits + f.vertbits {
      SubPixelInside(f, Field(s, f.skipbits, f.horzbits), f.horzbits);
      SubPixelInside(f, Field(s, f.skipbits + f.horzbits, f.vertbits), f.vertbits);
    }
  }

  lemma NothingDrawn(f: Format, dst: seq<nat>, max: nat, r: Frame)
    requires Accepted(f)
    ensures Drawing(f, dst, dst, max, []) && PrecededBy([], r) == r
    ensures forall s: bits :: r == Parse(f, s, 0) ==> Parsing(f, r, [], s, 0)
  {
    BaseSizes(f);
    match r
    case Overshoot(b) => assert [] + b == b;
    case Events(b) => assert [] + b == b;
  }

  // The events so far and what the rest of the bits parse to make up the frame.
  ghost predicate Parsing(f: Format, whole: Frame, es: seq<Event>, s: bits, pos: nat)
    requires Accepted(f)
  {
    whole == PrecededBy(es, Parse(f, s, pos))
  }

  lemma Proceed(f: Format, whole: Frame, es: seq<Event>, s: bits, pos: nat)
    requires Accepted(f) && Parsing(f, whole, es, s, pos)
    ensures var need := f.skipbits + f.horzbits + f.vertbits;
            match NextOf(f, s, pos)
            case Ended => whole == Events(es)
            case Full => whole == Events(es)
            case Overshot => whole == Overshoot(es)
            case Skipped(n) => need <= |s| && Parsing(f, whole, es, s[f.skipbits..], pos + n)
            case Hit(n, x, y) => need <= |s| && Parsing(f, whole, es + [Event(pos + n, x, y)], s[need..], pos + n + 1)
  {
    hide NextOf;
    hide Parse;
    ParseStep(f, s, pos);
    assert es + [] == es;
    var next := NextOf(f, s, pos);
    if next.Hit? {
      OneMore(es, Event(pos + next.n, next.x, next.y),
        Parse(f, s[f.skipbits + f.horzbits + f.vertbits..], pos + next.n + 1));
    }
  }

  // What the call leaves behind: the status, and the events counted in their pixels.
  ghost predicate Decoded(f: Format, s: bits, max: nat, before: seq<nat>, after: seq<nat>, r: int)
    requires Accepted(f)
  {
    r == StatusOf(Parse(f, s, 0)) && Drawing(f, before, after, max, ListOf(Parse(f, s, 0)))
  }

  // Skip n cells, count an event in the cell that follows, and move on.
  method Register(f: Format, dst: array<nat>, max: nat, row0: nat, col0: nat, w: nat, n: nat, x: nat, y: nat,
                  ghost pos: nat, ghost dst0: seq<nat>, ghost es: seq<Event>)
    returns (row: nat, col: nat)
    requires Drawing(f, dst0, dst[..], max, es) && |dst0| == f.height * f.width
    requires w == BaseWidth(f) && At(pos, row0, col0, w) && pos + n < Cells(f) && x < Factor(f) && y < Factor(f)
    modifies dst
    ensures Drawing(f, dst0, dst[..], max, es + [Event(pos + n, x, y)]) && At(pos + n + 1, row, col, w)
  {
    hide Drawing;
    hide Cells;
    hide Factor;
    hide At;
    row, col := Advance(row0, col0, n, w, pos);
    Draw(f, dst, max, row, col, x, y, Event(pos + n, x, y), dst0, es);
    row, col := Advance(row, col, 1, w, pos + n);
  }

  // Decode a frame of events into dst, whose pixels count up to max: the number of events, or an error.
  method EerDecode(src: seq<byte>, dst: array<nat>, f: Format, max: nat) returns (r: int)
    requires dst.Length == f.height * f.width
    modifies dst
    ensures !Accepted(f) ==> r == VALUE_ERROR && dst[..] == old(dst[..])
    ensures Accepted(f) ==> Decoded(f, UnpackLsb(src), max, old(dst[..]), dst[..], r)
  {
    if !Accepted(f) {
      return VALUE_ERROR;
    }
    r := DecodeEvents(src, dst, f, max);
  }

  // The event loop.
  method DecodeEvents(src: seq<byte>, dst: array<nat>, f: Format, max: nat) returns (r: int)
    requires Accepted(f) && dst.Length == f.height * f.width
    modifies dst
    ensures Decoded(f, UnpackLsb(src), max, old(dst[..]), dst[..], r)
  {
    hide Window.Holds;
    hide Drawing;
    hide Parsing;
    hide Parse;
    hide Accepted;
    hide Cells;
    hide Factor;
    hide UnpackLsb;
    hide At;
    hide NextOf;
    ghost var dst0, whole, es: seq<Event> := dst[..], Parse(f, UnpackLsb(src), 0), [];
    ghost var s := UnpackLsb(src);
    NothingDrawn(f, dst0, max, whole);
    StartAt(f);
    var w := BaseWidth(f);
    var b := new Window(src);
    var pos: nat, row: nat, col: nat, nevents: nat := 0, 0, 0, 0;
    while true
      invariant fresh(b) && b.Holds(s) && w == BaseWidth(f) && At(pos, row, col, w) && nevents == |es|
      invariant Drawing(f, dst0, dst[..], max, es) && Parsing(f, whole, es, s, pos)
      decreases |s|
    {
      Proceed(f, whole, es, s, pos);
      NextInside(f, s, pos);
      WidthPositive(f);
      var next := ReadEvent(b, f, pos, s);
      if next.Ended? || next.Full? {
        return nevents;
      }
      if next.Overshot? {
        return OUTPUT_TOO_SMALL;
      }
      if next.Skipped? {
        row, col := Advance(row, col, next.n, w, pos);
        pos := pos + next.n;
        s := s[f.skipbits..];
      } else {
        row, col := Register(f, dst, max, row, col, w, next.n, next.x, next.y, pos, dst0, es);
        es := es + [Event(pos + next.n, next.x, next.y)];
        nevents := nevents + 1;
        pos := pos + next.n + 1;
        s := s[f.skipbits + f.horzbits + f.vertbits..];
      }
    }
  }

  lemma WidthPositive(f: Format)
    requires Accepted(f)
    ensures f.skipbits > 0
  {
  }

  lemma StartAt(f: Format)
    requires Accepted(f)
    ensures At(0, 0, 0, BaseWidth(f))
  {
    BaseSizes(f);
  }

  // After a decode without error every pixel holds its first value plus one if an event fell on it, capped at max,
  // and the return value is the number of events.
  lemma DecodedCounts(f: Format, s: bits, max: nat, before: seq<nat>, after: seq<nat>, r: int, p: nat)
    requires Accepted(f) && Decoded(f, s, max, before, after, r) && r >= 0 && p < |before| && before[p] <= max
    ensures BaseWidth(f) > 0 && |after| == |before|
    ensures var es := ListOf(Parse(f, s, 0));
            r == |es| && InOrder(f, es, 0) && Hits(f, es, p) <= 1 &&
            after[p] == if before[p] + Hits(f, es, p) < max then before[p] + Hits(f, es, p) else max
  {
    hide Parse;
    hide PixelOf;
    hide Cells;
    hide Factor;
    hide Drawn;
    hide Hits;
    hide InOrder;
    var es := ListOf(Parse(f, s, 0));
    ParseInOrder(f, s, 0);
    OneHit(f, es, 0, p);
    DrawnCounts(f, before, max, es, p);
  }

  // Decoding a frame that was written returns the number of its events, with each of them counted in its pixel.
  lemma WrittenFrameDecodes(f: Format, es: seq<Event>, pad: bits, max: nat, before: seq<nat>, after: seq<nat>, r: int)
    requires Accepted(f) && InOrder(f, es, 0) && MarksFit(f, MarksOf(f, es), 0)
    requires Decoded(f, Written(f, MarksOf(f, es), 0) + pad, max, before, after, r)
    ensures r == |es| && Drawing(f, before, after, max, es)
  {
    hide Parse;
    hide Written;
    hide Drawing;
    EventsRoundTrip(f, es, pad);
  }
}
