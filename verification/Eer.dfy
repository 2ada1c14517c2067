/** Decoding electron events: a bit window over the stream, skips and sub-pixel positions, and saturating counts. */
module Eer {
  import opened Powers
  import opened Bits
  import opened Grids

  // ---- parameters ----

  // The widths of the fields, how many of each position field's top bits are used, and the frame's size.
  datatype Format = Format(skipbits: nat, horzbits: nat, vertbits: nat, superres: nat, height: nat, width: nat)

  function Factor(f: Format): (n: nat)
    ensures n > 0
  {
    Pow2(f.superres)
  }

  predicate Accepted(f: Format)
  {
    1 <= f.skipbits <= 14 && 1 <= f.horzbits <= 4 && 1 <= f.vertbits <= 4 &&
    f.superres <= f.horzbits && f.superres <= f.vertbits &&
    f.height % Factor(f) == 0 && f.width % Factor(f) == 0 && f.height > 0 && f.width > 0
  }

  function Quotient(a: nat, b: nat): (q: nat)
    requires b > 0
  {
    NotNegative(a, b);
    a / b
  }

  function BaseWidth(f: Format): nat
  {
    Quotient(f.width, Factor(f))
  }

  function Cells(f: Format): nat
  {
    BaseWidth(f) * Quotient(f.height, Factor(f))
  }

  // ---- a stream as bits ----

  // The field with its top bit flipped.
  function Flipped(v: nat, n: nat): nat
    requires n > 0 && v < Pow2(n)
  {
    if v >= Pow2(n - 1) then v - Pow2(n - 1) else v + Pow2(n - 1)
  }

  // One event: its base cell, counted along rows, and its position inside the cell.
  datatype Event = Event(pos: nat, x: nat, y: nat)

  datatype Frame = Overshoot(before: seq<Event>) | Events(events: seq<Event>)

  function Field(s: bits, at: nat, n: nat): (v: nat)
    requires at + n <= |s|
    ensures v < Pow2(n)
  {
    ValueLsb(s[at..at + n])
  }

  // The sub-pixel an event's field selects.
  function SubPixel(f: Format, v: nat, n: nat): (x: nat)
    requires 0 < n && f.superres <= n && v < Pow2(n)
  {
    Quotient(Flipped(v, n), Pow2(n - f.superres))
  }

  // The events in the bits s, where pos is the next base cell.
  function Parse(f: Format, s: bits, pos: nat): Frame
    requires Accepted(f)
    decreases |s|
  {
    if |s| < f.skipbits + f.horzbits + f.vertbits then Events([]) else
    var skip := Field(s, 0, f.skipbits);
    if skip == Pow2(f.skipbits) - 1 then Parse(f, s[f.skipbits..], pos + skip) else
    if pos + skip > Cells(f) then Overshoot([]) else
    if pos + skip == Cells(f) then Events([]) else
    var e := Event(pos + skip,
                   SubPixel(f, Field(s, f.skipbits, f.horzbits), f.horzbits),
                   SubPixel(f, Field(s, f.skipbits + f.horzbits, f.vertbits), f.vertbits));
    Preceded(e, Parse(f, s[f.skipbits + f.horzbits + f.vertbits..], pos + skip + 1))
  }

  function Preceded(e: Event, r: Frame): Frame
  {
    match r
    case Overshoot(b) => Overshoot([e] + b)
    case Events(es) => Events([e] + es)
  }

  function ListOf(r: Frame): seq<Event>
  {
    match r
    case Overshoot(b) => b
    case Events(es) => es
  }

  // ---- what the events are ----

  // Events come in the order of their cells, one to a cell, and stay inside the frame and their cell.
  predicate InOrder(f: Format, es: seq<Event>, pos: nat)
  {
    forall i :: 0 <= i < |es| ==>
      pos <= es[i].pos < Cells(f) && es[i].x < Factor(f) && es[i].y < Factor(f) && (i > 0 ==> es[i - 1].pos < es[i].pos)
  }

  lemma SubPixelInside(f: Format, v: nat, n: nat)
    requires 0 < n && f.superres <= n && v < Pow2(n)
    ensures SubPixel(f, v, n) < Factor(f)
  {
    hide Pow2;
    var p, q := Pow2(n - f.superres), Factor(f);
    Pow2Add(f.superres, n - f.superres);
    TopBit(v, n);
    Below(Flipped(v, n), q, p);
  }

  lemma TopBit(v: nat, n: nat)
    requires n > 0 && v < Pow2(n)
    ensures Flipped(v, n) < Pow2(n)
  {
  }

  lemma Below(w: nat, q: nat, p: nat)
    requires p > 0 && w < q * p
    ensures Quotient(w, p) < q
  {
    MulMonotone(q, w / p, p);
  }

  lemma {:induction false} ParseInOrder(f: Format, s: bits, pos: nat)
    requires Accepted(f)
    ensures InOrder(f, ListOf(Parse(f, s, pos)), pos)
    decreases |s|
  {
    hide Field;
    hide SubPixel;
    hide Cells;
    hide Factor;
    hide Pow2;
    if |s| >= f.skipbits + f.horzbits + f.vertbits {
      var skip := Field(s, 0, f.skipbits);
      if skip == Pow2(f.skipbits) - 1 {
        ParseInOrder(f, s[f.skipbits..], pos + skip);
      } else if pos + skip < Cells(f) {
        var h, v := Field(s, f.skipbits, f.horzbits), Field(s, f.skipbits + f.horzbits, f.vertbits);
        SubPixelInside(f, h, f.horzbits);
        SubPixelInside(f, v, f.vertbits);
        ParseInOrder(f, s[f.skipbits + f.horzbits + f.vertbits..], pos + skip + 1);
      }
    }
  }

  // ---- writing events ----

  // The offset of a field of n bits, as a number in two's complement.
  function Offset(v: nat, n: nat): int
    requires n > 0 && v < Pow2(n)
  {
    if v < Pow2(n - 1) then v else v - Pow2(n)
  }

  // A field selects the sub-pixel that lies at its offset from the middle of the cell.
  lemma SubPixelOfOffset(f: Format, v: nat, n: nat)
    requires 0 < n && f.superres <= n && v < Pow2(n)
    ensures -(Pow2(n - 1) as int) <= Offset(v, n) < Pow2(n - 1)
    ensures SubPixel(f, v, n) == (Offset(v, n) + Pow2(n - 1)) / Pow2(n - f.superres)
  {
    PowHalf(n);
    hide Pow2;
  }

  lemma PowHalf(n: nat)
    requires n > 0
    ensures Pow2(n) == 2 * Pow2(n - 1)
  {
  }

  // An event by its base cell and its offsets from the middle of the cell.
  datatype Mark = Mark(pos: nat, dx: int, dy: int)

  predicate FieldFits(t: int, n: nat)
    requires n > 0
  {
    -(Pow2(n - 1) as int) <= t < Pow2(n - 1)
  }

  function Selected(f: Format, t: int, n: nat): (x: nat)
    requires 0 < n && f.superres <= n && FieldFits(t, n)
  {
    Quotient(t + Pow2(n - 1), Pow2(n - f.superres))
  }

  predicate MarksFit(f: Format, ms: seq<Mark>, pos: nat)
    requires Accepted(f)
  {
    (ms != [] ==> pos <= ms[0].pos) &&
    forall i :: 0 <= i < |ms| ==>
      (i > 0 ==> ms[i - 1].pos < ms[i].pos) && ms[i].pos < Cells(f) &&
      FieldFits(ms[i].dx, f.horzbits) && FieldFits(ms[i].dy, f.vertbits)
  }

  function EventOf(f: Format, m: Mark): Event
    requires Accepted(f) && FieldFits(m.dx, f.horzbits) && FieldFits(m.dy, f.vertbits)
  {
    Event(m.pos, Selected(f, m.dx, f.horzbits), Selected(f, m.dy, f.vertbits))
  }

  function EventsOf(f: Format, ms: seq<Mark>, pos: nat): (es: seq<Event>)
    requires Accepted(f) && MarksFit(f, ms, pos)
    ensures |es| == |ms|
  {
    seq(|ms|, i requires 0 <= i < |ms| => EventOf(f, ms[i]))
  }

  // n cells without an event: as many longest skips as fit, and the rest in front of the fields that follow.
  function Skips(f: Format, n: nat): bits
    requires f.skipbits > 0
  {
    MostPositive(f.skipbits);
    var most: nat := Pow2(f.skipbits) - 1;
    if n < most then Lsb(n, f.skipbits) else Lsb(most, f.skipbits) + Skips(f, n - most)
  }

  lemma MostPositive(n: nat)
    requires n > 0
    ensures Pow2(n) > 1
  {
  }

  // Skips, the horizontal and the vertical offset of each event, and skips to the end of the frame.
  function Written(f: Format, ms: seq<Mark>, pos: nat): bits
    requires Accepted(f) && MarksFit(f, ms, pos) && pos <= Cells(f)
    decreases |ms|
  {
    if ms == [] then Skips(f, Cells(f) - pos) + Zeros(f.horzbits + f.vertbits) else
    var m := ms[0];
    Skips(f, m.pos - pos) + (Lsb(m.dx, f.horzbits) + Lsb(m.dy, f.vertbits)) + Written(f, ms[1..], m.pos + 1)
  }

  lemma FieldThere(v: int, n: nat, rest: bits)
    ensures var s := Lsb(v, n) + rest; Field(s, 0, n) == v % Pow2(n) && s[n..] == rest && s[..n] == Lsb(v, n)
  {
    ValueOfLsb(v, n);
    assert (Lsb(v, n) + rest)[0..n] == Lsb(v, n);
  }

  // What is read behind a last skip that brings the position to pos.
  function AtEvent(f: Format, rest: bits, pos: nat): Frame
    requires Accepted(f) && |rest| >= f.horzbits + f.vertbits
  {
    if pos > Cells(f) then Overshoot([]) else
    if pos == Cells(f) then Events([]) else
    Preceded(Event(pos, SubPixel(f, Field(rest, 0, f.horzbits), f.horzbits),
                   SubPixel(f, Field(rest, f.horzbits, f.vertbits), f.vertbits)),
             Parse(f, rest[f.horzbits + f.vertbits..], pos + 1))
  }

  // Skips only move the position.
  lemma {:induction false} ParseSkips(f: Format, n: nat, rest: bits, pos: nat)
    requires Accepted(f) && |rest| >= f.horzbits + f.vertbits
    ensures Parse(f, Skips(f, n) + rest, pos) == AtEvent(f, rest, pos + n)
    decreases n
  {
    hide Cells;
    hide Factor;
    hide SubPixel;
    hide Lsb;
    hide Pow2;
    MostPositive(f.skipbits);
    var most: nat := Pow2(f.skipbits) - 1;
    if n < most {
      FieldThere(n, f.skipbits, rest);
      QuotientUnique(n, most + 1, 0, n);
      LastSkip(f, n, rest, pos);
    } else {
      var more := Skips(f, n - most) + rest;
      FieldThere(most, f.skipbits, more);
      QuotientUnique(most, most + 1, 0, most);
      Associative(Lsb(most, f.skipbits), Skips(f, n - most), rest);
      ParseSkips(f, n - most, rest, pos + most);
    }
  }

  lemma LastSkip(f: Format, n: nat, rest: bits, pos: nat)
    requires Accepted(f) && |rest| >= f.horzbits + f.vertbits && n + 1 < Pow2(f.skipbits)
    ensures Parse(f, Lsb(n, f.skipbits) + rest, pos) == AtEvent(f, rest, pos + n)
  {
    hide Cells;
    hide Factor;
    hide SubPixel;
    hide Lsb;
    hide Pow2;
    var s, b := Lsb(n, f.skipbits) + rest, f.skipbits;
    FieldThere(n, b, rest);
    QuotientUnique(n, Pow2(b), 0, n);
    assert s[b..b + f.horzbits] == rest[0..f.horzbits];
    assert s[b + f.horzbits..b + f.horzbits + f.vertbits] == rest[f.horzbits..f.horzbits + f.vertbits];
    assert s[b + f.horzbits + f.vertbits..] == rest[f.horzbits + f.vertbits..];
  }

  // A skip past the end of the frame is an error.
  lemma SkipPastEnd(f: Format, n: nat, rest: bits, pos: nat)
    requires Accepted(f) && |rest| >= f.horzbits + f.vertbits && pos + n > Cells(f)
    ensures Parse(f, Skips(f, n) + rest, pos) == Overshoot([])
  {
    hide Parse;
    hide Skips;
    ParseSkips(f, n, rest, pos);
  }

  // An offset that is written selects its sub-pixel.
  lemma WrittenField(f: Format, t: int, n: nat)
    requires 0 < n && f.superres <= n && FieldFits(t, n)
    ensures t % Pow2(n) < Pow2(n) && SubPixel(f, t % Pow2(n), n) == Selected(f, t, n)
  {
    hide Pow2;
    hide Quotient;
    PowHalf(n);
    QuotientUnique(t, Pow2(n), if t < 0 then -1 else 0, if t < 0 then t + Pow2(n) else t);
    SubPixelOfOffset(f, t % Pow2(n), n);
  }

  // Every list of events that is in order is read back as it was written, whatever follows the frame.
  lemma {:induction false} ParseWritten(f: Format, ms: seq<Mark>, pos: nat, pad: bits)
    requires Accepted(f) && MarksFit(f, ms, pos) && pos <= Cells(f)
    ensures Parse(f, Written(f, ms, pos) + pad, pos) == Events(EventsOf(f, ms, pos))
    decreases |ms|
  {
    hide Cells;
    hide Factor;
    hide SubPixel;
    hide Selected;
    hide Lsb;
    hide Pow2;
    hide Skips;
    hide Parse;
    if ms == [] {
      var tail := Zeros(f.horzbits + f.vertbits);
      Associative(Skips(f, Cells(f) - pos), tail, pad);
      ParseSkips(f, Cells(f) - pos, tail + pad, pos);
    } else {
      var m, h, v := ms[0], f.horzbits, f.vertbits;
      var x, y, more := Lsb(m.dx, h), Lsb(m.dy, v), Written(f, ms[1..], m.pos + 1) + pad;
      Associative(Skips(f, m.pos - pos) + (x + y), Written(f, ms[1..], m.pos + 1), pad);
      Associative(Skips(f, m.pos - pos), x + y, more);
      ParseSkips(f, m.pos - pos, (x + y) + more, pos);
      FieldsThere(m.dx, h, m.dy, v, more);
      WrittenField(f, m.dx, h);
      WrittenField(f, m.dy, v);
      ParseWritten(f, ms[1..], m.pos + 1, pad);
      assert EventsOf(f, ms, pos) == [EventOf(f, m)] + EventsOf(f, ms[1..], m.pos + 1);
    }
  }

  // The offset of the first place of a sub-pixel.
  function OffsetOf(f: Format, x: nat, n: nat): int
    requires 0 < n && f.superres <= n
  {
    x * Pow2(n - f.superres) - Pow2(n - 1)
  }

  lemma OffsetSelects(f: Format, x: nat, n: nat)
    requires 0 < n && f.superres <= n && x < Factor(f)
    ensures FieldFits(OffsetOf(f, x, n), n) && Selected(f, OffsetOf(f, x, n), n) == x
  {
    PowHalf(n);
    Pow2Add(f.superres, n - f.superres);
    hide Pow2;
    var p := Pow2(n - f.superres);
    MulMonotone(x + 1, Factor(f), p);
    QuotientUnique(x * p, p, x, 0);
  }

  function MarkOf(f: Format, e: Event): Mark
    requires Accepted(f)
  {
    Mark(e.pos, OffsetOf(f, e.x, f.horzbits), OffsetOf(f, e.y, f.vertbits))
  }

  function MarksOf(f: Format, es: seq<Event>): (ms: seq<Mark>)
    requires Accepted(f)
    ensures |ms| == |es|
  {
    seq(|es|, i requires 0 <= i < |es| => MarkOf(f, es[i]))
  }

  // Every list of events that are in order in the frame can be written, and is read back.
  lemma EventsRoundTrip(f: Format, es: seq<Event>, pad: bits)
    requires Accepted(f) && InOrder(f, es, 0)
    ensures MarksFit(f, MarksOf(f, es), 0)
    ensures Parse(f, Written(f, MarksOf(f, es), 0) + pad, 0) == Events(es)
  {
    hide Parse;
    hide Written;
    hide Factor;
    hide Cells;
    hide Selected;
    hide OffsetOf;
    hide FieldFits;
    forall i | 0 <= i < |es|
      ensures FieldFits(OffsetOf(f, es[i].x, f.horzbits), f.horzbits)
      ensures FieldFits(OffsetOf(f, es[i].y, f.vertbits), f.vertbits)
      ensures Selected(f, OffsetOf(f, es[i].x, f.horzbits), f.horzbits) == es[i].x
      ensures Selected(f, OffsetOf(f, es[i].y, f.vertbits), f.vertbits) == es[i].y
    {
      OffsetSelects(f, es[i].x, f.horzbits);
      OffsetSelects(f, es[i].y, f.vertbits);
    }
    var ms := MarksOf(f, es);
    assert forall i :: 0 <= i < |es| ==> ms[i] == MarkOf(f, es[i]);
    ParseWritten(f, ms, 0, pad);
    assert EventsOf(f, ms, 0) == es;
  }

  lemma FieldsThere(x: int, h: nat, y: int, v: nat, rest: bits)
    ensures var s := (Lsb(x, h) + Lsb(y, v)) + rest;
            Field(s, 0, h) == x % Pow2(h) && Field(s, h, v) == y % Pow2(v) && s[h + v..] == rest
  {
    hide Lsb;
    hide Pow2;
    Associative(Lsb(x, h), Lsb(y, v), rest);
    FieldThere(x, h, Lsb(y, v) + rest);
    FieldThere(y, v, rest);
    var s := (Lsb(x, h) + Lsb(y, v)) + rest;
    assert s[h..h + v] == (Lsb(y, v) + rest)[0..v];
  }

  // ---- counting ----

  // The column and the row of an event's pixel in the frame.
  lemma ColumnAndRow(f: Format, e: Event)
    requires Accepted(f) && BaseWidth(f) > 0 && e.x < Factor(f) && e.y < Factor(f)
    ensures f.width > 0
    ensures PixelOf(f, e) % f.width == e.pos % BaseWidth(f) * Factor(f) + e.x
    ensures PixelOf(f, e) / f.width == Quotient(e.pos, BaseWidth(f)) * Factor(f) + e.y
  {
    hide Factor;
    hide BaseWidth;
    BaseSizes(f);
    var w, k := BaseWidth(f), Factor(f);
    SplitPos(e.pos, w);
    PlaceInside(e.pos % w, e.x, w, k);
    QuotientUnique(PixelOf(f, e), f.width, Place(Quotient(e.pos, w), e.y, k), Place(e.pos % w, e.x, k));
  }

  // The pixel of an event.
  function PixelOf(f: Format, e: Event): nat
    requires Accepted(f) && BaseWidth(f) > 0
  {
    var row, col := Quotient(e.pos, BaseWidth(f)), e.pos % BaseWidth(f);
    Place(Place(row, e.y, Factor(f)), Place(col, e.x, Factor(f)), f.width)
  }

  function Place(i: nat, j: nat, n: nat): nat
  {
    i * n + j
  }

  lemma PlaceInside(r: nat, y: nat, h: nat, k: nat)
    requires r < h && y < k
    ensures Place(r, y, k) < h * k
  {
    MulMonotone(r + 1, h, k);
  }

  lemma PlaceUnique(i: nat, j: nat, p: nat, q: nat, n: nat)
    requires j < n && q < n && Place(i, j, n) == Place(p, q, n)
    ensures i == p && j == q
  {
    IndexUnique(i, j, p, q, n);
  }

  lemma Whole(n: nat, k: nat)
    requires k > 0 && n % k == 0
    ensures Quotient(n, k) * k == n && (n > 0 ==> Quotient(n, k) > 0)
  {
  }

  lemma BaseSizes(f: Format)
    requires Accepted(f)
    ensures BaseWidth(f) > 0 && BaseWidth(f) * Factor(f) == f.width &&
            Quotient(f.height, Factor(f)) * Factor(f) == f.height
  {
    Whole(f.width, Factor(f));
    Whole(f.height, Factor(f));
  }

  // Every event of the frame has a pixel of the frame.
  lemma PixelInside(f: Format, e: Event)
    requires Accepted(f) && e.pos < Cells(f) && e.x < Factor(f) && e.y < Factor(f)
    ensures BaseWidth(f) > 0 && PixelOf(f, e) < f.height * f.width
  {
    BaseSizes(f);
    var w, h, k := BaseWidth(f), Quotient(f.height, Factor(f)), Factor(f);
    hide Factor;
    var r, c := Quotient(e.pos, w), e.pos % w;
    RowInside(e.pos, w, h);
    hide Place;
    PlaceInside(r, e.y, h, k);
    PlaceInside(c, e.x, w, k);
    PlaceInside(Place(r, e.y, k), Place(c, e.x, k), f.height, f.width);
  }

  lemma RowInside(p: nat, w: nat, h: nat)
    requires w > 0 && p < w * h
    ensures Quotient(p, w) < h && 0 <= p % w < w
  {
    MulMonotone(h, p / w, w);
  }

  // The frame after its events: each adds one to its pixel, which stays at max once it is there.
  function Drawn(f: Format, dst: seq<nat>, max: nat, es: seq<Event>): (r: seq<nat>)
    requires Accepted(f) && BaseWidth(f) > 0 && forall i :: 0 <= i < |es| ==> PixelOf(f, es[i]) < |dst|
    ensures |r| == |dst|
    decreases |es|
  {
    if es == [] then dst else
    var d := Drawn(f, dst, max, es[..|es| - 1]);
    var p := PixelOf(f, es[|es| - 1]);
    if d[p] < max then d[p := d[p] + 1] else d
  }

  function Hits(f: Format, es: seq<Event>, p: nat): nat
    requires Accepted(f) && BaseWidth(f) > 0
  {
    if es == [] then 0 else Hits(f, es[..|es| - 1], p) + if PixelOf(f, es[|es| - 1]) == p then 1 else 0
  }

  // Every pixel ends up at its first value plus its events, or at the maximum.
  lemma {:induction false} DrawnCounts(f: Format, dst: seq<nat>, max: nat, es: seq<Event>, p: nat)
    requires Accepted(f) && BaseWidth(f) > 0 && (forall i :: 0 <= i < |es| ==> PixelOf(f, es[i]) < |dst|)
    requires p < |dst| && dst[p] <= max
    ensures Drawn(f, dst, max, es)[p] == if dst[p] + Hits(f, es, p) < max then dst[p] + Hits(f, es, p) else max
    decreases |es|
  {
    hide PixelOf;
    if es != [] {
      DrawnCounts(f, dst, max, es[..|es| - 1], p);
    }
  }

  // A pixel belongs to one base cell.
  lemma CellOfPixel(f: Format, a: Event, b: Event)
    requires Accepted(f) && BaseWidth(f) > 0 && PixelOf(f, a) == PixelOf(f, b)
    requires a.x < Factor(f) && a.y < Factor(f) && b.x < Factor(f) && b.y < Factor(f)
    ensures a.pos == b.pos
  {
    hide Factor;
    hide Place;
    hide BaseWidth;
    BaseSizes(f);
    var w, k := BaseWidth(f), Factor(f);
    var ra, ca, rb, cb := Quotient(a.pos, w), a.pos % w, Quotient(b.pos, w), b.pos % w;
    SplitPos(a.pos, w);
    SplitPos(b.pos, w);
    PlaceInside(ca, a.x, w, k);
    PlaceInside(cb, b.x, w, k);
    PlaceUnique(Place(ra, a.y, k), Place(ca, a.x, k), Place(rb, b.y, k), Place(cb, b.x, k), f.width);
    PlaceUnique(ra, a.y, rb, b.y, k);
    PlaceUnique(ca, a.x, cb, b.x, k);
  }

  lemma SplitPos(p: nat, w: nat)
    requires w > 0
    ensures 0 <= p % w < w && p == Quotient(p, w) * w + p % w
  {
  }

  // A frame hits no pixel twice.
  lemma {:induction false} OneHit(f: Format, es: seq<Event>, pos: nat, p: nat)
    requires Accepted(f) && BaseWidth(f) > 0 && InOrder(f, es, pos)
    ensures Hits(f, es, p) <= 1
    decreases |es|
  {
    hide PixelOf;
    hide Factor;
    hide Cells;
    if es != [] {
      var n := |es| - 1;
      OneHit(f, es[..n], pos, p);
      if PixelOf(f, es[n]) == p {
        NoneBefore(f, es, pos, p, n);
      }
    }
  }

  lemma {:induction false} NoneBefore(f: Format, es: seq<Event>, pos: nat, p: nat, i: nat)
    requires Accepted(f) && BaseWidth(f) > 0 && InOrder(f, es, pos) && |es| > 0 && i < |es| &&
             PixelOf(f, es[|es| - 1]) == p
    ensures Hits(f, es[..i], p) == 0
    decreases i
  {
    hide PixelOf;
    hide Factor;
    hide Cells;
    if i > 0 {
      NoneBefore(f, es, pos, p, i - 1);
      assert es[..i][..i - 1] == es[..i - 1];
      Increasing(f, es, pos, i - 1, |es| - 1);
      if PixelOf(f, es[i - 1]) == p {
        CellOfPixel(f, es[i - 1], es[|es| - 1]);
      }
    }
  }

  lemma {:induction false} Increasing(f: Format, es: seq<Event>, pos: nat, i: nat, j: nat)
    requires InOrder(f, es, pos) && i < j < |es|
    ensures es[i].pos < es[j].pos
    decreases j
  {
    hide Cells;
    hide Factor;
    if i < j - 1 {
      Increasing(f, es, pos, i, j - 1);
    }
  }
}
