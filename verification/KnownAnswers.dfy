/**
  Small streams byte for byte. The theorems of the other modules hold of any pair of a writer
  and a reader that agree; these streams fix the tables, headers and orders that the two agree on.
 */
module KnownAnswers {
  import opened Powers
  import opened Bits
  import opened HStream
  import opened HBitIO
  import opened HHuffman
  import opened HPlanes
  import opened HTransform
  import opened HScratch
  import opened HQtree
  import opened HBody
  import opened HSigns
  import opened HCoder
  import RiceSpec
  import Plio
  import PlioSpec

  // ---- bit strings as numbers ----

  lemma SmallPowers()
    ensures Pow2(0) == 1 && Pow2(1) == 2 && Pow2(2) == 4 && Pow2(3) == 8 && Pow2(4) == 16 && Pow2(5) == 32
    ensures Pow2(7) == 128 && Pow2(8) == 256
  {
    assert Pow2(4) == 16;
    Pow2Add(4, 3);
    Pow2Add(4, 4);
  }

  function Big(b: seq<byte>): nat
  {
    if b == [] then 0 else 256 * Big(b[..|b| - 1]) + b[|b| - 1]
  }

  lemma {:induction false} UnpackIsBig(b: seq<byte>)
    ensures Unpack(b) == Msb(Big(b), 8 * |b|)
    decreases |b|
  {
    hide Msb;
    SmallPowers();
    if b == [] {
      EmptyLow(0, []);
      assert [] + Msb(0, 0) == Msb(0, 0);
    } else {
      var n := |b| - 1;
      UnpackIsBig(b[..n]);
      MsbAppend(Big(b[..n]), b[n], 8 * n, 8);
    }
  }

  lemma PacksNumber(b: seq<byte>, v: nat, n: nat, z: nat)
    requires z < 8 && 8 * |b| == n + z && Big(b) == v * Pow2(z)
    ensures Packs(b, Msb(v, n))
  {
    hide Msb;
    UnpackIsBig(b);
    hide Unpack;
    hide Big;
    MsbOfZero(z);
    MsbAppend(v, 0, n, z);
  }

  lemma Join(v: nat, a: nat, w: nat, b: nat, x: nat)
    requires w < Pow2(b) && x == v * Pow2(b) + w
    ensures Msb(v, a) + Msb(w, b) == Msb(x, a + b)
  {
    MsbAppend(v, w, a, b);
  }

  // ---- Rice ----

  // The differences 0 and 2 at split level 0, behind the head 1.
  lemma RiceBlock(k: RiceSpec.Coder)
    requires RiceSpec.IsCoder(k)
    ensures RiceSpec.BlockBits(k, [0, 4]) == Msb(1, k.fsbits) + Msb(33, 6)
  {
    assert RiceSpec.Sum([0, 4]) == 4 by {
      assert [0, 4][..1] == [0] && [0][..0] == [];
      assert RiceSpec.Sum([0]) == 0;
    }
    assert RiceSpec.Split([0, 4]) == 0;
    hide RiceSpec.Sum;
    hide RiceSpec.Split;
    hide RiceSpec.RiceCode;
    hide Msb;
    ShortCodes();
    assert [0, 4][1..] == [4] && [4][1..] == [];
    assert RiceSpec.RiceCode(4, 0) + [] == RiceSpec.RiceCode(4, 0);
    assert RiceSpec.Codes(k, 0, [4]) == RiceSpec.RiceCode(4, 0) + RiceSpec.Codes(k, 0, []);
    assert RiceSpec.Codes(k, 0, [0, 4]) == RiceSpec.RiceCode(0, 0) + RiceSpec.RiceCode(4, 0);
  }

  lemma ShortCodes()
    ensures RiceSpec.RiceCode(0, 0) + RiceSpec.RiceCode(4, 0) == Msb(33, 6)
  {
    assert RiceSpec.RiceCode(0, 0) == [true];
    assert RiceSpec.RiceCode(4, 0) == [false, false, false, false, true];
    hide RiceSpec.RiceCode;
    assert Msb(33, 6) == [true, false, false, false, false, true];
  }

  lemma SmallDiff(a: int, b: int, w: nat)
    requires w >= 4 && 0 <= b - a <= 4
    ensures RiceSpec.Diff(b, a, w) == 2 * (b - a)
  {
    Pow2Monotone(3, w - 1);
    SmallPowers();
    QuotientUnique(b - a + Pow2(w - 1), Pow2(w), 0, b - a + Pow2(w - 1));
  }

  lemma TwoPixels(k: RiceSpec.Coder)
    requires RiceSpec.IsCoder(k)
    ensures RiceSpec.LineBits(k, [10, 12], 32) == Msb(10, k.bbits) + Msb(1, k.fsbits) + Msb(33, 6)
  {
    hide Msb;
    hide RiceSpec.BlockBits;
    hide RiceSpec.Diff;
    SmallDiff(10, 10, k.bbits);
    SmallDiff(10, 12, k.bbits);
    assert RiceSpec.Diffs([10, 12], 10, k.bbits) == [0, 4];
    RiceBlock(k);
    OneBlock(k, [10, 12], 10, [0, 4]);
  }

  lemma OneBlock(k: RiceSpec.Coder, a: seq<int>, last: int, d: seq<nat>)
    requires k.bbits > 0 && 0 < |a| <= 32 && d == RiceSpec.Diffs(a, last, k.bbits)
    ensures RiceSpec.Blocks(k, a, last, 32) == RiceSpec.BlockBits(k, d)
  {
    hide RiceSpec.BlockBits;
    hide RiceSpec.Diff;
    assert a[..|a|] == a && a[|a|..] == [];
    assert RiceSpec.BlockBits(k, d) + [] == RiceSpec.BlockBits(k, d);
  }

  lemma BigSnoc(b: seq<byte>, x: byte, c: seq<byte>)
    requires c == b + [x]
    ensures Big(c) == 256 * Big(b) + x
  {
    assert c[..|b|] == b;
  }

  lemma BigBytes()
    ensures Big([10, 0x30, 0x80]) == 0x0A3080 && Big([0, 10, 0x18, 0x40]) == 0x0A1840
    ensures Big([0, 0, 0, 10, 0x0C, 0x20]) == 0x0A0C20
  {
    BigSnoc([], 10, [10]);
    BigSnoc([10], 0x30, [10, 0x30]);
    BigSnoc([10, 0x30], 0x80, [10, 0x30, 0x80]);
    BigSnoc([], 0, [0]);
    BigSnoc([0], 10, [0, 10]);
    BigSnoc([0, 10], 0x18, [0, 10, 0x18]);
    BigSnoc([0, 10, 0x18], 0x40, [0, 10, 0x18, 0x40]);
    BigSnoc([0], 0, [0, 0]);
    BigSnoc([0, 0], 0, [0, 0, 0]);
    BigSnoc([0, 0, 0], 10, [0, 0, 0, 10]);
    BigSnoc([0, 0, 0, 10], 0x0C, [0, 0, 0, 10, 0x0C]);
    BigSnoc([0, 0, 0, 10, 0x0C], 0x20, [0, 0, 0, 10, 0x0C, 0x20]);
  }

  // The pixels 10 and 12 in the three widths.
  lemma RiceBytes()
    ensures Packs([10, 0x30, 0x80], RiceSpec.LineBits(RiceSpec.BYTES, [10, 12], 32))
    ensures Packs([0, 10, 0x18, 0x40], RiceSpec.LineBits(RiceSpec.SHORTS, [10, 12], 32))
    ensures Packs([0, 0, 0, 10, 0x0C, 0x20], RiceSpec.LineBits(RiceSpec.INTS, [10, 12], 32))
  {
    hide RiceSpec.LineBits;
    hide Msb;
    hide Packs;
    SmallPowers();
    assert Pow2(6) == 64;
    hide Pow2;
    BigBytes();
    hide Big;
    TwoPixels(RiceSpec.BYTES);
    Join(10, 8, 1, 3, 81);
    Join(81, 11, 33, 6, 5217);
    PacksNumber([10, 0x30, 0x80], 5217, 17, 7);
    TwoPixels(RiceSpec.SHORTS);
    Join(10, 16, 1, 4, 161);
    Join(161, 20, 33, 6, 10337);
    PacksNumber([0, 10, 0x18, 0x40], 10337, 26, 6);
    TwoPixels(RiceSpec.INTS);
    Join(10, 32, 1, 5, 321);
    Join(321, 37, 33, 6, 20577);
    PacksNumber([0, 0, 0, 10, 0x0C, 0x20], 20577, 43, 5);
  }

  // A block of equal pixels takes its head only.
  lemma RiceZeros(k: RiceSpec.Coder)
    requires RiceSpec.IsCoder(k)
    ensures RiceSpec.BlockBits(k, [0, 0]) == Msb(0, k.fsbits)
  {
    TwoSum(0, 0);
    assert RiceSpec.Split([0, 0]) == 0;
    hide RiceSpec.Sum;
    hide RiceSpec.Split;
    hide Msb;
  }

  // A block with a difference of all bits is stored directly.
  lemma RiceDirect(k: RiceSpec.Coder)
    requires RiceSpec.IsCoder(k)
    ensures var direct := if k == RiceSpec.BYTES then 7 else if k == RiceSpec.SHORTS then 15 else 26;
            RiceSpec.BlockBits(k, [0, Pow2(k.bbits) - 1])
              == Msb(direct, k.fsbits) + (Msb(0, k.bbits) + Msb(Pow2(k.bbits) - 1, k.bbits))
  {
    hide RiceSpec.Sum;
    hide RiceSpec.Split;
    hide RiceSpec.Codes;
    hide Msb;
    hide Pow2;
    LargeSplit(k.bbits);
    DirectCodes(k, 0, Pow2(k.bbits) - 1);
  }

  lemma TwoSum(a: nat, b: nat)
    ensures RiceSpec.Sum([a, b]) == a + b
  {
    assert [a, b][..1] == [a] && [a][..0] == [];
    assert RiceSpec.Sum([a]) == a;
  }

  lemma LargeSplit(w: nat)
    requires w >= 4
    ensures RiceSpec.Split([0, Pow2(w) - 1]) >= w - 2
  {
    hide Pow2;
    hide BitLength;
    hide RiceSpec.Split;
    var p := Pow2(w - 3);
    SmallPowers();
    Pow2Add(3, w - 3);
    SplitOfTwo(8 * p - 1);
    Quarter(p);
    BitLengthAbove(2 * p - 1, w - 3);
  }

  lemma Quarter(p: nat)
    requires p > 0
    ensures (8 * p - 3) / 2 / 2 == 2 * p - 1
  {
  }

  lemma SplitOfTwo(a: nat)
    requires a >= 2
    ensures RiceSpec.Split([0, a]) == BitLength((a - 2) / 2 / 2)
  {
    TwoSum(0, a);
    hide RiceSpec.Sum;
    hide BitLength;
  }

  lemma DirectCodes(k: RiceSpec.Coder, a: nat, b: nat)
    ensures RiceSpec.Codes(k, k.fsmax, [a, b]) == Msb(a, k.bbits) + Msb(b, k.bbits)
  {
    hide Msb;
    assert [a, b][1..] == [b] && [b][1..] == [];
    assert RiceSpec.Codes(k, k.fsmax, [b]) == Msb(b, k.bbits) + [];
    assert Msb(b, k.bbits) + [] == Msb(b, k.bbits);
  }

  // ---- quadtrees ----

  // A plane of two by two marks takes a single code.
  lemma SmallPlane(v: nybble)
    ensures var pl := [v / 8 % 2, v / 4 % 2, v / 2 % 2, v % 2];
            IsPlane(pl, 2, 2) && PlaneBits(pl, 2, 2) == Msb(15, 4) + Huff(v)
  {
    hide Huff;
    hide Msb;
    hide CodesBack;
    var pl: seq<mark> := [v / 8 % 2, v / 4 % 2, v / 2 % 2, v % 2];
    OneLevel();
    FourMarks(pl, v);
    assert Level(pl, 2, 2, 1) == [v];
    OneCode(v);
    assert TreeBits(pl, 2, 2, 0) == [];
    assert TreeBits(pl, 2, 2, 1) == CodesBack([v]) + [];
  }

  lemma OneLevel()
    ensures Depth(2, 2) == 1 && BufferSize(2, 2) == 1
  {
  }

  lemma FourMarks(pl: seq<mark>, v: nybble)
    requires pl == [v / 8 % 2, v / 4 % 2, v / 2 % 2, v % 2]
    ensures Packed(pl, 2, 2) == [v]
  {
    assert Block(pl, 2, 2, 0, 0) == Nybble(pl[0], pl[1], pl[2], pl[3]);
    hide Block;
    SameNybble(v);
  }

  lemma SameNybble(v: nybble)
    ensures Nybble(v / 8 % 2, v / 4 % 2, v / 2 % 2, v % 2) == v
  {
    hide Nybble;
    BinaryDigits(v);
    NybbleIs(v / 8 % 2, v / 4 % 2, v / 2 % 2, v % 2);
  }

  lemma NybbleIs(a: mark, b: mark, c: mark, d: mark)
    ensures Nybble(a, b, c, d) == 8 * a + 4 * b + 2 * c + d
  {
  }

  lemma BinaryDigits(v: nybble)
    ensures v == 8 * (v / 8 % 2) + 4 * (v / 4 % 2) + 2 * (v / 2 % 2) + v % 2
  {
    assert v / 4 == v / 2 / 2 && v / 8 == v / 4 / 2;
  }

  lemma OneCode(v: nybble)
    ensures CodesBack([v]) == if v == 0 then [] else Huff(v)
  {
    hide Huff;
    CodesSnoc([], v);
    assert [] + [v] == [v];
  }

  // The codes are those that their lengths determine: shorter codes first, equal ones by value, and none left over.
  lemma CanonicalCode(v: nybble, w: nybble)
    ensures NCODE[v] == if v in {1, 2, 4, 8} then 3 else if v in {3, 5, 10, 12, 15} then 4
                        else if v in {0, 14} then 6 else 5
    ensures NCODE[v] < NCODE[w] || (NCODE[v] == NCODE[w] && v < w) ==>
            (CODE[v] + 1) * Pow2(6 - NCODE[v]) <= CODE[w] * Pow2(6 - NCODE[w])
    ensures v == 1 ==> CODE[v] == 0
    ensures v == 14 ==> CODE[v] + 1 == Pow2(NCODE[v])
  {
    SmallPowers();
    assert Pow2(6) == 64;
  }

  // Marks in two opposite corners of a plane of four by four.
  const CORNERS: seq<mark> := seq(16, x => if x == 0 || x == 15 then 1 else 0)

  lemma BlockIs(s: seq<mark>, i: nat, j: nat, x: nat, a: mark, b: mark, c: mark, d: mark)
    requires |s| == 16 && i < 2 && j < 2 && x == 8 * i + 2 * j
    requires s[x] == a && s[x + 1] == b && s[x + 4] == c && s[x + 5] == d
    ensures |s| == Cells(4, 4) && Block(s, 4, 4, i, j) == 8 * a + 4 * b + 2 * c + d
  {
    hide Nybble;
    NybbleIs(a, b, c, d);
  }

  lemma CornerBlock(i: nat, j: nat)
    requires i < 2 && j < 2
    ensures |CORNERS| == Cells(4, 4) && Block(CORNERS, 4, 4, i, j) == if i != j then 0 else if i == 0 then 8 else 1
  {
    hide Block;
    var a, d := if i == 0 && j == 0 then 1 else 0, if i == 1 && j == 1 then 1 else 0;
    BlockIs(CORNERS, i, j, 8 * i + 2 * j, a, 0, 0, d);
  }

  lemma CornerBlocks()
    ensures |CORNERS| == Cells(4, 4) && Packed(CORNERS, 4, 4) == [8, 0, 0, 1]
  {
    hide Block;
    hide Packed;
    hide CORNERS;
    hide Cells;
    hide Nybble;
    CornerBlock(0, 0);
    CornerBlock(0, 1);
    CornerBlock(1, 0);
    CornerBlock(1, 1);
    FourBlocks(CORNERS, 8, 0, 0, 1);
  }

  lemma CornerLevels()
    ensures IsPlane(CORNERS, 4, 4) && Level(CORNERS, 4, 4, 1) == [8, 0, 0, 1] && Level(CORNERS, 4, 4, 2) == [9]
  {
    hide Packed;
    hide CORNERS;
    CornerBlocks();
    TwoLevels();
    FourMarks([1, 0, 0, 1], 9);
    assert NonZero([8, 0, 0, 1]) == [1, 0, 0, 1];
  }

  // A larger plane is coded from the top nybble down, every level from its last nybble to its first.
  lemma LargerPlane()
    ensures IsPlane(CORNERS, 4, 4)
    ensures PlaneBits(CORNERS, 4, 4) == Msb(15, 4) + (Huff(9) + (Huff(1) + Huff(8)))
  {
    hide Huff;
    hide Msb;
    hide CodesBack;
    hide Nybbles;
    hide Level;
    hide TreeBits;
    hide CORNERS;
    hide Depth;
    hide BufferSize;
    CornerLevels();
    TwoLevels();
    OneCode(9);
    FourCodes(8, 0, 0, 1);
    TreeStep(CORNERS, 4, 4, 2);
    TreeStep(CORNERS, 4, 4, 1);
    NoLevels(CORNERS, 4, 4);
    assert CodesBack([8, 0, 0, 1]) + [] == CodesBack([8, 0, 0, 1]);
    Lengths();
  }

  lemma Lengths()
    ensures |Huff(9)| == 5 && |Huff(1)| == 3 && |Huff(8)| == 3
  {
  }

  lemma TwoLevels()
    ensures Depth(4, 4) == 2 && BufferSize(4, 4) == 2 && Top(4, 1) == 2
  {
  }

  lemma FourBlocks(pl: seq<mark>, a: nybble, b: nybble, c: nybble, d: nybble)
    requires |pl| == Cells(4, 4) && Block(pl, 4, 4, 0, 0) == a && Block(pl, 4, 4, 0, 1) == b
    requires Block(pl, 4, 4, 1, 0) == c && Block(pl, 4, 4, 1, 1) == d
    ensures Packed(pl, 4, 4) == [a, b, c, d]
  {
    hide Block;
  }

  lemma FourCodes(a: nybble, b: nybble, c: nybble, d: nybble)
    requires b == 0 && c == 0 && a != 0 && d != 0
    ensures CodesBack([a, b, c, d]) == Huff(d) + Huff(a)
  {
    hide Huff;
    OneCode(a);
    CodesSnoc([a], b);
    CodesSnoc([a, b], c);
    CodesSnoc([a, b, c], d);
    assert [a] + [b] == [a, b] && [a, b] + [c] == [a, b, c] && [a, b, c] + [d] == [a, b, c, d];
  }

  // ---- the H-compress stream ----

  // Magic number, rows, columns, scale, the sum of all pixels, and the plane counts.
  lemma HeaderBytes()
    ensures Header(2, 3, 7, -5, PlaneCounts(0, 2, 1)) == [0xDD, 0x99, 0, 0, 0, 2, 0, 0, 0, 3, 0, 0, 0, 7,
              0xFF, 0xFF, 0xFF, 0xFF, 0xFF, 0xFF, 0xFF, 0xFB, 0, 2, 1]
  {
    FourBytes(2);
    FourBytes(3);
    FourBytes(7);
    MinusFive();
    hide BigEndian;
  }

  lemma FourBytes(v: byte)
    ensures BigEndian(v, 4) == [0, 0, 0, v]
  {
    assert BigEndian(0, 1) == [0];
    assert BigEndian(0, 2) == [0, 0];
    assert BigEndian(0, 3) == [0, 0, 0];
  }

  lemma MinusFive()
    ensures BigEndian(-5, 8) == [0xFF, 0xFF, 0xFF, 0xFF, 0xFF, 0xFF, 0xFF, 0xFB]
  {
    assert BigEndian(-1, 1) == [0xFF];
    assert BigEndian(-1, 2) == [0xFF, 0xFF];
    assert BigEndian(-1, 3) == [0xFF, 0xFF, 0xFF];
    assert BigEndian(-1, 4) == [0xFF, 0xFF, 0xFF, 0xFF];
    assert BigEndian(-1, 5) == [0xFF, 0xFF, 0xFF, 0xFF, 0xFF];
    assert BigEndian(-1, 6) == [0xFF, 0xFF, 0xFF, 0xFF, 0xFF, 0xFF];
    assert BigEndian(-1, 7) == [0xFF, 0xFF, 0xFF, 0xFF, 0xFF, 0xFF, 0xFF];
  }

  lemma OneMark(m: mark)
    ensures IsPlane([m], 1, 1) && Level([m], 1, 1, 1) == [8 * m]
  {
    hide Packed;
    hide Block;
    OneBlockOnly(m);
  }

  // A plane of a single mark.
  lemma OneCell(m: mark)
    ensures IsPlane([m], 1, 1) && PlaneBits([m], 1, 1) == if m == 1 then Msb(0x7B, 7) else Msb(0x3FE, 10)
  {
    hide Huff;
    hide Msb;
    hide CodesBack;
    hide Nybbles;
    hide Level;
    hide TreeBits;
    hide Depth;
    hide BufferSize;
    OneDeep();
    OneMark(m);
    OneCode(8 * m);
    TreeStep([m], 1, 1, 1);
    NoLevels([m], 1, 1);
    assert CodesBack([8 * m]) + [] == CodesBack([8 * m]);
    PlaneCodes();
  }

  lemma OneDeep()
    ensures Depth(1, 1) == 1 && BufferSize(1, 1) == 1
  {
  }

  lemma OneBlockOnly(m: mark)
    ensures Packed([m], 1, 1) == [8 * m]
  {
    assert Block([m], 1, 1, 0, 0) == 8 * m;
    hide Block;
  }

  lemma PlaneCodes()
    ensures Msb(15, 4) + Huff(8) == Msb(0x7B, 7) && Msb(15, 4) + Huff(0) == Msb(0x3FE, 10)
  {
    SmallPowers();
    assert Pow2(6) == 64;
    assert Huff(8) == Msb(3, 3) && Huff(0) == Msb(0x3E, 6);
    hide Huff;
    hide Msb;
    hide Pow2;
    Join(15, 4, 3, 3, 0x7B);
    Join(15, 4, 0x3E, 6, 0x3FE);
  }

  // The magnitudes of a two by two image, a quadrant each.
  const SMALL := [0, 3, 2, 1]

  lemma SmallCounts()
    ensures Counts(SMALL, 2, 2) == PlaneCounts(0, 2, 1)
  {
    assert ClassOf(0, 2, 2) == 0 && ClassOf(1, 2, 2) == 1 && ClassOf(2, 2, 2) == 1 && ClassOf(3, 2, 2) == 2;
    hide ClassOf;
    LargestOf(0, 0, 0, 0, 0);
    LargestOf(1, 0, 3, 3, 3);
    LargestOf(2, 0, 0, 0, 1);
    assert BitLength(0) == 0 && BitLength(1) == 1 && BitLength(3) == 2;
    hide MaxOf;
    hide BitLength;
  }

  lemma LargestOf(c: nat, a: nat, b: nat, d: nat, e: nat)
    requires ClassOf(0, 2, 2) == 0 && ClassOf(1, 2, 2) == 1 && ClassOf(2, 2, 2) == 1 && ClassOf(3, 2, 2) == 2
    requires (c, a, b, d, e) in {(0, 0, 0, 0, 0), (1, 0, 3, 3, 3), (2, 0, 0, 0, 1)}
    ensures MaxOf(SMALL, 4, 2, 2, c) == e
  {
    hide ClassOf;
    assert MaxOf(SMALL, 0, 2, 2, c) == 0;
    assert MaxOf(SMALL, 1, 2, 2, c) == a;
    assert MaxOf(SMALL, 2, 2, 2, c) == b;
    assert MaxOf(SMALL, 3, 2, 2, c) == d;
  }

  lemma SmallQuadrants()
    ensures forall q :: 0 <= q < 4 ==> Quadrant(2, 2, q) == Rect(q, 1, 1) && Fits(q, 2, 1, 1, 4)
  {
  }

  lemma SmallPlanes(q: nat, b: nat)
    requires q < 4 && Fits(q, 2, 1, 1, 4)
    ensures Plane(SMALL, q, 2, 1, 1, b) == [Bit(SMALL[q], b)]
  {
    hide Bit;
  }

  lemma SmallDigits()
    ensures Bit(3, 1) == 1 && Bit(3, 0) == 1 && Bit(2, 1) == 1 && Bit(2, 0) == 0 && Bit(1, 0) == 1
  {
    SmallPowers();
  }

  lemma SmallQuad(q: nat, nb: nat)
    requires q < 4 && Fits(q, 2, 1, 1, 4) && nb > 0
    ensures QuadBits(SMALL, q, 2, 1, 1, nb)
         == (if Bit(SMALL[q], nb - 1) == 1 then Msb(0x7B, 7) else Msb(0x3FE, 10)) + QuadBits(SMALL, q, 2, 1, 1, nb - 1)
  {
    hide Bit;
    hide Msb;
    hide PlaneBits;
    hide Plane;
    hide Fits;
    SmallPlanes(q, nb - 1);
    OneCell(Bit(SMALL[q], nb - 1));
  }

  lemma NoPlanes(q: nat)
    requires q < 4 && Fits(q, 2, 1, 1, 4)
    ensures QuadBits(SMALL, q, 2, 1, 1, 0) == []
  {
  }

  lemma SmallIsImage()
    ensures IsImage(SMALL, 2, 2) && |SMALL| == 4
  {
  }

  lemma SmallQuadrant(q: nat, nb: PlaneCounts)
    requires IsImage(SMALL, 2, 2) && q < 4
    ensures Fits(q, 2, 1, 1, |SMALL|) && QuadrantBits(SMALL, 2, 2, nb, q) == QuadBits(SMALL, q, 2, 1, 1, CountOf(nb, q))
  {
    hide QuadBits;
    SmallIsImage();
    SmallQuadrants();
  }

  lemma SmallFits(q: nat)
    requires q < 4
    ensures Fits(q, 2, 1, 1, 4)
  {
    SmallQuadrants();
  }

  lemma OnePlane(q: nat, d: mark)
    requires q < 4 && Fits(q, 2, 1, 1, 4) && Bit(SMALL[q], 0) == d
    ensures QuadBits(SMALL, q, 2, 1, 1, 1) == if d == 1 then Msb(0x7B, 7) else Msb(0x3FE, 10)
  {
    hide Bit;
    hide Msb;
    hide Fits;
    hide QuadBits;
    SmallQuad(q, 1);
    NoPlanes(q);
    assert Msb(0x7B, 7) + [] == Msb(0x7B, 7) && Msb(0x3FE, 10) + [] == Msb(0x3FE, 10);
  }

  // The planes of a quadrant, the highest first.
  lemma TwoPlanes(q: nat, d: mark)
    requires q < 4 && Fits(q, 2, 1, 1, 4) && Bit(SMALL[q], 1) == 1 && Bit(SMALL[q], 0) == d
    ensures QuadBits(SMALL, q, 2, 1, 1, 2) == Msb(0x7B, 7) + if d == 1 then Msb(0x7B, 7) else Msb(0x3FE, 10)
  {
    hide Bit;
    hide Msb;
    hide Fits;
    hide QuadBits;
    SmallQuad(q, 2);
    OnePlane(q, d);
  }

  lemma SmallQuads()
    ensures IsImage(SMALL, 2, 2)
    ensures var nb := PlaneCounts(0, 2, 1);
            QuadrantBits(SMALL, 2, 2, nb, 0) == [] &&
            QuadrantBits(SMALL, 2, 2, nb, 1) == Msb(0x7B, 7) + Msb(0x7B, 7) &&
            QuadrantBits(SMALL, 2, 2, nb, 2) == Msb(0x7B, 7) + Msb(0x3FE, 10) &&
            QuadrantBits(SMALL, 2, 2, nb, 3) == Msb(0x7B, 7)
  {
    hide Msb;
    hide Fits;
    hide QuadBits;
    hide QuadrantBits;
    SmallDigits();
    SmallIsImage();
    hide Bit;
    hide IsImage;
    var nb := PlaneCounts(0, 2, 1);
    forall q | 0 <= q < 4
      ensures Fits(q, 2, 1, 1, 4) && QuadrantBits(SMALL, 2, 2, nb, q) == QuadBits(SMALL, q, 2, 1, 1, CountOf(nb, q))
    {
      SmallFits(q);
      SmallQuadrant(q, nb);
    }
    NoPlanes(0);
    TwoPlanes(1, 1);
    TwoPlanes(2, 0);
    OnePlane(3, 1);
  }

  lemma SmallBody()
    ensures IsImage(SMALL, 2, 2) && BodyFrom(SMALL, 2, 2, PlaneCounts(0, 2, 1), 0) == Msb(4259525425072, 42)
  {
    hide QuadrantBits;
    hide Msb;
    hide SMALL;
    SmallQuads();
    JoinedPlanes();
    var nb := PlaneCounts(0, 2, 1);
    var one, two, end := Msb(0x7B, 7), Msb(0x3FE, 10), Msb(0, 4);
    assert BodyFrom(SMALL, 2, 2, nb, 4) == end;
    assert BodyFrom(SMALL, 2, 2, nb, 3) == one + end;
    assert BodyFrom(SMALL, 2, 2, nb, 2) == one + two + (one + end);
    assert BodyFrom(SMALL, 2, 2, nb, 1) == one + one + (one + two + (one + end));
    assert BodyFrom(SMALL, 2, 2, nb, 0) == [] + BodyFrom(SMALL, 2, 2, nb, 1);
    assert [] + (one + one + (one + two + (one + end))) == one + one + one + two + one + end;
  }

  lemma JoinedPlanes()
    ensures Msb(0x7B, 7) + Msb(0x7B, 7) + Msb(0x7B, 7) + Msb(0x3FE, 10) + Msb(0x7B, 7) + Msb(0, 4)
         == Msb(4259525425072, 42)
  {
    SmallPowers();
    assert Pow2(10) == 1024 by { Pow2Add(8, 2); }
    hide Msb;
    hide Pow2;
    Join(0x7B, 7, 0x7B, 7, 15867);
    Join(15867, 14, 0x7B, 7, 2031099);
    Join(2031099, 21, 0x3FE, 10, 2079846398);
    Join(2079846398, 31, 0x7B, 7, 266220339067);
    Join(266220339067, 38, 0, 4, 4259525425072);
  }

  lemma PacksBehind(h: seq<byte>, b: seq<byte>, s: bits)
    requires Packs(b, s)
    ensures Packs(h + b, Unpack(h) + s)
  {
    hide Unpack;
    UnpackConcat(h, b);
    Associative(Unpack(h), s, Zeros(8 * |b| - |s|));
  }

  lemma BodyBytes()
    ensures Packs([0xF7, 0xEF, 0xDF, 0xFD, 0xEC, 0], Msb(4259525425072, 42)) && Packs([0x80], Msb(4, 3))
  {
    BigSnoc([], 0xF7, [0xF7]);
    BigSnoc([0xF7], 0xEF, [0xF7, 0xEF]);
    BigSnoc([0xF7, 0xEF], 0xDF, [0xF7, 0xEF, 0xDF]);
    BigSnoc([0xF7, 0xEF, 0xDF], 0xFD, [0xF7, 0xEF, 0xDF, 0xFD]);
    BigSnoc([0xF7, 0xEF, 0xDF, 0xFD], 0xEC, [0xF7, 0xEF, 0xDF, 0xFD, 0xEC]);
    BigSnoc([0xF7, 0xEF, 0xDF, 0xFD, 0xEC], 0, [0xF7, 0xEF, 0xDF, 0xFD, 0xEC, 0]);
    BigSnoc([], 0x80, [0x80]);
    assert Big([]) == 0;
    SmallPowers();
    assert Pow2(6) == 64;
    hide Big;
    hide Pow2;
    hide Msb;
    hide Packs;
    PacksNumber([0xF7, 0xEF, 0xDF, 0xFD, 0xEC, 0], 4259525425072, 42, 6);
    PacksNumber([0x80], 4, 3, 5);
  }

  lemma SmallSigns()
    ensures SignBits([0, -3, 2, 1]) == Msb(4, 3)
  {
    SignsSnoc([], 0);
    SignsSnoc([0], -3);
    SignsSnoc([0, -3], 2);
    SignsSnoc([0, -3, 2], 1);
    assert [] + [0] == [0] && [0] + [-3] == [0, -3] && [0, -3] + [2] == [0, -3, 2] && [0, -3, 2] + [1] == [0, -3, 2, 1];
    hide SignBits;
    assert Msb(4, 3) == [true, false, false];
  }

  lemma SmallHeader()
    ensures Header(2, 2, 7, 5, PlaneCounts(0, 2, 1)) == [0xDD, 0x99, 0, 0, 0, 2, 0, 0, 0, 2, 0, 0, 0, 7,
              0, 0, 0, 0, 0, 0, 0, 5, 0, 2, 1]
  {
    FourBytes(2);
    FourBytes(7);
    EightBytes();
    hide BigEndian;
  }

  lemma EightBytes()
    ensures BigEndian(5, 8) == [0, 0, 0, 0, 0, 0, 0, 5]
  {
    FourBytes(0);
    assert BigEndian(0, 5) == [0, 0, 0, 0, 0];
    assert BigEndian(0, 6) == [0, 0, 0, 0, 0, 0];
    assert BigEndian(0, 7) == [0, 0, 0, 0, 0, 0, 0];
  }

  // The whole stream of the coefficients 5, -3, 2, 1 with scale 7.
  lemma SmallStream()
    ensures IsImage([5, -3, 2, 1], 2, 2)
    ensures Encodes([0xDD, 0x99, 0, 0, 0, 2, 0, 0, 0, 2, 0, 0, 0, 7, 0, 0, 0, 0, 0, 0, 0, 5, 0, 2, 1,
                     0xF7, 0xEF, 0xDF, 0xFD, 0xEC, 0, 0x80], [5, -3, 2, 1], 2, 2, 7)
  {
    SmallCoded();
    SmallCounts();
    SmallBody();
    BodyBytes();
    SmallSigns();
    SmallHeader();
    hide Msb;
    hide Unpack;
    hide Packs;
    hide SignBits;
    hide BodyFrom;
    hide Counts;
    hide Header;
    hide SMALL;
    hide Coded;
    var h, b := Header(2, 2, 7, 5, PlaneCounts(0, 2, 1)), [0xF7, 0xEF, 0xDF, 0xFD, 0xEC, 0];
    PacksBehind(h, b, Msb(4259525425072, 42));
    assert [5, -3, 2, 1][0 := 0] == [0, -3, 2, 1];
    StreamParts([5, -3, 2, 1], h, b, [0x80]);
    assert h + b + [0x80] == [0xDD, 0x99, 0, 0, 0, 2, 0, 0, 0, 2, 0, 0, 0, 7, 0, 0, 0, 0, 0, 0, 0, 5, 0, 2, 1,
        0xF7, 0xEF, 0xDF, 0xFD, 0xEC, 0, 0x80];
  }

  lemma SmallCoded()
    ensures Coded([5, -3, 2, 1]) == SMALL && IsImage([5, -3, 2, 1], 2, 2)
  {
    assert [5, -3, 2, 1][0 := 0] == [0, -3, 2, 1];
  }

  lemma StreamParts(orig: seq<int>, h: seq<byte>, b: seq<byte>, signs: seq<byte>)
    requires IsImage(orig, 2, 2) && |Body(orig, 2, 2)| == 42 && |b| == 6
    requires h == Header(2, 2, 7, orig[0], Counts(Coded(orig), 2, 2))
    requires Packs(h + b, Unpack(h) + Body(orig, 2, 2)) && Packs(signs, SignBits(orig[0 := 0]))
    ensures Encodes(h + b + signs, orig, 2, 2, 7)
  {
    hide Unpack;
    hide Packs;
    hide SignBits;
    hide Body;
    hide Counts;
    hide Header;
    hide Coded;
    assert (h + b + signs)[..31] == h + b && (h + b + signs)[31..] == signs;
  }

  // ---- PLIO ----

  lemma Segment(p: seq<nat>, hi: int, nz: nat, v: nat, np: nat, rest: seq<nat>)
    requires v > 0 && np > 0 && nz + np <= |p| && rest == p[nz + np..] && (rest == [] || rest[0] != v)
    requires (forall i :: 0 <= i < nz ==> p[i] == 0) && (forall i :: nz <= i < nz + np ==> p[i] == v)
    ensures PlioSpec.Words(p, hi) == PlioSpec.SegmentWords(nz, v, np, hi) + PlioSpec.Words(rest, v)
  {
    hide PlioSpec.SegmentWords;
    hide PlioSpec.RunOf;
    Plio.RunIs(p, 0, nz);
    Plio.RunIs(p[nz..], v, np);
    assert p[nz..][np..] == rest;
  }

  lemma Segments()
    ensures PlioSpec.SegmentWords(2, 5, 2, 1) == [8196, 2, 16386]
    ensures PlioSpec.SegmentWords(1, 7, 1, 5) == [8194, 20482]
    ensures PlioSpec.SegmentWords(0, 3, 1, 7) == [28676]
  {
  }

  // A header, a run behind zeros, a pixel behind a zero, and a pixel on its own.
  lemma PlioList()
    ensures Plio.HeaderWords(13) + PlioSpec.Words([0, 0, 5, 5, 0, 7, 3], 1)
         == [0, 7, -100, 13, 0, 0, 0, 8196, 2, 16386, 8194, 20482, 28676]
  {
    hide PlioSpec.Words;
    hide PlioSpec.SegmentWords;
    Segments();
    Segment([0, 0, 5, 5, 0, 7, 3], 1, 2, 5, 2, [0, 7, 3]);
    Segment([0, 7, 3], 5, 1, 7, 1, [3]);
    Segment([3], 7, 0, 3, 1, []);
    NoWords();
  }

  lemma NoWords()
    ensures PlioSpec.Words([], 3) == []
  {
  }
}
