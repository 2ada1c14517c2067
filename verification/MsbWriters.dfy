/** A most-significant-bit-first writer that buffers up to seven bits. */
module MsbWriters {
  import opened Powers
  import opened Bits

  const WORD := 0x1_0000_0000

  // Appending a code to an accumulator of m bits keeps the pending bits.
  lemma Accumulate(acc: nat, nacc: nat, code: nat, width: nat, m: nat)
    requires nacc + width <= m && code < Pow2(width)
    ensures Msb(acc * Pow2(width) % Pow2(m) + code, nacc + width) == Msb(acc, nacc) + Msb(code, width)
  {
    var p, high := Pow2(width), Pow2(m - width);
    var q := acc * p / Pow2(m);
    Pow2Add(m - width, width);
    ModuloAsShift(acc * p, q, high, p);
    Regroup(acc, q, high, p);
    MsbAppend(acc - q * high, code, nacc, width);
    PendingKept(acc, nacc, q, m - width);
  }

  lemma PendingKept(acc: int, nacc: nat, q: int, n: nat)
    requires nacc <= n
    ensures Msb(acc - q * Pow2(n), nacc) == Msb(acc, nacc)
  {
    Pow2Add(n - nacc, nacc);
    Regroup(0, q, Pow2(n - nacc), Pow2(nacc));
    MsbLow(acc - q * Pow2(n), acc, nacc, q * Pow2(n - nacc));
  }

  lemma Regroup(a: int, q: int, h: int, p: int)
    ensures a * p - q * (h * p) == (a - q * h) * p
    ensures q * (h * p) == (q * h) * p
  {
  }

  lemma WordIsPow()
    ensures WORD == Pow2(32) && Pow2(8) == 256
  {
    Pow2Add(16, 16);
    Pow2Add(8, 8);
    assert Pow2(4) == 16;
    assert Pow2(8) == 256;
  }

  // The top byte leaves the pending bits, whatever lies above them.
  lemma TakeByte(acc: nat, nacc: nat)
    requires nacc >= 8
    ensures Msb(acc, nacc) == Msb(acc / Pow2(nacc - 8) % 256, 8) + Msb(acc, nacc - 8)
  {
    WordIsPow();
    MsbSplit(acc, 8, nacc - 8);
    MsbModulo(acc / Pow2(nacc - 8), 8, 8);
  }

  lemma PadByte(acc: nat, nacc: nat)
    requires nacc <= 8
    ensures Msb(acc * Pow2(8 - nacc) % 256, 8) == Msb(acc, nacc) + Zeros(8 - nacc)
  {
    WordIsPow();
    MsbAppend(acc, 0, nacc, 8 - nacc);
    MsbOfZero(8 - nacc);
    MsbModulo(acc * Pow2(8 - nacc), 8, 8);
  }

  class MsbWriter {
    const out: array<byte>
    var op: nat
    var acc: nat
    var nacc: nat
    ghost var written: bits

    ghost predicate Holds(s: bits)
      reads this, out
    {
      op <= out.Length && acc < WORD && s == Unpack(out[..op]) + Msb(acc, nacc)
    }

    ghost predicate Valid()
      reads this, out
    {
      nacc < 8 && Holds(written)
    }

    constructor (output: array<byte>)
      ensures Valid() && out == output && written == []
    {
      out := output;
      op, acc, nacc := 0, 0, 0;
      written := [];
    }

    // Store the top eight pending bits.
    method StoreByte(ghost s: bits)
      requires Holds(s) && nacc >= 8 && op < out.Length
      modifies this`op, this`nacc, out
      ensures Holds(s) && nacc == old(nacc) - 8 && op == old(op) + 1
    {
      TakeByte(acc, nacc);
      ghost var b := acc / Pow2(nacc - 8) % 256;
      nacc := nacc - 8;
      out[op] := acc / Pow2(nacc) % 256;
      op := op + 1;
      UnpackSnoc(out[..op - 1], b);
      assert out[..op] == out[..op - 1] + [b];
      Associative(Unpack(old(out[..op])), Msb(b, 8), Msb(acc, nacc));
    }

    // Append a code; false means the output is full.
    method Put(code: nat, width: nat) returns (ok: bool)
      requires Valid() && code < Pow2(width) && width <= 12
      modifies this, out
      ensures ok ==> Valid() && written == old(written) + Msb(code, width)
      ensures !ok ==> 8 * out.Length < |old(written)| + width
    {
      WordIsPow();
      Accumulate(acc, nacc, code, width, 32);
      ghost var s := written + Msb(code, width);
      Associative(Unpack(out[..op]), Msb(acc, nacc), Msb(code, width));
      acc := acc * Pow2(width) % WORD + code;
      nacc := nacc + width;
      AccumulatorFits(old(acc), code, width);
      while nacc >= 8
        invariant Holds(s)
        decreases nacc
      {
        if op >= out.Length {
          return false;
        }
        StoreByte(s);
      }
      written := s;
      return true;
    }

    // Write the partial byte.
    method Flush() returns (ok: bool)
      requires Valid()
      modifies this, out
      ensures ok ==> op <= out.Length && Packs(out[..op], old(written))
      ensures !ok ==> 8 * out.Length < |old(written)|
    {
      hide Msb;
      if nacc > 0 {
        if op >= out.Length {
          return false;
        }
        var b := LastByte(acc, nacc);
        Associative(Unpack(out[..op]), Msb(acc, nacc), Zeros(8 - nacc));
        UnpackSnoc(out[..op], b);
        out[op] := b;
        op := op + 1;
        assert out[..op] == old(out[..op]) + [b];
        assert 8 * op - |written| == 8 - nacc;
      } else {
        assert written + Zeros(0) == written;
      }
      return true;
    }
  }

  // The pending bits at the top of a byte.
  function LastByte(acc: nat, nacc: nat): (b: byte)
    requires nacc <= 8
    ensures Msb(b, 8) == Msb(acc, nacc) + Zeros(8 - nacc)
  {
    PadByte(acc, nacc);
    acc * Pow2(8 - nacc) % 256
  }

  lemma AccumulatorFits(acc: nat, code: nat, width: nat)
    requires code < Pow2(width) && width <= 32
    ensures acc * Pow2(width) % WORD + code < WORD
  {
    WordIsPow();
    Pow2Add(32 - width, width);
    var p, h := Pow2(width), Pow2(32 - width);
    MultipleBelow(acc, p, h);
  }

  lemma MultipleBelow(a: nat, p: nat, h: nat)
    requires p > 0 && h > 0
    ensures h * p > 0 && a * p % (h * p) <= h * p - p
  {
    var q, r := a / h, a % h;
    assert a * p == (h * p) * q + r * p by {
      assert (h * q + r) * p == (h * p) * q + r * p;
    }
    assert r * p + p <= h * p by {
      assert (r + 1) * p <= h * p;
    }
    QuotientUnique(a * p, h * p, q, r * p);
  }
}
