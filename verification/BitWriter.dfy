/** tools/genmpeg12_interlaced.py class BW: a big-endian bit writer. Whatever the
    sequence of calls, the writer stands for the concatenation of all bits put. */
module BitWriter {
  import opened Bits
  import opened Codewords

  function BytesBits(s: seq<Byte>): (t: seq<Bit>)
    ensures |t| == 8 * |s|
  {
    if s == [] then [] else BytesBits(s[..|s| - 1]) + BitsOf(s[|s| - 1], 8)
  }

  lemma {:induction false} BytesBitsConcat(s: seq<Byte>, t: seq<Byte>)
    ensures BytesBits(s + t) == BytesBits(s) + BytesBits(t)
    decreases |t|
  {
    if t == [] {
      assert s + t == s;
    } else {
      var t' := t[..|t| - 1];
      assert (s + t)[..|s + t| - 1] == s + t';
      BytesBitsConcat(s, t');
    }
  }

  /** BitsOf reads only the low n bits. */
  lemma LowBits(q: nat, r: nat, n: nat)
    requires r < Pow2(n)
    ensures BitsOf(q * Pow2(n) + r, n) == BitsOf(r, n)
  {
    BitsOfSplit(q, r, 0, n);
  }

  lemma SplitByte(acc: nat, n: nat)
    requires n >= 8
    ensures BitsOf(acc, n) == BitsOf(Shr(acc, n - 8) % 256, 8) + BitsOf(acc, n - 8)
  {
    var q, r := QuotRem(acc, Pow2(n - 8));
    BitsOfSplit(q, r, 8, n - 8);
    LowBits(q, r, n - 8);
    LowByte(q);
  }

  lemma LowByte(q: nat)
    ensures BitsOf(q, 8) == BitsOf(q % 256, 8)
  {
    assert Pow2(8) == 256;
    LowBits(q / 256, q % 256, 8);
  }

  function Shr(v: nat, k: nat): (r: nat) {
    QuotientNat(v, Pow2(k));
    v / Pow2(k)
  }

  lemma QuotientNat(v: nat, m: nat)
    requires m > 0
    ensures v / m >= 0
  {}

  function Mask(v: int, k: nat): (r: nat)
    ensures r < Pow2(k)
  {
    v % Pow2(k)
  }

  lemma ClearHigh(acc: nat, n: nat)
    ensures BitsOf(Mask(acc, n), n) == BitsOf(acc, n)
  {
    var q, r := QuotRem(acc, Pow2(n));
    LowBits(q, r, n);
  }

  /** Moving the top eight pending bits into the buffer changes nothing. */
  lemma EmitByte(buf: seq<Byte>, acc: nat, n: nat, b: Byte)
    requires n >= 8 && b == Shr(acc, n - 8) % 256
    ensures BytesBits(buf + [b]) + BitsOf(acc, n - 8) == BytesBits(buf) + BitsOf(acc, n)
  {
    SplitByte(acc, n);
    assert (buf + [b])[..|buf|] == buf;
    assert BytesBits(buf + [b]) == BytesBits(buf) + BitsOf(b, 8);
  }

  class BW {
    var buf: seq<Byte>
    var acc: nat
    var n: nat

    ghost predicate Valid()
      reads this
    {
      n < 8 && acc < Pow2(n)
    }

    /** Every bit put so far, in order. */
    function Bits(): (s: seq<Bit>)
      reads this
    {
      BytesBits(buf) + BitsOf(acc, n)
    }

    constructor ()
      ensures Valid() && Bits() == [] && buf == []
    {
      buf, acc, n := [], 0, 0;
    }

    /** put(bits, val); the caller's duty is the source's two assertions. */
    method Put(bits: nat, val: int)
      requires Valid() && (bits == 0 || 0 <= val < Pow2(bits))
      modifies this
      ensures Valid()
      ensures Bits() == old(Bits()) + if bits == 0 then [] else BitsOf(val, bits)
    {
      if bits == 0 {
        assert Bits() == Bits() + [];
        return;
      }
      BitsOfSplit(acc, val, n, bits);
      ghost var all := Bits() + BitsOf(val, bits);
      acc := acc * Pow2(bits) + val;
      n := n + bits;
      assert BytesBits(buf) + BitsOf(acc, n) == all;
      Drain(all);
    }

    method Drain(ghost all: seq<Bit>)
      requires BytesBits(buf) + BitsOf(acc, n) == all
      modifies this
      ensures Valid() && Bits() == all
    {
      while n >= 8
        invariant BytesBits(buf) + BitsOf(acc, n) == all
      {
        var b: Byte := Shr(acc, n - 8) % 256;
        EmitByte(buf, acc, n, b);
        buf, n := buf + [b], n - 8;
      }
      ClearHigh(acc, n);
      acc := Mask(acc, n);
    }

    method PutVlc(c: Code)
      requires Valid() && Fits(c)
      modifies this
      ensures Valid() && Bits() == old(Bits()) + Word(c)
    {
      Put(c.len, c.code);
    }

    /** signed(bits, val): the two's complement of val. */
    method PutSigned(bits: nat, val: int)
      requires Valid()
      modifies this
      ensures Valid()
      ensures Bits() == old(Bits()) + if bits == 0 then [] else BitsOf(Mask(val, bits), bits)
    {
      Put(bits, Mask(val, bits));
    }

    /** Zero bits up to the next byte boundary, and no more. */
    method Align()
      requires Valid()
      modifies this
      ensures Valid() && n == 0
      ensures var pad := (8 - old(n)) % 8; Bits() == old(Bits()) + BitsOf(0, pad)
      ensures |Bits()| % 8 == 0 && |Bits()| < |old(Bits())| + 8
    {
      hide BytesBits, BitsOf, Pow2;
      if n != 0 {
        assert 0 < Pow2(8 - n);
        Put(8 - n, 0);
        assert |Bits()| == 8 * |buf| + n;
      } else {
        assert Bits() == Bits() + [];
      }
    }

    /** A start code is byte aligned: 00 00 01 and the code. */
    method StartCode(code: Byte)
      requires Valid()
      modifies this
      ensures Valid() && n == 0
      ensures var pad := (8 - old(n)) % 8;
        Bits() == old(Bits()) + BitsOf(0, pad) + BytesBits([0, 0, 1, code])
    {
      Align();
      BytesBitsConcat(buf, [0, 0, 1, code]);
      assert BitsOf(acc, n) == [];
      buf := buf + [0, 0, 1, code];
    }
  }
}
