/** tools/genmpeg12_interlaced.py mv_delta and put_dmvector: motion vector components and dual-prime
    differences, each with the reader of c/lib/video/mpeg12_slice.c that undoes it. */
module Motion {
  import opened Bits
  import opened Codewords
  import opened SortedVlc
  import opened BuildVlc
  import opened VlcStream
  import opened BitWriter

  // ----------------------------------------------------------------- parsing --

  datatype Parse<T> = Fail | Got(value: T, pos: nat)

  ghost predicate GoodTable(codes: seq<Code>) {
    AllFit(codes) && PrefixFree(codes)
  }

  predicate HasSym(codes: seq<Code>, sym: int) {
    exists k :: 0 <= k < |codes| && codes[k].sym == sym
  }

  /** The position of the first row for sym. */
  function Row(codes: seq<Code>, sym: int): (k: nat)
    requires HasSym(codes, sym)
    ensures k < |codes| && codes[k].sym == sym
  {
    if codes[0].sym == sym then 0
    else
      assert HasSym(codes[1..], sym) by {
        var k :| 0 <= k < |codes| && codes[k].sym == sym;
        assert codes[1..][k - 1].sym == sym;
      }
      1 + Row(codes[1..], sym)
  }

  function SymBits(codes: seq<Code>, sym: int): (s: seq<Bit>)
    requires GoodTable(codes) && HasSym(codes, sym)
    ensures |s| >= 1
  {
    Word(codes[Row(codes, sym)])
  }

  function GetSym(codes: seq<Code>, s: seq<Bit>, pos: nat): (r: Parse<int>)
    requires GoodTable(codes)
    ensures r.Got? ==> pos < r.pos
  {
    match Find(codes, Peek(s, pos))
    case None => Fail
    case Some(c) =>
      FindMatches(codes, Peek(s, pos));
      Got(c.sym, pos + c.len)
  }

  function GetBits(s: seq<Bit>, pos: nat, n: nat): (v: nat)
    ensures v < Pow2(n)
  {
    ValueBound(Show(s, pos, n));
    Value(Show(s, pos, n))
  }

  lemma ReadsSym(codes: seq<Code>, sym: int, s: seq<Bit>, pos: nat)
    requires GoodTable(codes) && HasSym(codes, sym) && At(s, pos, SymBits(codes, sym))
    ensures GetSym(codes, s, pos) == Got(sym, pos + |SymBits(codes, sym)|)
  {
    NextIsFound(codes, Row(codes, sym), s, pos);
  }

  lemma ReadsBits(v: nat, n: nat, s: seq<Bit>, pos: nat)
    requires v < Pow2(n) && At(s, pos, BitsOf(v, n))
    ensures GetBits(s, pos, n) == v
  {
    assert Show(s, pos, n) == s[pos..pos + n];
    ValueOfBits(v, n);
  }

  // ----------------------------------------------------------- motion vectors --

  /** v brought into [-16f, 16f - 1] modulo 32f (section 7.6.3.1 of ISO/IEC 13818-2). */
  function Wrap(v: int, f: nat): (w: int)
    requires f > 0
    ensures -16 * f <= w <= 16 * f - 1
  {
    (v + 16 * f) % (32 * f) - 16 * f
  }

  predicate InRangeMv(v: int, f: nat) { -16 * f <= v <= 16 * f - 1 }

  lemma WrapPeriod(v: int, f: nat, k: int)
    requires f > 0
    ensures Wrap(v + k * (32 * f), f) == Wrap(v, f)
  {
    ModPeriod(v + 16 * f, 32 * f, k);
  }

  lemma ModPeriod(a: int, m: int, k: int)
    requires m > 0
    ensures (a + k * m) % m == a % m
  {
    var q, r := a / m, a % m;
    assert a == m * q + r;
    assert a + k * m == m * (q + k) + r;
    DivModUnique(a + k * m, m, q + k, r);
  }

  lemma WrapFixes(v: int, f: nat)
    requires f > 0 && InRangeMv(v, f)
    ensures Wrap(v, f) == v
  {
    DivModUnique(v + 16 * f, 32 * f, 0, v + 16 * f);
  }

  function Abs(v: int): (a: nat)
    ensures a == v || a == -v
  {
    if v < 0 then -v else v
  }

  /** motion_code and motion_residual of a difference already in range. */
  function MotionCode(delta: int, f: nat): (c: nat)
    requires f > 0
  {
    if delta == 0 then 0 else (Abs(delta) - 1) / f + 1
  }

  function MotionResidual(delta: int, f: nat): (r: nat)
    requires f > 0
    ensures r < f
  {
    if delta == 0 then 0 else (Abs(delta) - 1) % f
  }

  /** The assertion in mv_delta can never fire: every wrapped difference has a Table B-10 code. */
  lemma MotionCodeInTable(delta: int, f: nat)
    requires f > 0 && InRangeMv(delta, f)
    ensures MotionCode(delta, f) <= 16 && (MotionCode(delta, f) == 0 <==> delta == 0)
  {
    if delta != 0 {
      DivRange(Abs(delta) - 1, f, 16);
    }
  }

  /** motion_code, the sign bit and motion_residual. */
  datatype MvParts = MvParts(code: int, sign: nat, resid: nat)

  ghost predicate PartsOk(p: MvParts, rsize: nat) {
    && 0 <= p.code <= 16 && p.sign < 2 && p.resid < Pow2(rsize)
    && (p.code == 0 ==> p == MvParts(0, 0, 0))
  }

  function PartsOf(delta: int, f: nat): (p: MvParts)
    requires f > 0
  {
    MvParts(MotionCode(delta, f), if delta < 0 then 1 else 0, MotionResidual(delta, f))
  }

  /** A vector component from its parts and its predictor (decode_motion). */
  function Rebuild(p: MvParts, pred: int, f: nat): (v: int)
    requires f > 0
  {
    if p.code == 0 then pred
    else
      var mag := (p.code - 1) * f + p.resid + 1;
      Wrap((if p.sign == 1 then -mag else mag) + pred, f)
  }

  lemma PartsOfOk(delta: int, rsize: nat)
    requires InRangeMv(delta, Pow2(rsize))
    ensures PartsOk(PartsOf(delta, Pow2(rsize)), rsize)
  {
    MotionCodeInTable(delta, Pow2(rsize));
  }

  lemma MagnitudeParts(delta: int, f: nat)
    requires f > 0 && delta != 0
    ensures (MotionCode(delta, f) - 1) * f + MotionResidual(delta, f) + 1 == Abs(delta)
  {
    var a := Abs(delta) - 1;
    assert a == f * (a / f) + a % f;
  }

  lemma RebuildDelta(delta: int, pred: int, f: nat)
    requires f > 0 && InRangeMv(delta, f) && InRangeMv(pred, f)
    ensures Rebuild(PartsOf(delta, f), pred, f) == Wrap(delta + pred, f)
  {
    MotionCodeInTable(delta, f);
    if delta == 0 { WrapFixes(pred, f); } else { MagnitudeParts(delta, f); }
  }

  /** Whatever vector is wanted, its parts rebuild it modulo 32f from any predictor in range. */
  lemma RebuildWanted(want: int, pred: int, f: nat)
    requires f > 0 && InRangeMv(pred, f)
    ensures Rebuild(PartsOf(Wrap(want - pred, f), f), pred, f) == Wrap(want, f)
  {
    var delta := Wrap(want - pred, f);
    RebuildDelta(delta, pred, f);
    var k := WrapQuotient(want - pred, f);
    assert want == delta + pred + k * (32 * f);
    WrapPeriod(delta + pred, f, k);
  }

  lemma WrapQuotient(v: int, f: nat) returns (k: int)
    requires f > 0
    ensures v == Wrap(v, f) + k * (32 * f)
  {
    k := (v + 16 * f) / (32 * f);
    assert v + 16 * f == (32 * f) * k + (v + 16 * f) % (32 * f);
  }

  ghost predicate MvTable(mv: seq<Code>) {
    GoodTable(mv) && forall c :: 0 <= c <= 16 ==> HasSym(mv, c)
  }

  function PartsBits(mv: seq<Code>, p: MvParts, rsize: nat): (s: seq<Bit>)
    requires MvTable(mv) && PartsOk(p, rsize)
  {
    if p.code == 0 then SymBits(mv, 0)
    else SymBits(mv, p.code) + (BitsOf(p.sign, 1) + BitsOf(p.resid, rsize))
  }

  function GetParts(mv: seq<Code>, s: seq<Bit>, pos: nat, rsize: nat): (r: Parse<MvParts>)
    requires GoodTable(mv)
    ensures r.Got? ==> pos < r.pos
  {
    match GetSym(mv, s, pos)
    case Fail => Fail
    case Got(code, p) =>
      if code < 0 then Fail
      else if code == 0 then Got(MvParts(0, 0, 0), p)
      else Got(MvParts(code, GetBits(s, p, 1), GetBits(s, p + 1, rsize)), p + 1 + rsize)
  }

  lemma PartsRoundTrip(mv: seq<Code>, p: MvParts, rsize: nat, s: seq<Bit>, pos: nat)
    requires MvTable(mv) && PartsOk(p, rsize) && At(s, pos, PartsBits(mv, p, rsize))
    ensures GetParts(mv, s, pos, rsize) == Got(p, pos + |PartsBits(mv, p, rsize)|)
  {
    hide BitsOf, SymBits, GetSym, GetBits, GoodTable, HasSym, At;
    if p.code == 0 {
      ReadsSym(mv, 0, s, pos);
    } else {
      assert Pow2(1) == 2;
      ReadsSymThenBits(mv, p.code, p.sign, 1, p.resid, rsize, s, pos);
    }
  }

  lemma ReadsSymThenBits(codes: seq<Code>, sym: int, v: nat, a: nat, w: nat, b: nat, s: seq<Bit>, pos: nat)
    requires GoodTable(codes) && HasSym(codes, sym) && v < Pow2(a) && w < Pow2(b)
    requires At(s, pos, SymBits(codes, sym) + (BitsOf(v, a) + BitsOf(w, b)))
    ensures var p := pos + |SymBits(codes, sym)|;
      GetSym(codes, s, pos) == Got(sym, p) && GetBits(s, p, a) == v && GetBits(s, p + a, b) == w
  {
    hide Pow2, BitsOf, SymBits, GetSym, GetBits, GoodTable, HasSym, At;
    var head, one, low := SymBits(codes, sym), BitsOf(v, a), BitsOf(w, b);
    AtSplit(s, pos, head, one + low);
    AtSplit(s, pos + |head|, one, low);
    ReadsSym(codes, sym, s, pos);
    ReadsBits(v, a, s, pos + |head|);
    ReadsBits(w, b, s, pos + |head| + a);
  }

  /** What mv_delta writes for a vector component. */
  function MvBits(mv: seq<Code>, want: int, pred: int, rsize: nat): (s: seq<Bit>)
    requires MvTable(mv)
  {
    var delta := Wrap(want - pred, Pow2(rsize));
    PartsOfOk(delta, rsize);
    PartsBits(mv, PartsOf(delta, Pow2(rsize)), rsize)
  }

  /** decode_motion: the component, or Fail when the code names nothing. */
  function GetMv(mv: seq<Code>, s: seq<Bit>, pos: nat, pred: int, rsize: nat): (r: Parse<int>)
    requires GoodTable(mv)
    ensures r.Got? ==> pos < r.pos
  {
    match GetParts(mv, s, pos, rsize)
    case Fail => Fail
    case Got(p, next) => Got(Rebuild(p, pred, Pow2(rsize)), next)
  }

  /** The reader recovers the wrapped vector from any predictor in range. */
  lemma MvRoundTrip(mv: seq<Code>, want: int, pred: int, rsize: nat, s: seq<Bit>, pos: nat)
    requires MvTable(mv) && InRangeMv(pred, Pow2(rsize))
    requires At(s, pos, MvBits(mv, want, pred, rsize))
    ensures GetMv(mv, s, pos, pred, rsize) == Got(Wrap(want, Pow2(rsize)), pos + |MvBits(mv, want, pred, rsize)|)
  {
    var delta := Wrap(want - pred, Pow2(rsize));
    PartsOfOk(delta, rsize);
    PartsRoundTrip(mv, PartsOf(delta, Pow2(rsize)), rsize, s, pos);
    RebuildWanted(want, pred, Pow2(rsize));
  }

  /** The two wrapping loops of mv_delta; both end. */
  method WrapDelta(diff: int, f: nat) returns (delta: int)
    requires f > 0
    ensures delta == Wrap(diff, f)
  {
    var low: int := -16 * (f as int);
    var high: int, range: int := 16 * f - 1, 32 * f;
    delta := diff;
    while delta > high
      invariant Wrap(delta, f) == Wrap(diff, f)
    {
      WrapPeriod(delta, f, -1);
      delta := delta - range;
    }
    while delta < low
      invariant Wrap(delta, f) == Wrap(diff, f) && delta <= high
    {
      WrapPeriod(delta, f, 1);
      delta := delta + range;
    }
    WrapFixes(delta, f);
  }

  /** mv_delta: wrap the difference, then write its code, sign and residual. */
  method MvDelta(bw: BW, mv: seq<Code>, want: int, pred: int, fcode: nat) returns (r: int)
    requires bw.Valid() && MvTable(mv) && fcode >= 1
    modifies bw
    ensures bw.Valid() && r == want
    ensures bw.Bits() == old(bw.Bits()) + MvBits(mv, want, pred, fcode - 1)
  {
    var rsize := fcode - 1;
    var delta := WrapDelta(want - pred, Pow2(rsize));
    PartsOfOk(delta, rsize);
    PutParts(bw, mv, PartsOf(delta, Pow2(rsize)), rsize);
    r := want;
  }

  method PutParts(bw: BW, mv: seq<Code>, p: MvParts, rsize: nat)
    requires bw.Valid() && MvTable(mv) && PartsOk(p, rsize)
    modifies bw
    ensures bw.Valid() && bw.Bits() == old(bw.Bits()) + PartsBits(mv, p, rsize)
  {
    hide BW.Bits, BW.Valid, BitsOf, Word, MvTable, Row, Pow2;
    ghost var was := bw.Bits();
    PartsFit(mv, p, rsize);
    bw.PutVlc(mv[Row(mv, p.code)]);
    if p.code != 0 {
      bw.Put(1, p.sign);
      if rsize != 0 {
        bw.Put(rsize, p.resid);
      }
      PartsJoin(was, SymBits(mv, p.code), BitsOf(p.sign, 1), BitsOf(p.resid, rsize));
    }
  }

  lemma PartsFit(mv: seq<Code>, p: MvParts, rsize: nat)
    requires MvTable(mv) && PartsOk(p, rsize)
    ensures GoodTable(mv) && HasSym(mv, p.code) && Fits(mv[Row(mv, p.code)])
    ensures p.code != 0 ==> 0 <= p.sign < Pow2(1) && 0 <= p.resid < Pow2(rsize)
    ensures BitsOf(p.resid, 0) == []
  {
    assert Pow2(1) == 2;
  }

  lemma PartsJoin(was: seq<Bit>, a: seq<Bit>, b: seq<Bit>, c: seq<Bit>)
    ensures was + (a + (b + c)) == ((was + a) + b) + c
    ensures c == [] ==> was + (a + (b + c)) == (was + a) + b
  {}

  // ------------------------------------------------------- dual-prime offsets --

  function DmvBits(v: int): (s: seq<Bit>) {
    if v == 0 then [0] else if v > 0 then [1, 0] else [1, 1]
  }

  function GetDmv(s: seq<Bit>, pos: nat): (r: (int, nat)) {
    if GetBits(s, pos, 1) == 0 then (0, pos + 1) else (1 - 2 * GetBits(s, pos + 1, 1), pos + 2)
  }

  lemma DmvRoundTrip(v: int, s: seq<Bit>, pos: nat)
    requires -1 <= v <= 1 && At(s, pos, DmvBits(v))
    ensures GetDmv(s, pos) == (v, pos + |DmvBits(v)|)
  {
    OneBit(s, pos);
    if v != 0 {
      assert s[pos] == DmvBits(v)[0] && s[pos + 1] == DmvBits(v)[1];
      OneBit(s, pos + 1);
    } else {
      assert s[pos] == DmvBits(v)[0];
    }
  }

  lemma OneBit(s: seq<Bit>, pos: nat)
    requires pos < |s|
    ensures GetBits(s, pos, 1) == s[pos]
  {
    assert Show(s, pos, 1) == [s[pos]];
    assert [s[pos]][..0] == [];
    assert Value([s[pos]]) == 2 * Value([]) + s[pos];
  }

  method PutDmvector(bw: BW, v: int)
    requires bw.Valid()
    modifies bw
    ensures bw.Valid() && bw.Bits() == old(bw.Bits()) + DmvBits(v)
  {
    assert BitsOf(0, 1) == [0] && BitsOf(1, 1) == [1];
    if v == 0 {
      bw.Put(1, 0);
    } else {
      bw.Put(1, 1);
      bw.Put(1, if v > 0 then 0 else 1);
    }
  }
}
