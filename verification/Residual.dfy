/** tools/genmpeg12_interlaced.py dc_diff, coef_escape, eob and the block loops: the
    coded residual of a macroblock and the reader that undoes it. */
module Residual {
  import opened Bits
  import opened Codewords
  import opened VlcStream
  import opened BitWriter
  import opened KraftCheck
  import opened Motion

  const ESCAPE := 111
  const EOB := 112
  const RUN_BITS: nat := 6
  const LEVEL_BITS: nat := 12

  lemma FieldWidths()
    ensures Pow2(RUN_BITS) == 64 && Pow2(LEVEL_BITS) == 4096
  {
    assert Pow2(6) == 64 && Pow2(12) == 4096;
  }

  // ------------------------------------------------------------- DC differences --

  ghost predicate DcTable(tab: seq<Code>) {
    GoodTable(tab) && forall n :: 0 <= n <= 11 ==> HasSym(tab, n)
  }

  predicate DcOk(diff: int) { -2047 <= diff <= 2047 }

  /** dct_dc_size: the number of bits of the magnitude. */
  function DcSize(diff: int): (n: nat)
    ensures n == 0 <==> diff == 0
    ensures n > 0 ==> Pow2(n - 1) <= Abs(diff) < Pow2(n)
    ensures DcOk(diff) ==> n <= 11
  {
    var n := BitLength(Abs(diff));
    assert n > 11 && DcOk(diff) ==> false by {
      if n > 11 { Pow2Mono(11, n - 1); assert Pow2(11) == 2048; }
    }
    n
  }

  function DcField(diff: int): (v: nat)
    ensures v < Pow2(DcSize(diff))
  {
    if diff > 0 then diff else diff + Pow2(DcSize(diff)) - 1
  }

  /** decode_dc_diff: a field whose top bit is clear is negative. */
  function DcRebuild(size: nat, v: nat): (diff: int) {
    if size == 0 then 0 else if v >= Pow2(size - 1) then v else v - Pow2(size) + 1
  }

  lemma DcRebuilds(diff: int)
    ensures DcRebuild(DcSize(diff), DcField(diff)) == diff
  {
    var n := DcSize(diff);
    if n > 0 { assert Pow2(n) == 2 * Pow2(n - 1); }
  }

  function DcBits(tab: seq<Code>, diff: int): (s: seq<Bit>)
    requires DcTable(tab) && DcOk(diff)
    ensures |s| >= 1
  {
    SymBits(tab, DcSize(diff)) + BitsOf(DcField(diff), DcSize(diff))
  }

  function GetDc(tab: seq<Code>, s: seq<Bit>, pos: nat): (r: Parse<int>)
    requires GoodTable(tab)
    ensures r.Got? ==> pos < r.pos
  {
    match GetSym(tab, s, pos)
    case Fail => Fail
    case Got(size, p) =>
      if size < 0 then Fail else Got(DcRebuild(size, GetBits(s, p, size)), p + size)
  }

  lemma DcRoundTrip(tab: seq<Code>, diff: int, s: seq<Bit>, pos: nat)
    requires DcTable(tab) && DcOk(diff) && At(s, pos, DcBits(tab, diff))
    ensures GetDc(tab, s, pos) == Got(diff, pos + |DcBits(tab, diff)|)
  {
    hide BitsOf, SymBits, GetSym, GetBits, GoodTable, HasSym, At, DcField, DcSize, Pow2;
    var size := DcSize(diff);
    AtSplit(s, pos, SymBits(tab, size), BitsOf(DcField(diff), size));
    ReadsSym(tab, size, s, pos);
    ReadsBits(DcField(diff), size, s, pos + |SymBits(tab, size)|);
    DcRebuilds(diff);
  }

  method DcDiff(bw: BW, tab: seq<Code>, diff: int)
    requires bw.Valid() && DcTable(tab) && DcOk(diff)
    modifies bw
    ensures bw.Valid() && bw.Bits() == old(bw.Bits()) + DcBits(tab, diff)
  {
    hide BitsOf, PrefixFree, Pow2, DcSize;
    if diff == 0 {
      bw.PutVlc(tab[Row(tab, 0)]);
      return;
    }
    var size := DcSize(diff);
    bw.PutVlc(tab[Row(tab, size)]);
    bw.Put(size, if diff > 0 then diff else diff + Pow2(size) - 1);
  }

  // ---------------------------------------------------------------- coefficients --

  datatype Coef = Coef(run: int, level: int)

  predicate CoefOk(c: Coef) { 0 <= c.run <= 63 && -2047 <= c.level <= 2047 && c.level != 0 }

  ghost predicate CoefsOk(cs: seq<Coef>) { forall i :: 0 <= i < |cs| ==> CoefOk(cs[i]) }

  ghost predicate CoefTable(tab: seq<Code>) {
    GoodTable(tab) && HasSym(tab, ESCAPE) && HasSym(tab, EOB)
  }

  /** A 12-bit two's complement field. */
  function LevelField(level: int): (v: nat)
    ensures v < 4096
  {
    level % 4096
  }

  function LevelOf(v: nat): (level: int) { if v >= 2048 then v - 4096 else v }

  function CoefBits(tab: seq<Code>, c: Coef): (s: seq<Bit>)
    requires CoefTable(tab) && CoefOk(c)
    ensures |s| >= 1
  {
    SymBits(tab, ESCAPE) + (BitsOf(c.run, RUN_BITS) + BitsOf(LevelField(c.level), LEVEL_BITS))
  }

  /** The coefficients of one block, then its end-of-block code. */
  function BlockBits(tab: seq<Code>, cs: seq<Coef>): (s: seq<Bit>)
    requires CoefTable(tab) && CoefsOk(cs)
    ensures |s| >= 1
  {
    if cs == [] then SymBits(tab, EOB) else CoefBits(tab, cs[0]) + BlockBits(tab, cs[1..])
  }

  /** How far the coefficients of a block reach in its scan. */
  function Places(cs: seq<Coef>): (n: int) {
    if cs == [] then 0 else cs[0].run + 1 + Places(cs[1..])
  }

  /** decode_block behind scan position at: run in 6 bits, level in 12, nothing beyond position 63. */
  function GetBlock(tab: seq<Code>, s: seq<Bit>, pos: nat, at: int): (r: Parse<seq<Coef>>)
    requires GoodTable(tab)
    ensures r.Got? ==> pos < r.pos
    decreases |s| - pos
  {
    if pos >= |s| then Fail
    else match GetSym(tab, s, pos)
      case Fail => Fail
      case Got(sym, p) =>
        if sym == EOB then Got([], p)
        else if sym != ESCAPE then Fail
        else
          var c := Coef(GetBits(s, p, 6), LevelOf(GetBits(s, p + 6, 12)));
          if at + c.run + 1 > 63 then Fail
          else match GetBlock(tab, s, p + 18, at + c.run + 1)
            case Fail => Fail
            case Got(rest, q) => Got([c] + rest, q)
  }

  lemma ReadsCoef(tab: seq<Code>, c: Coef, s: seq<Bit>, pos: nat)
    requires CoefTable(tab) && CoefOk(c) && At(s, pos, CoefBits(tab, c))
    ensures var p := pos + |SymBits(tab, ESCAPE)|;
      && GetSym(tab, s, pos) == Got(ESCAPE, p) && p + 18 == pos + |CoefBits(tab, c)|
      && GetBits(s, p, RUN_BITS) == c.run && LevelOf(GetBits(s, p + RUN_BITS, LEVEL_BITS)) == c.level
  {
    hide BitsOf, SymBits, GetSym, GetBits, GoodTable, HasSym, At;
    FieldWidths();
    ReadsSymThenBits(tab, ESCAPE, c.run, RUN_BITS, LevelField(c.level), LEVEL_BITS, s, pos);
  }

  lemma {:induction false} BlockRoundTrip(tab: seq<Code>, cs: seq<Coef>, s: seq<Bit>, pos: nat, at: int)
    requires CoefTable(tab) && CoefsOk(cs) && at + Places(cs) <= 63 && At(s, pos, BlockBits(tab, cs))
    ensures GetBlock(tab, s, pos, at) == Got(cs, pos + |BlockBits(tab, cs)|)
    decreases |cs|
  {
    hide BitsOf, SymBits, GetSym, GetBits, GoodTable, HasSym, LevelOf, CoefBits, Pow2;
    if cs == [] {
      ReadsSym(tab, EOB, s, pos);
    } else {
      var head, rest := CoefBits(tab, cs[0]), BlockBits(tab, cs[1..]);
      AtSplit(s, pos, head, rest);
      ReadsCoef(tab, cs[0], s, pos);
      PlacesPositive(cs[1..]);
      BlockRoundTrip(tab, cs[1..], s, pos + |head|, at + cs[0].run + 1);
      assert [cs[0]] + cs[1..] == cs;
    }
  }

  lemma {:induction false} PlacesPositive(cs: seq<Coef>)
    requires CoefsOk(cs)
    ensures Places(cs) >= 0
  {
    if cs != [] { PlacesPositive(cs[1..]); }
  }

  lemma BlockBitsSnoc(tab: seq<Code>, cs: seq<Coef>, i: nat)
    requires CoefTable(tab) && CoefsOk(cs) && i < |cs|
    ensures CoefBits(tab, cs[i]) + BlockBits(tab, cs[i + 1..]) == BlockBits(tab, cs[i..])
  {
    assert cs[i..][1..] == cs[i + 1..];
  }

  method PutBlock(bw: BW, tab: seq<Code>, cs: seq<Coef>)
    requires bw.Valid() && CoefTable(tab) && CoefsOk(cs)
    modifies bw
    ensures bw.Valid() && bw.Bits() == old(bw.Bits()) + BlockBits(tab, cs)
  {
    hide BitsOf, GetSym, GetBits, At, CoefBits, Pow2, PrefixFree;
    ghost var goal := bw.Bits() + BlockBits(tab, cs);
    assert cs[0..] == cs;
    for i := 0 to |cs|
      invariant bw.Valid() && bw.Bits() + BlockBits(tab, cs[i..]) == goal
    {
      BlockBitsSnoc(tab, cs, i);
      ghost var before := bw.Bits();
      CoefEscape(bw, tab, cs[i].run, cs[i].level);
      assert bw.Bits() + BlockBits(tab, cs[i + 1..]) == before + (CoefBits(tab, cs[i]) + BlockBits(tab, cs[i + 1..]));
    }
    bw.PutVlc(tab[Row(tab, EOB)]);
  }

  lemma LevelMask(level: int)
    ensures Mask(level, LEVEL_BITS) == LevelField(level)
  {
    FieldWidths();
  }

  method CoefEscape(bw: BW, tab: seq<Code>, run: int, level: int)
    requires bw.Valid() && CoefTable(tab) && CoefOk(Coef(run, level))
    modifies bw
    ensures bw.Valid() && bw.Bits() == old(bw.Bits()) + CoefBits(tab, Coef(run, level))
  {
    hide BitsOf, GetSym, GetBits, At, Pow2, PrefixFree, Mask;
    FieldWidths();
    bw.PutVlc(tab[Row(tab, ESCAPE)]);
    bw.Put(RUN_BITS, run);
    LevelMask(level);
    bw.PutSigned(LEVEL_BITS, level);
  }
}
