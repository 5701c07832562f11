/** tools/genmpeg12_interlaced.py field_picture_body and frame_picture_body: the
    macroblocks of one slice, with the predictor state that runs along them, as bits. */
module Slice {
  import opened Bits
  import opened Outcomes
  import opened Codewords
  import opened VlcStream
  import opened Motion
  import opened MotionSyntax
  import opened Residual

  const MB_INTRA := 1
  const MB_FOR := 8
  const MB_FOR_PAT := 10
  const TYPE_BITS: nat := 2

  datatype Tables = Tables(mbincr: seq<Code>, ptype: seq<Code>, mv: seq<Code>, cbp: seq<Code>,
                           coef: seq<Code>, dcLum: seq<Code>, dcChroma: seq<Code>)

  /** Usable code tables. The escape code starts with 0: a block of a predicted macroblock that starts with
      1 starts with the short form of a coefficient. */
  ghost predicate TablesOk(t: Tables) {
    && GoodTable(t.mbincr) && GoodTable(t.ptype) && MvTable(t.mv) && GoodTable(t.cbp)
    && CoefTable(t.coef) && SymBits(t.coef, ESCAPE)[0] == 0 && DcTable(t.dcLum) && DcTable(t.dcChroma)
  }

  const MAX_INC := 33
  const BLOCKS: nat := 6

  // ---------------------------------------------------------------- inter blocks --

  /** The number of coded blocks a coded_block_pattern names. */
  function Ones(n: nat): (k: nat) {
    if n == 0 then 0 else n % 2 + Ones(n / 2)
  }

  datatype Residue = Residue(cbp: nat, blocks: seq<seq<Coef>>)

  /** Every block has a coefficient and stays inside its scan. */
  ghost predicate BlocksOk(bs: seq<seq<Coef>>) {
    forall i :: 0 <= i < |bs| ==> bs[i] != [] && CoefsOk(bs[i]) && Places(bs[i]) <= 63
  }

  ghost predicate ResidueOk(t: Tables, r: Residue) {
    1 <= r.cbp <= 63 && HasSym(t.cbp, r.cbp) && |r.blocks| == Ones(r.cbp) && BlocksOk(r.blocks)
  }

  function BlocksBits(tab: seq<Code>, bs: seq<seq<Coef>>): (s: seq<Bit>)
    requires CoefTable(tab) && BlocksOk(bs)
  {
    if bs == [] then [] else BlockBits(tab, bs[0]) + BlocksBits(tab, bs[1..])
  }

  function ResidueBits(t: Tables, r: Option<Residue>): (s: seq<Bit>)
    requires TablesOk(t) && (r.Some? ==> ResidueOk(t, r.value))
  {
    if r.None? then [] else SymBits(t.cbp, r.value.cbp) + BlocksBits(t.coef, r.value.blocks)
  }

  // ---------------------------------------------------------------- intra blocks --

  datatype IntraBlock = IntraBlock(dc: int, coefs: seq<Coef>)

  /** Four luminance blocks, then one of each chrominance. */
  function Comp(n: nat): (c: nat)
    ensures c < 3
  {
    if n < 4 then 0 else n % 2 + 1
  }

  function DcTab(t: Tables, n: nat): (tab: seq<Code>) {
    if Comp(n) == 0 then t.dcLum else t.dcChroma
  }

  /** Blocks n.. of an intra macroblock against the running DC predictors. */
  ghost predicate IntraOk(bs: seq<IntraBlock>, n: nat, dc: seq<int>)
    decreases |bs|
  {
    |dc| == 3 && (bs != [] ==>
      && DcOk(bs[0].dc - dc[Comp(n)]) && CoefsOk(bs[0].coefs) && Places(bs[0].coefs) <= 63
      && IntraOk(bs[1..], n + 1, dc[Comp(n) := bs[0].dc]))
  }

  function AfterIntra(bs: seq<IntraBlock>, n: nat, dc: seq<int>): (r: seq<int>)
    requires |dc| == 3
    ensures |r| == 3
    decreases |bs|
  {
    if bs == [] then dc else AfterIntra(bs[1..], n + 1, dc[Comp(n) := bs[0].dc])
  }

  function IntraBits(t: Tables, bs: seq<IntraBlock>, n: nat, dc: seq<int>): (s: seq<Bit>)
    requires TablesOk(t) && IntraOk(bs, n, dc)
    decreases |bs|
  {
    if bs == [] then []
    else DcBits(DcTab(t, n), bs[0].dc - dc[Comp(n)])
         + (BlockBits(t.coef, bs[0].coefs) + IntraBits(t, bs[1..], n + 1, dc[Comp(n) := bs[0].dc]))
  }

  // ----------------------------------------------------------------- macroblocks --

  datatype Mb =
    | Intra(inc: nat, blocks: seq<IntraBlock>)
    | Inter(inc: nat, vectors: Vectors, dct: nat, residue: Option<Residue>)

  /** The predictors a slice carries from macroblock to macroblock. */
  datatype State = State(pmv: Preds, dc: seq<int>)

  const RESET_DC: seq<int> := [128, 128, 128]
  const START: State := State(ZERO_PREDS, RESET_DC)

  /** Skipped macroblocks reset both predictors (section 7.6.6 of ISO/IEC 13818-2). */
  function AfterSkip(st: State, inc: nat): (r: State) {
    if inc > 1 then START else st
  }

  function AfterMb(kind: Kind, st: State, mb: Mb): (r: State)
    requires |st.dc| == 3
    ensures |r.dc| == 3
  {
    match mb
    case Intra(inc, bs) => State(ZERO_PREDS, AfterIntra(bs, 0, AfterSkip(st, inc).dc))
    case Inter(_, v, _, _) => State(AfterVectors(kind, v), RESET_DC)
  }

  function Flags(mb: Mb): (f: int) {
    if mb.Intra? then MB_INTRA else if mb.residue.Some? then MB_FOR_PAT else MB_FOR
  }

  /** dct_type is coded in a frame picture when there is a residue. */
  predicate HasDct(kind: Kind, coded: bool) { kind.FramePicture? && coded }

  ghost predicate MbOk(t: Tables, kind: Kind, rsize: nat, st: State, mb: Mb) {
    && 1 <= mb.inc <= MAX_INC && HasSym(t.mbincr, mb.inc) && HasSym(t.ptype, Flags(mb))
    && match mb
       case Intra(inc, bs) => kind.FieldPicture? && |bs| == BLOCKS && IntraOk(bs, 0, AfterSkip(st, inc).dc)
       case Inter(_, v, dct, r) =>
         && VectorsOk(kind, v, rsize) && (r.Some? ==> ResidueOk(t, r.value))
         && dct < 2 && (!HasDct(kind, r.Some?) ==> dct == 0)
  }

  ghost predicate StateOk(kind: Kind, rsize: nat, st: State) {
    PredsOk(kind, st.pmv, rsize) && |st.dc| == 3
  }

  lemma StartOk(kind: Kind, rsize: nat)
    ensures StateOk(kind, rsize, START)
  {}

  lemma AfterMbOk(t: Tables, kind: Kind, rsize: nat, st: State, mb: Mb)
    requires StateOk(kind, rsize, st) && MbOk(t, kind, rsize, st, mb)
    ensures StateOk(kind, rsize, AfterMb(kind, st, mb))
  {
    StartOk(kind, rsize);
    if mb.Inter? { AfterVectorsOk(kind, mb.vectors, rsize); }
  }

  function DctBits(kind: Kind, mb: Mb): (s: seq<Bit>)
    requires mb.Inter?
  {
    if HasDct(kind, mb.residue.Some?) then BitsOf(mb.dct, 1) else []
  }

  function InterBits(t: Tables, kind: Kind, rsize: nat, p: Preds, mb: Mb): (s: seq<Bit>)
    requires TablesOk(t) && mb.Inter? && (mb.residue.Some? ==> ResidueOk(t, mb.residue.value))
  {
    BitsOf(VectorType(kind, mb.vectors), TYPE_BITS)
    + (DctBits(kind, mb) + (VectorsBits(t.mv, kind, mb.vectors, p, rsize) + ResidueBits(t, mb.residue)))
  }

  function BodyBits(t: Tables, kind: Kind, rsize: nat, st: State, mb: Mb): (s: seq<Bit>)
    requires TablesOk(t) && MbOk(t, kind, rsize, st, mb)
  {
    if mb.Intra? then IntraBits(t, mb.blocks, 0, AfterSkip(st, mb.inc).dc)
    else InterBits(t, kind, rsize, AfterSkip(st, mb.inc).pmv, mb)
  }

  function MbBits(t: Tables, kind: Kind, rsize: nat, st: State, mb: Mb): (s: seq<Bit>)
    requires TablesOk(t) && MbOk(t, kind, rsize, st, mb)
  {
    SymBits(t.mbincr, mb.inc) + (SymBits(t.ptype, Flags(mb)) + BodyBits(t, kind, rsize, st, mb))
  }

  // ---------------------------------------------------------------------- slices --

  ghost predicate MbsOk(t: Tables, kind: Kind, rsize: nat, st: State, mbs: seq<Mb>)
    decreases |mbs|
  {
    |st.dc| == 3 && (mbs != [] ==>
      MbOk(t, kind, rsize, st, mbs[0]) && MbsOk(t, kind, rsize, AfterMb(kind, st, mbs[0]), mbs[1..]))
  }

  /** The number of macroblock addresses a list accounts for, skipped ones included. */
  function Span(mbs: seq<Mb>): (n: nat) {
    if mbs == [] then 0 else mbs[0].inc + Span(mbs[1..])
  }

  function SliceBits(t: Tables, kind: Kind, rsize: nat, st: State, mbs: seq<Mb>): (s: seq<Bit>)
    requires TablesOk(t) && MbsOk(t, kind, rsize, st, mbs)
    decreases |mbs|
  {
    if mbs == [] then []
    else MbBits(t, kind, rsize, st, mbs[0]) + SliceBits(t, kind, rsize, AfterMb(kind, st, mbs[0]), mbs[1..])
  }

  /** The predictors held in front of each macroblock. */
  function Trace(kind: Kind, st: State, mbs: seq<Mb>): (r: seq<State>)
    requires |st.dc| == 3
    decreases |mbs|
  {
    if mbs == [] then [] else [st] + Trace(kind, AfterMb(kind, st, mbs[0]), mbs[1..])
  }

  /** What stands in front of the macroblock after mbs[i], by the fields of mbs[i]: its vectors as the
      two predictor pairs, vertical parts doubled in frame pictures; after an intra macroblock zero
      vectors and the levels of its last luminance and its two chrominance blocks. */
  lemma {:induction false} PredictorsInFront(t: Tables, kind: Kind, rsize: nat, st: State, mbs: seq<Mb>, i: nat)
    requires MbsOk(t, kind, rsize, st, mbs) && i + 1 < |mbs|
    ensures |Trace(kind, st, mbs)| == |mbs| && Trace(kind, st, mbs)[0] == st
    ensures var p, dc, m := Trace(kind, st, mbs)[i + 1].pmv, Trace(kind, st, mbs)[i + 1].dc,
                            if kind.FramePicture? then 2 else 1;
      match mbs[i]
      case Intra(_, bs) =>
        |bs| == 6 && p.x0 == p.y0 == p.x1 == p.y1 == 0 && dc == [bs[3].dc, bs[4].dc, bs[5].dc]
      case Inter(_, Two(_, avx, avy, _, bvx, bvy), _, _) =>
        p.x0 == avx && p.y0 == m * avy && p.x1 == bvx && p.y1 == m * bvy && dc == [128, 128, 128]
      case Inter(_, One(_, x, y), _, _) =>
        p.x0 == p.x1 == x && p.y0 == p.y1 == m * y && dc == [128, 128, 128]
      case Inter(_, Dual(x, _, y, _), _, _) =>
        p.x0 == p.x1 == x && p.y0 == p.y1 == m * y && dc == [128, 128, 128]
    decreases |mbs|
  {
    hide IntraOk, VectorsOk, HasSym, ResidueOk;
    TraceLength(kind, st, mbs);
    var next := AfterMb(kind, st, mbs[0]);
    if i > 0 {
      PredictorsInFront(t, kind, rsize, next, mbs[1..], i - 1);
    } else {
      assert Trace(kind, next, mbs[1..])[0] == next;
      if mbs[0].Intra? { SixBlocks(mbs[0].blocks, AfterSkip(st, mbs[0].inc).dc); }
    }
  }

  lemma {:induction false} TraceLength(kind: Kind, st: State, mbs: seq<Mb>)
    requires |st.dc| == 3
    ensures |Trace(kind, st, mbs)| == |mbs|
    decreases |mbs|
  {
    if mbs != [] { TraceLength(kind, AfterMb(kind, st, mbs[0]), mbs[1..]); }
  }

  /** Blocks 0 to 3 are luminance, 4 and 5 one of each chrominance. */
  lemma SixBlocks(bs: seq<IntraBlock>, dc: seq<int>)
    requires |bs| == 6 && |dc| == 3
    ensures AfterIntra(bs, 0, dc) == [bs[3].dc, bs[4].dc, bs[5].dc]
  {
    var d0 := dc[0 := bs[0].dc];
    var d1, d2, d3 := d0[0 := bs[1].dc], d0[0 := bs[2].dc], d0[0 := bs[3].dc];
    var d4 := d3[1 := bs[4].dc];
    assert bs[1..][1..] == bs[2..] && bs[2..][1..] == bs[3..] && bs[3..][1..] == bs[4..];
    assert bs[4..][1..] == bs[5..] && bs[5..][1..] == [];
    assert AfterIntra(bs[4..], 4, d3) == AfterIntra(bs[5..], 5, d4) == d4[2 := bs[5].dc];
    assert d1[0 := bs[2].dc] == d2 && d2[0 := bs[3].dc] == d3;
    assert AfterIntra(bs[2..], 2, d1) == AfterIntra(bs[3..], 3, d2) == AfterIntra(bs[4..], 4, d3);
  }

  /** Along a whole slice the predictors stay in range; in frame pictures the vertical ones stay
      even, so halving and doubling them is exact. */
  lemma {:induction false} TraceOk(t: Tables, kind: Kind, rsize: nat, st: State, mbs: seq<Mb>, i: nat)
    requires StateOk(kind, rsize, st) && MbsOk(t, kind, rsize, st, mbs)
    requires i < |Trace(kind, st, mbs)|
    ensures StateOk(kind, rsize, Trace(kind, st, mbs)[i])
    ensures kind.FramePicture? ==>
      var p := Trace(kind, st, mbs)[i].pmv; p.y0 / 2 * 2 == p.y0 && p.y1 / 2 * 2 == p.y1
    decreases |mbs|
  {
    AfterMbOk(t, kind, rsize, st, mbs[0]);
    if i > 0 { TraceOk(t, kind, rsize, AfterMb(kind, st, mbs[0]), mbs[1..], i - 1); }
  }
}
