/** The writing side of tools/genmpeg12_interlaced.py field_picture_body and
    frame_picture_body: the loops over macroblocks, updating pmv and dc as they go. */
module SliceWriter {
  import opened Bits
  import opened Outcomes
  import opened Codewords
  import opened BitWriter
  import opened Motion
  import opened MotionSyntax
  import opened Residual
  import opened Slice
  import opened SliceReader

  method PutSym(bw: BW, codes: seq<Code>, sym: int)
    requires bw.Valid() && GoodTable(codes) && HasSym(codes, sym)
    modifies bw
    ensures bw.Valid() && bw.Bits() == old(bw.Bits()) + SymBits(codes, sym)
  {
    hide BW.Bits, BW.Valid, BitsOf, PrefixFree;
    bw.PutVlc(codes[Row(codes, sym)]);
  }

  lemma Regroup(a: seq<Bit>, b: seq<Bit>, c: seq<Bit>, d: seq<Bit>)
    ensures a + b + c + d == a + (b + (c + d))
  {}

  method PutSelVec(bw: BW, mv: seq<Code>, sel: nat, x: int, y: int, px: int, py: int, fcode: nat)
      returns (rx: int, ry: int)
    requires bw.Valid() && MvTable(mv) && fcode >= 1 && sel < 2
    modifies bw
    ensures bw.Valid() && rx == x && ry == y
    ensures bw.Bits() == old(bw.Bits()) + SelVecBits(mv, sel, x, y, px, py, fcode - 1)
  {
    hide BitsOf, MvBits, MvTable;
    assert Pow2(1) == 2;
    bw.Put(1, sel);
    rx := MvDelta(bw, mv, x, px, fcode);
    ry := MvDelta(bw, mv, y, py, fcode);
  }

  /** The motion vectors of one macroblock and the predictors they leave behind. */
  method PutVectors(bw: BW, mv: seq<Code>, kind: Kind, v: Vectors, p: Preds, fcode: nat) returns (q: Preds)
    requires bw.Valid() && MvTable(mv) && fcode >= 1 && VectorsOk(kind, v, fcode - 1)
    modifies bw
    ensures bw.Valid() && q == AfterVectors(kind, v)
    ensures bw.Bits() == old(bw.Bits()) + VectorsBits(mv, kind, v, p, fcode - 1)
  {
    hide BitsOf, MvBits, MvTable, SelVecBits, DmvBits, Pow2, BW.Bits, BW.Valid;
    var n := Scale(kind);
    match v {
      case Two(s0, avx, avy, s1, bvx, bvy) =>
        var x0, y0 := PutSelVec(bw, mv, s0, avx, avy, p.x0, p.y0 / n, fcode);
        var x1, y1 := PutSelVec(bw, mv, s1, bvx, bvy, p.x1, p.y1 / n, fcode);
        q := Preds(x0, y0 * n, x1, y1 * n);
      case One(sel, x, y) =>
        var x0, y0 := PutSelVec(bw, mv, sel, x, y, p.x0, p.y0 / n, fcode);
        q := Preds(x0, y0 * n, x0, y0 * n);
      case Dual(x, ddx, y, ddy) =>
        var x0 := MvDelta(bw, mv, x, p.x0, fcode);
        PutDmvector(bw, ddx);
        var got := MvDelta(bw, mv, y, p.y0 / n, fcode);
        PutDmvector(bw, ddy);
        Regroup(old(bw.Bits()) + MvBits(mv, x, p.x0, fcode - 1), DmvBits(ddx),
                MvBits(mv, y, p.y0 / n, fcode - 1), DmvBits(ddy));
        q := Preds(x0, got * n, x0, got * n);
    }
  }

  method PutBlocks(bw: BW, tab: seq<Code>, bs: seq<seq<Coef>>)
    requires bw.Valid() && CoefTable(tab) && BlocksOk(bs)
    modifies bw
    ensures bw.Valid() && bw.Bits() == old(bw.Bits()) + BlocksBits(tab, bs)
  {
    hide BlockBits, CoefTable, CoefsOk, BW.Bits, BW.Valid;
    ghost var goal := bw.Bits() + BlocksBits(tab, bs);
    assert bs[0..] == bs;
    for i := 0 to |bs|
      invariant bw.Valid() && bw.Bits() + BlocksBits(tab, bs[i..]) == goal
    {
      ghost var before := bw.Bits();
      assert bs[i..][1..] == bs[i + 1..];
      PutBlock(bw, tab, bs[i]);
      assert before + (BlockBits(tab, bs[i]) + BlocksBits(tab, bs[i + 1..]))
             == bw.Bits() + BlocksBits(tab, bs[i + 1..]);
    }
    assert bw.Bits() + [] == bw.Bits();
  }

  method PutIntra(bw: BW, t: Tables, bs: seq<IntraBlock>, dc: seq<int>) returns (dc': seq<int>)
    requires bw.Valid() && TablesOk(t) && IntraOk(bs, 0, dc)
    modifies bw
    ensures bw.Valid() && dc' == AfterIntra(bs, 0, dc)
    ensures bw.Bits() == old(bw.Bits()) + IntraBits(t, bs, 0, dc)
  {
    hide BlockBits, DcBits, GoodTable, HasSym, CoefsOk, Comp, BW.Bits, BW.Valid;
    ghost var goal := bw.Bits() + IntraBits(t, bs, 0, dc);
    dc' := dc;
    assert bs[0..] == bs;
    for n := 0 to |bs|
      invariant bw.Valid() && IntraOk(bs[n..], n, dc')
      invariant AfterIntra(bs[n..], n, dc') == AfterIntra(bs, 0, dc)
      invariant bw.Bits() + IntraBits(t, bs[n..], n, dc') == goal
    {
      ghost var before := bw.Bits();
      assert bs[n..][1..] == bs[n + 1..];
      ghost var a, b := DcBits(DcTab(t, n), bs[n].dc - dc'[Comp(n)]), BlockBits(t.coef, bs[n].coefs);
      DcDiff(bw, DcTab(t, n), bs[n].dc - dc'[Comp(n)]);
      PutBlock(bw, t.coef, bs[n].coefs);
      dc' := dc'[Comp(n) := bs[n].dc];
      ghost var c := IntraBits(t, bs[n + 1..], n + 1, dc');
      assert before + (a + (b + c)) == bw.Bits() + c;
    }
    assert bw.Bits() + [] == bw.Bits();
  }

  method PutResidue(bw: BW, t: Tables, r: Option<Residue>)
    requires bw.Valid() && TablesOk(t) && (r.Some? ==> ResidueOk(t, r.value))
    modifies bw
    ensures bw.Valid() && bw.Bits() == old(bw.Bits()) + ResidueBits(t, r)
  {
    hide BlocksBits, GoodTable, HasSym, BlocksOk, Ones, BitsOf, SymBits, BW.Bits, BW.Valid;
    if r.Some? {
      PutSym(bw, t.cbp, r.value.cbp);
      PutBlocks(bw, t.coef, r.value.blocks);
    } else {
      assert bw.Bits() + [] == bw.Bits();
    }
  }

  /** One inter macroblock after its type: motion type, dct_type, vectors, residue. */
  method PutInter(bw: BW, t: Tables, kind: Kind, fcode: nat, p: Preds, mb: Mb) returns (q: Preds)
    requires bw.Valid() && TablesOk(t) && fcode >= 1 && mb.Inter? && VectorsOk(kind, mb.vectors, fcode - 1)
    requires (mb.residue.Some? ==> ResidueOk(t, mb.residue.value)) && mb.dct < 2
    modifies bw
    ensures bw.Valid() && q == AfterVectors(kind, mb.vectors)
    ensures bw.Bits() == old(bw.Bits()) + InterBits(t, kind, fcode - 1, p, mb)
  {
    hide BitsOf, VectorsBits, ResidueBits, VectorsOk, ResidueOk, VectorType, AfterVectors, BW.Bits, BW.Valid;
    assert Pow2(2) == 4 && Pow2(1) == 2;
    bw.Put(TYPE_BITS, VectorType(kind, mb.vectors));
    if HasDct(kind, mb.residue.Some?) {
      bw.Put(1, mb.dct);
    }
    q := PutVectors(bw, t.mv, kind, mb.vectors, p, fcode);
    PutResidue(bw, t, mb.residue);
    Regroup(old(bw.Bits()) + BitsOf(VectorType(kind, mb.vectors), TYPE_BITS), DctBits(kind, mb),
            VectorsBits(t.mv, kind, mb.vectors, p, fcode - 1), ResidueBits(t, mb.residue));
  }

  /** One macroblock: address increment, predictor reset on a skip, type, body. */
  method PutMb(bw: BW, t: Tables, kind: Kind, fcode: nat, st: State, mb: Mb) returns (next: State)
    requires bw.Valid() && TablesOk(t) && fcode >= 1 && |st.dc| == 3 && MbOk(t, kind, fcode - 1, st, mb)
    modifies bw
    ensures bw.Valid() && next == AfterMb(kind, st, mb)
    ensures bw.Bits() == old(bw.Bits()) + MbBits(t, kind, fcode - 1, st, mb)
  {
    hide BitsOf, InterBits, IntraBits, VectorsOk, ResidueOk, IntraOk, GoodTable, HasSym, SymBits,
        AfterVectors, AfterIntra, BW.Bits, BW.Valid, Flags;
    var pmv, dc := st.pmv, st.dc;
    if mb.inc > 1 {
      pmv, dc := ZERO_PREDS, RESET_DC;
    }
    PutSym(bw, t.mbincr, mb.inc);
    PutSym(bw, t.ptype, Flags(mb));
    ghost var a, b := SymBits(t.mbincr, mb.inc), SymBits(t.ptype, Flags(mb));
    Regroup(old(bw.Bits()), a, b, BodyBits(t, kind, fcode - 1, st, mb));
    if mb.Intra? {
      dc := PutIntra(bw, t, mb.blocks, dc);
      pmv := ZERO_PREDS;
    } else {
      pmv := PutInter(bw, t, kind, fcode, pmv, mb);
      dc := RESET_DC;
    }
    next := State(pmv, dc);
  }

  /** The macroblock loop of one slice, from reset predictors. */
  method PutSlice(bw: BW, t: Tables, kind: Kind, fcode: nat, mbs: seq<Mb>)
    requires bw.Valid() && TablesOk(t) && fcode >= 1 && MbsOk(t, kind, fcode - 1, START, mbs)
    modifies bw
    ensures bw.Valid() && bw.Bits() == old(bw.Bits()) + SliceBits(t, kind, fcode - 1, START, mbs)
  {
    hide MbBits, AfterMb, MbOk, TablesOk, BW.Bits, BW.Valid;
    ghost var goal := bw.Bits() + SliceBits(t, kind, fcode - 1, START, mbs);
    var st := START;
    assert mbs[0..] == mbs;
    for i := 0 to |mbs|
      invariant bw.Valid() && MbsOk(t, kind, fcode - 1, st, mbs[i..])
      invariant bw.Bits() + SliceBits(t, kind, fcode - 1, st, mbs[i..]) == goal
    {
      ghost var before, was := bw.Bits(), st;
      assert mbs[i..][1..] == mbs[i + 1..];
      st := PutMb(bw, t, kind, fcode, st, mbs[i]);
      ghost var rest := SliceBits(t, kind, fcode - 1, st, mbs[i + 1..]);
      assert before + (MbBits(t, kind, fcode - 1, was, mbs[i]) + rest) == bw.Bits() + rest;
    }
    assert bw.Bits() + [] == bw.Bits();
  }

  /** A slice written after whatever the writer holds reads back exactly, whatever follows it. */
  method WriteAndRead(bw: BW, t: Tables, kind: Kind, fcode: nat, mbs: seq<Mb>, tail: seq<Bit>)
      returns (ghost r: Parse<SliceRead>)
    requires bw.Valid() && TablesOk(t) && fcode >= 1 && MbsOk(t, kind, fcode - 1, START, mbs)
    modifies bw
    ensures r == ReadSlice(t, kind.FramePicture?, fcode - 1, bw.Bits() + tail, |old(bw.Bits())|, Shown(START),
                           Span(mbs))
    ensures r.Got? && r.value == SliceRead(mbs, AllShown(Trace(kind, START, mbs))) && r.pos == |bw.Bits()|
  {
    hide MbBits, SliceBits, MbsOk, TablesOk, ReadSlice;
    PutSlice(bw, t, kind, fcode, mbs);
    ghost var s := bw.Bits() + tail;
    assert VlcStream.At(s, |old(bw.Bits())|, SliceBits(t, kind, fcode - 1, START, mbs));
    StartOk(kind, fcode - 1);
    SliceRoundTrip(t, kind, fcode - 1, START, mbs, s, |old(bw.Bits())|);
    r := ReadSlice(t, kind.FramePicture?, fcode - 1, s, |old(bw.Bits())|, Shown(START), Span(mbs));
  }
}
