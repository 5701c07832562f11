/** c/lib/video/mpeg12_slice.c decode_mb: a reader of slices with predictors of its own, updated as
    sections 7.2.1 and 7.6.3 of ISO/IEC 13818-2 say, and the proof that it recovers what the generator
    wrote while holding the generator's predictors. */
module SliceReader {
  import opened Bits
  import opened Outcomes
  import opened Codewords
  import opened VlcStream
  import opened Motion
  import opened MotionSyntax
  import opened Residual
  import opened Slice

  /** PMV[r][0][t] and the three DC predictors. */
  datatype Held = Held(pmv: seq<seq<int>>, dc: seq<int>)

  predicate Square(pmv: seq<seq<int>>) { |pmv| == 2 && |pmv[0]| == 2 && |pmv[1]| == 2 }

  predicate HeldOk(h: Held) { Square(h.pmv) && |h.dc| == 3 }

  /** The generator's predictors as the reader keeps them. */
  function Shown(st: State): (h: Held)
    ensures |st.dc| == 3 ==> HeldOk(h)
  {
    Held(PmvOf(st.pmv), st.dc)
  }

  // -------------------------------------------------------------------- motion vectors --

  /** PMV[r][0][t] := v. */
  function Store(pmv: seq<seq<int>>, r: nat, t: nat, v: int): (q: seq<seq<int>>)
    requires Square(pmv) && r < 2 && t < 2
    ensures Square(q) && q[1 - r] == pmv[1 - r]
  {
    pmv[r := pmv[r][t := v]]
  }

  /** PMV[0][0][t] := PMV[1][0][t] := v. */
  function StoreBoth(pmv: seq<seq<int>>, t: nat, v: int): (q: seq<seq<int>>)
    requires Square(pmv) && t < 2
    ensures Square(q)
  {
    Store(Store(pmv, 0, t, v), 1, t, v)
  }

  datatype Vec = Vec(sel: nat, x: int, y: int, pmv: seq<seq<int>>)

  /** Field select and vector r; a field vector of a frame picture is predicted from half the vertical
      predictor and kept doubled. */
  function ReadVec(mv: seq<Code>, frame: bool, s: seq<Bit>, pos: nat, pmv: seq<seq<int>>, r: nat, rsize: nat)
      : (o: Parse<Vec>)
    requires GoodTable(mv) && Square(pmv) && r < 2
    ensures o.Got? ==> pos < o.pos && Square(o.value.pmv)
  {
    match GetMv(mv, s, pos + 1, pmv[r][0], rsize)
    case Fail => Fail
    case Got(x, p) =>
      match GetMv(mv, s, p, if frame then pmv[r][1] / 2 else pmv[r][1], rsize)
      case Fail => Fail
      case Got(y, q) =>
        Got(Vec(GetBits(s, pos, 1), x, y, Store(Store(pmv, r, 0, x), r, 1, if frame then 2 * y else y)), q)
  }

  datatype Moved = Moved(vectors: Vectors, pmv: seq<seq<int>>)

  /** The motion vectors of one macroblock by motion type: 3 is dual prime; two vectors are field-based
      motion (1) of a frame picture or 16x8 motion (2) of a field picture. */
  function ReadVectors(mv: seq<Code>, frame: bool, typ: nat, s: seq<Bit>, pos: nat, pmv: seq<seq<int>>, rsize: nat)
      : (r: Parse<Moved>)
    requires GoodTable(mv) && Square(pmv)
    ensures r.Got? ==> pos < r.pos && Square(r.value.pmv)
  {
    if typ == 3 then ReadDual(mv, frame, s, pos, pmv, rsize)
    else if typ == (if frame then 1 else 2) then
      match ReadVec(mv, frame, s, pos, pmv, 0, rsize)
      case Fail => Fail
      case Got(a, p) =>
        match ReadVec(mv, frame, s, p, a.pmv, 1, rsize)
        case Fail => Fail
        case Got(b, q) => Got(Moved(Two(a.sel, a.x, a.y, b.sel, b.x, b.y), b.pmv), q)
    else if typ == 1 then
      match ReadVec(mv, frame, s, pos, pmv, 0, rsize)
      case Fail => Fail
      case Got(a, p) => Got(Moved(One(a.sel, a.x, a.y), StoreBoth(StoreBoth(a.pmv, 0, a.x), 1, a.y)), p)
    else Fail
  }

  function ReadDual(mv: seq<Code>, frame: bool, s: seq<Bit>, pos: nat, pmv: seq<seq<int>>, rsize: nat)
      : (r: Parse<Moved>)
    requires GoodTable(mv) && Square(pmv)
    ensures r.Got? ==> pos < r.pos && Square(r.value.pmv)
  {
    match GetMv(mv, s, pos, pmv[0][0], rsize)
    case Fail => Fail
    case Got(x, p) =>
      var (ddx, q) := GetDmv(s, p);
      match GetMv(mv, s, q, if frame then pmv[0][1] / 2 else pmv[0][1], rsize)
      case Fail => Fail
      case Got(y, u) =>
        var (ddy, w) := GetDmv(s, u);
        Got(Moved(Dual(x, ddx, y, ddy), StoreBoth(StoreBoth(pmv, 0, x), 1, if frame then 2 * y else y)), w)
  }

  lemma MvExact(mv: seq<Code>, want: int, pred: int, rsize: nat, s: seq<Bit>, pos: nat)
    requires MvTable(mv) && InRangeMv(pred, Pow2(rsize)) && InRangeMv(want, Pow2(rsize))
    requires At(s, pos, MvBits(mv, want, pred, rsize))
    ensures GetMv(mv, s, pos, pred, rsize) == Got(want, pos + |MvBits(mv, want, pred, rsize)|)
  {
    MvRoundTrip(mv, want, pred, rsize, s, pos);
    WrapFixes(want, Pow2(rsize));
  }

  lemma VecRoundTrip(mv: seq<Code>, frame: bool, sel: nat, x: int, y: int, pmv: seq<seq<int>>, r: nat, px: int, py: int,
      rsize: nat, s: seq<Bit>, pos: nat)
    requires MvTable(mv) && sel < 2 && Square(pmv) && r < 2
    requires px == pmv[r][0] && py == if frame then pmv[r][1] / 2 else pmv[r][1]
    requires InRangeMv(x, Pow2(rsize)) && InRangeMv(y, Pow2(rsize))
    requires InRangeMv(px, Pow2(rsize)) && InRangeMv(py, Pow2(rsize))
    requires At(s, pos, SelVecBits(mv, sel, x, y, px, py, rsize))
    ensures ReadVec(mv, frame, s, pos, pmv, r, rsize) ==
            Got(Vec(sel, x, y, Store(Store(pmv, r, 0, x), r, 1, if frame then 2 * y else y)),
                pos + |SelVecBits(mv, sel, x, y, px, py, rsize)|)
  {
    hide BitsOf, MvBits, GetMv, GetBits, MvTable, At, InRangeMv, Store;
    var a, b, c := BitsOf(sel, 1), MvBits(mv, x, px, rsize), MvBits(mv, y, py, rsize);
    AtSplit(s, pos, a, b + c);
    AtSplit(s, pos + 1, b, c);
    assert Pow2(1) == 2;
    ReadsBits(sel, 1, s, pos);
    MvExact(mv, x, px, rsize, s, pos + 1);
    MvExact(mv, y, py, rsize, s, pos + 1 + |b|);
  }

  lemma DualRoundTrip(mv: seq<Code>, frame: bool, v: Vectors, pmv: seq<seq<int>>, px: int, py: int, rsize: nat,
      s: seq<Bit>,
      pos: nat)
    requires MvTable(mv) && v.Dual? && Square(pmv)
    requires InRangeMv(v.dx, Pow2(rsize)) && InRangeMv(v.dy, Pow2(rsize)) && -1 <= v.ddx <= 1 && -1 <= v.ddy <= 1
    requires px == pmv[0][0] && py == if frame then pmv[0][1] / 2 else pmv[0][1]
    requires InRangeMv(px, Pow2(rsize)) && InRangeMv(py, Pow2(rsize))
    requires At(s, pos, DualBits(mv, v, px, py, rsize))
    ensures ReadDual(mv, frame, s, pos, pmv, rsize) ==
            Got(Moved(v, StoreBoth(StoreBoth(pmv, 0, v.dx), 1, if frame then 2 * v.dy else v.dy)),
                pos + |DualBits(mv, v, px, py, rsize)|)
  {
    hide BitsOf, MvBits, GetMv, GetBits, MvTable, At, InRangeMv, DmvBits, GetDmv, StoreBoth;
    var a, b := MvBits(mv, v.dx, px, rsize), DmvBits(v.ddx);
    var c, d := MvBits(mv, v.dy, py, rsize), DmvBits(v.ddy);
    AtSplit(s, pos, a, b + (c + d));
    AtSplit(s, pos + |a|, b, c + d);
    AtSplit(s, pos + |a| + |b|, c, d);
    MvExact(mv, v.dx, px, rsize, s, pos);
    DmvRoundTrip(v.ddx, s, pos + |a|);
    MvExact(mv, v.dy, py, rsize, s, pos + |a| + |b|);
    DmvRoundTrip(v.ddy, s, pos + |a| + |b| + |c|);
  }

  lemma StoredTwo(pmv: seq<seq<int>>, a: int, b: int, c: int, d: int)
    requires Square(pmv)
    ensures Store(Store(Store(Store(pmv, 0, 0, a), 0, 1, b), 1, 0, c), 1, 1, d) == [[a, b], [c, d]]
  {
    var q := Store(Store(Store(Store(pmv, 0, 0, a), 0, 1, b), 1, 0, c), 1, 1, d);
    assert q[0] == [a, b] && q[1] == [c, d];
  }

  lemma StoredBoth(pmv: seq<seq<int>>, x: int, y: int)
    requires Square(pmv)
    ensures StoreBoth(StoreBoth(pmv, 0, x), 1, y) == [[x, y], [x, y]]
  {
    var q := StoreBoth(StoreBoth(pmv, 0, x), 1, y);
    assert q[0] == [x, y] && q[1] == [x, y];
  }

  /** The reader's predictors for a generator's. */
  function PmvOf(p: Preds): (pmv: seq<seq<int>>)
    ensures Square(pmv)
  {
    [[p.x0, p.y0], [p.x1, p.y1]]
  }

  /** Every motion syntax reads back, and leaves the reader with the generator's next predictors. */
  lemma VectorsRoundTrip(mv: seq<Code>, kind: Kind, v: Vectors, p: Preds, rsize: nat, s: seq<Bit>, pos: nat)
    requires MvTable(mv) && VectorsOk(kind, v, rsize) && PredsOk(kind, p, rsize)
    requires At(s, pos, VectorsBits(mv, kind, v, p, rsize))
    ensures ReadVectors(mv, kind.FramePicture?, VectorType(kind, v), s, pos, PmvOf(p), rsize) ==
            Got(Moved(v, PmvOf(AfterVectors(kind, v))), pos + |VectorsBits(mv, kind, v, p, rsize)|)
  {
    hide BitsOf, MvBits, SelVecBits, DualBits, ReadVec, ReadDual, MvTable, At, InRangeMv, Pow2, Store, StoreBoth;
    var n, frame, pmv := Scale(kind), kind.FramePicture?, PmvOf(p);
    match v
    case Two(s0, avx, avy, s1, bvx, bvy) =>
      var a := SelVecBits(mv, s0, avx, avy, p.x0, p.y0 / n, rsize);
      var b := SelVecBits(mv, s1, bvx, bvy, p.x1, p.y1 / n, rsize);
      AtSplit(s, pos, a, b);
      VecRoundTrip(mv, frame, s0, avx, avy, pmv, 0, p.x0, p.y0 / n, rsize, s, pos);
      var mid := Store(Store(pmv, 0, 0, avx), 0, 1, if frame then 2 * avy else avy);
      VecRoundTrip(mv, frame, s1, bvx, bvy, mid, 1, p.x1, p.y1 / n, rsize, s, pos + |a|);
      StoredTwo(pmv, avx, avy * n, bvx, bvy * n);
    case One(sel, x, y) =>
      VecRoundTrip(mv, frame, sel, x, y, pmv, 0, p.x0, p.y0 / n, rsize, s, pos);
      StoredBoth(Store(Store(pmv, 0, 0, x), 0, 1, y), x, y);
    case Dual(x, _, y, _) =>
      DualRoundTrip(mv, frame, v, pmv, p.x0, p.y0 / n, rsize, s, pos);
      StoredBoth(pmv, x, y * n);
  }

  // ------------------------------------------------------------------------ residue --

  /** A block of a predicted macroblock. Its first coefficient may be the short form of run 0 and level 1
      or -1, which takes the place of the end-of-block code there. */
  function ReadInterBlock(tab: seq<Code>, s: seq<Bit>, pos: nat): (r: Parse<seq<Coef>>)
    requires GoodTable(tab)
    ensures r.Got? ==> pos < r.pos
  {
    if pos < |s| && s[pos] == 1 then
      match Residual.GetBlock(tab, s, pos + 2, 0)
      case Fail => Fail
      case Got(rest, p) => Got([Coef(0, if GetBits(s, pos + 1, 1) == 1 then -1 else 1)] + rest, p)
    else Residual.GetBlock(tab, s, pos, -1)
  }

  /** The blocks from number n on whose bit of the pattern is set, the first block's being the highest. */
  function ReadBlocks(tab: seq<Code>, cbp: nat, s: seq<Bit>, pos: nat, n: nat): (r: Parse<seq<seq<Coef>>>)
    requires GoodTable(tab) && n <= 6
    ensures r.Got? ==> pos <= r.pos
    decreases 6 - n
  {
    if n == 6 then Got([], pos)
    else if cbp / Pow2(5 - n) % 2 == 0 then ReadBlocks(tab, cbp, s, pos, n + 1)
    else match ReadInterBlock(tab, s, pos)
      case Fail => Fail
      case Got(b, p) =>
        match ReadBlocks(tab, cbp, s, p, n + 1)
        case Fail => Fail
        case Got(rest, q) => Got([b] + rest, q)
  }

  function ReadResidue(t: Tables, coded: bool, s: seq<Bit>, pos: nat): (r: Parse<Option<Residue>>)
    requires TablesOk(t)
    ensures r.Got? ==> pos <= r.pos
  {
    if !coded then Got(None, pos)
    else match GetSym(t.cbp, s, pos)
      case Fail => Fail
      case Got(cbp, p) =>
        if cbp <= 0 then Fail
        else match ReadBlocks(t.coef, cbp, s, p, 0)
          case Fail => Fail
          case Got(bs, q) => Got(Some(Residue(cbp, bs)), q)
  }

  lemma InterBlockRoundTrip(tab: seq<Code>, cs: seq<Coef>, s: seq<Bit>, pos: nat)
    requires CoefTable(tab) && SymBits(tab, ESCAPE)[0] == 0 && cs != [] && CoefsOk(cs) && Places(cs) <= 63
    requires At(s, pos, BlockBits(tab, cs))
    ensures ReadInterBlock(tab, s, pos) == Got(cs, pos + |BlockBits(tab, cs)|)
  {
    hide SymBits, BitsOf, GoodTable, HasSym, Residual.GetBlock;
    BlockRoundTrip(tab, cs, s, pos, -1);
    assert BlockBits(tab, cs) == CoefBits(tab, cs[0]) + BlockBits(tab, cs[1..]);
    assert s[pos] == BlockBits(tab, cs)[0] == CoefBits(tab, cs[0])[0] == SymBits(tab, ESCAPE)[0];
  }

  /** Halving and then cutting is cutting twice as much. */
  lemma HalfParts(c: nat, m: nat)
    requires m > 0
    ensures Remainder(c, 2 * m) == 2 * Remainder(c / 2, m) + c % 2 && Quotient(c, 2 * m) == Quotient(c / 2, m)
  {
    var h, b := c / 2, c % 2;
    var q, r := h / m, h % m;
    assert c == 2 * h + b && h == m * q + r;
    assert 2 * (m * q) == (2 * m) * q;
    DivModUnique(c, 2 * m, q, 2 * r + b);
  }

  lemma OnesTwice(r: nat, b: nat)
    requires b < 2
    ensures Ones(2 * r + b) == b + Ones(r)
  {
    assert (2 * r + b) % 2 == b && (2 * r + b) / 2 == r;
  }

  /** The bit above the lowest k, and those below it. */
  lemma {:induction false} OnesSplit(c: nat, k: nat)
    ensures Ones(Remainder(c, Pow2(k + 1))) == Quotient(c, Pow2(k)) % 2 + Ones(Remainder(c, Pow2(k)))
    decreases k
  {
    hide Ones, Pow2, Quotient, Remainder;
    NextPower(k);
    HalfParts(c, Pow2(k));
    OnesTwice(Remainder(c / 2, Pow2(k)), c % 2);
    if k == 0 {
      NoOnes();
      ByOne(c);
      ByOne(c / 2);
    } else {
      OnesSplit(c / 2, k - 1);
      NextPower(k - 1);
      HalfParts(c, Pow2(k - 1));
      OnesTwice(Remainder(c / 2, Pow2(k - 1)), c % 2);
    }
  }

  lemma ByOne(c: nat)
    ensures Remainder(c, 1) == 0 && Quotient(c, 1) == c
  {}

  lemma NextPower(k: nat)
    ensures Pow2(0) == 1 && Pow2(k + 1) == 2 * Pow2(k)
  {}

  lemma NoOnes()
    ensures Ones(0) == 0
  {}

  lemma {:induction false} BlocksRoundTrip(tab: seq<Code>, cbp: nat, bs: seq<seq<Coef>>, s: seq<Bit>, pos: nat, n: nat)
    requires CoefTable(tab) && SymBits(tab, ESCAPE)[0] == 0 && BlocksOk(bs) && n <= 6
    requires |bs| == Ones(Remainder(cbp, Pow2(6 - n))) && At(s, pos, BlocksBits(tab, bs))
    ensures ReadBlocks(tab, cbp, s, pos, n) == Got(bs, pos + |BlocksBits(tab, bs)|)
    decreases 6 - n
  {
    hide BlockBits, ReadInterBlock, GoodTable, HasSym, At, CoefsOk, SymBits, Pow2, Places, Ones;
    if n == 6 {
      NextPower(0);
      NoOnes();
    } else {
      hide ReadBlocks, Remainder;
      OnesSplit(cbp, 5 - n);
      if cbp / Pow2(5 - n) % 2 == 0 {
        BlocksRoundTrip(tab, cbp, bs, s, pos, n + 1);
        SkipBlock(tab, cbp, s, pos, n);
      } else {
        var head := BlockBits(tab, bs[0]);
        AtSplit(s, pos, head, BlocksBits(tab, bs[1..]));
        InterBlockRoundTrip(tab, bs[0], s, pos);
        BlocksRoundTrip(tab, cbp, bs[1..], s, pos + |head|, n + 1);
        TakeBlock(tab, cbp, s, pos, n, bs[0], pos + |head|, bs[1..], pos + |BlocksBits(tab, bs)|);
        assert [bs[0]] + bs[1..] == bs;
      }
    }
  }

  lemma SkipBlock(tab: seq<Code>, cbp: nat, s: seq<Bit>, pos: nat, n: nat)
    requires GoodTable(tab) && n < 6 && cbp / Pow2(5 - n) % 2 == 0
    ensures ReadBlocks(tab, cbp, s, pos, n) == ReadBlocks(tab, cbp, s, pos, n + 1)
  {
    hide Pow2, GoodTable, ReadInterBlock;
  }

  lemma TakeBlock(tab: seq<Code>, cbp: nat, s: seq<Bit>, pos: nat, n: nat, b: seq<Coef>, p: nat, rest: seq<seq<Coef>>,
      q: nat)
    requires GoodTable(tab) && n < 6 && cbp / Pow2(5 - n) % 2 != 0
    requires ReadInterBlock(tab, s, pos) == Got(b, p) && ReadBlocks(tab, cbp, s, p, n + 1) == Got(rest, q)
    ensures ReadBlocks(tab, cbp, s, pos, n) == Got([b] + rest, q)
  {
    hide Pow2, GoodTable, ReadInterBlock;
  }

  lemma ResidueRoundTrip(t: Tables, r: Option<Residue>, s: seq<Bit>, pos: nat)
    requires TablesOk(t) && (r.Some? ==> ResidueOk(t, r.value)) && At(s, pos, ResidueBits(t, r))
    ensures ReadResidue(t, r.Some?, s, pos) == Got(r, pos + |ResidueBits(t, r)|)
  {
    hide SymBits, GetSym, BlocksBits, ReadBlocks, GoodTable, HasSym, At, BlocksOk, Ones;
    if r.Some? {
      var head := SymBits(t.cbp, r.value.cbp);
      AtSplit(s, pos, head, BlocksBits(t.coef, r.value.blocks));
      ReadsSym(t.cbp, r.value.cbp, s, pos);
      assert Pow2(6) == 64;
      BlocksRoundTrip(t.coef, r.value.cbp, r.value.blocks, s, pos + |head|, 0);
    }
  }

  // -------------------------------------------------------------------- intra blocks --

  datatype Levels = Levels(blocks: seq<IntraBlock>, dc: seq<int>)

  /** One block of an intra macroblock: its difference is added to the predictor of its component, and its
      first four use the luminance table. */
  function ReadIntraBlock(t: Tables, s: seq<Bit>, pos: nat, n: nat, pred: int): (r: Parse<IntraBlock>)
    requires TablesOk(t)
    ensures r.Got? ==> pos <= r.pos
  {
    match GetDc(if n < 4 then t.dcLum else t.dcChroma, s, pos)
    case Fail => Fail
    case Got(diff, p) =>
      match Residual.GetBlock(t.coef, s, p, 0)
      case Fail => Fail
      case Got(cs, q) => Got(IntraBlock(pred + diff, cs), q)
  }

  /** The six blocks of an intra macroblock from number n on: four of Y, then Cb and Cr. */
  function ReadIntra(t: Tables, s: seq<Bit>, pos: nat, n: nat, dc: seq<int>): (r: Parse<Levels>)
    requires TablesOk(t) && |dc| == 3 && n <= 6
    ensures r.Got? ==> pos <= r.pos && |r.value.dc| == 3
    decreases 6 - n
  {
    if n == 6 then Got(Levels([], dc), pos)
    else
      var c := if n < 4 then 0 else if n == 4 then 1 else 2;
      match ReadIntraBlock(t, s, pos, n, dc[c])
      case Fail => Fail
      case Got(b, q) =>
        match ReadIntra(t, s, q, n + 1, dc[c := b.dc])
        case Fail => Fail
        case Got(rest, u) => Got(Levels([b] + rest.blocks, rest.dc), u)
  }

  /** The first block and the rest, as written. */
  lemma IntraFirst(t: Tables, bs: seq<IntraBlock>, n: nat, dc: seq<int>)
    requires TablesOk(t) && IntraOk(bs, n, dc) && bs != []
    ensures |dc| == 3 && DcOk(bs[0].dc - dc[Comp(n)]) && CoefsOk(bs[0].coefs) && Places(bs[0].coefs) <= 63
    ensures IntraOk(bs[1..], n + 1, dc[Comp(n) := bs[0].dc])
    ensures IntraBits(t, bs, n, dc) == DcBits(DcTab(t, n), bs[0].dc - dc[Comp(n)]) + BlockBits(t.coef, bs[0].coefs)
      + IntraBits(t, bs[1..], n + 1, dc[Comp(n) := bs[0].dc])
    ensures AfterIntra(bs, n, dc) == AfterIntra(bs[1..], n + 1, dc[Comp(n) := bs[0].dc])
  {
    hide BlockBits, DcBits, GoodTable, HasSym, CoefsOk, Comp, DcOk;
  }

  /** The first block and the rest, as read. */
  lemma IntraNext(t: Tables, s: seq<Bit>, pos: nat, n: nat, dc: seq<int>, c: nat, b: IntraBlock, q: nat, rest: Levels,
      u: nat)
    requires TablesOk(t) && |dc| == 3 && n < 6 && c == (if n < 4 then 0 else if n == 4 then 1 else 2)
    requires ReadIntraBlock(t, s, pos, n, dc[c]) == Got(b, q)
    requires ReadIntra(t, s, q, n + 1, dc[c := b.dc]) == Got(rest, u)
    ensures ReadIntra(t, s, pos, n, dc) == Got(Levels([b] + rest.blocks, rest.dc), u)
  {
    hide TablesOk, ReadIntraBlock;
  }

  lemma IntraBlockBack(t: Tables, b: IntraBlock, n: nat, pred: int, s: seq<Bit>, pos: nat)
    requires TablesOk(t) && n < 6 && DcOk(b.dc - pred) && CoefsOk(b.coefs) && Places(b.coefs) <= 63
    requires At(s, pos, DcBits(DcTab(t, n), b.dc - pred) + BlockBits(t.coef, b.coefs))
    ensures ReadIntraBlock(t, s, pos, n, pred)
            == Got(b, pos + |DcBits(DcTab(t, n), b.dc - pred) + BlockBits(t.coef, b.coefs)|)
  {
    hide DcBits, BlockBits, GetDc, Residual.GetBlock, GoodTable, HasSym, At, CoefsOk, Comp, DcOk, DcTab, Places;
    Components(t, n);
    var x, y := DcBits(DcTab(t, n), b.dc - pred), BlockBits(t.coef, b.coefs);
    AtSplit(s, pos, x, y);
    DcRoundTrip(DcTab(t, n), b.dc - pred, s, pos);
    BlockRoundTrip(t.coef, b.coefs, s, pos + |x|, 0);
  }

  lemma IntraNone(t: Tables, s: seq<Bit>, pos: nat, dc: seq<int>)
    requires TablesOk(t) && IntraOk([], 6, dc)
    ensures |dc| == 3 && ReadIntra(t, s, pos, 6, dc) == Got(Levels([], dc), pos) && IntraBits(t, [], 6, dc) == []
    ensures AfterIntra([], 6, dc) == dc
  {
    hide GoodTable, HasSym, MvTable, CoefTable, DcTable;
  }

  /** The component a block belongs to, and its table. */
  lemma Components(t: Tables, n: nat)
    requires n < 6
    ensures Comp(n) == if n < 4 then 0 else if n == 4 then 1 else 2
    ensures DcTab(t, n) == if n < 4 then t.dcLum else t.dcChroma
  {}

  lemma {:induction false} IntraRoundTrip(t: Tables, bs: seq<IntraBlock>, n: nat, dc: seq<int>, s: seq<Bit>, pos: nat)
    requires TablesOk(t) && IntraOk(bs, n, dc) && |dc| == 3 && n + |bs| == 6 && At(s, pos, IntraBits(t, bs, n, dc))
    ensures ReadIntra(t, s, pos, n, dc) == Got(Levels(bs, AfterIntra(bs, n, dc)), pos + |IntraBits(t, bs, n, dc)|)
    decreases |bs|
  {
    hide BlockBits, DcBits, ReadIntraBlock, GoodTable, HasSym, At, CoefsOk, Comp, DcOk, ReadIntra, IntraBits,
        IntraOk, AfterIntra, DcTab, Places;
    if bs == [] {
      IntraNone(t, s, pos, dc);
    } else {
      IntraFirst(t, bs, n, dc);
      Components(t, n);
      var dc' := dc[Comp(n) := bs[0].dc];
      var diff := bs[0].dc - dc[Comp(n)];
      var a := DcBits(DcTab(t, n), diff) + BlockBits(t.coef, bs[0].coefs);
      var c := IntraBits(t, bs[1..], n + 1, dc');
      AtSplit(s, pos, a, c);
      IntraBlockBack(t, bs[0], n, dc[Comp(n)], s, pos);
      IntraRoundTrip(t, bs[1..], n + 1, dc', s, pos + |a|);
      assert [bs[0]] + bs[1..] == bs;
      IntraNext(t, s, pos, n, dc, Comp(n), bs[0], pos + |a|, Levels(bs[1..], AfterIntra(bs[1..], n + 1, dc')),
                pos + |a| + |c|);
    }
  }

  // --------------------------------------------------------------------- macroblocks --

  datatype MbRead = MbRead(mb: Mb, held: Held)

  /** A predicted macroblock: motion type in two bits, dct_type in a frame picture with a pattern, vectors,
      blocks. It resets the DC predictors. */
  function ReadInter(t: Tables, frame: bool, rsize: nat, s: seq<Bit>, pos: nat, h: Held, inc: nat, coded: bool)
      : (r: Parse<MbRead>)
    requires TablesOk(t) && HeldOk(h)
    ensures r.Got? ==> pos < r.pos && r.value.mb.inc == inc && HeldOk(r.value.held)
  {
    var typ := GetBits(s, pos, 2);
    var dct := if frame && coded then GetBits(s, pos + 2, 1) else 0;
    match ReadVectors(t.mv, frame, typ, s, if frame && coded then pos + 3 else pos + 2, h.pmv, rsize)
    case Fail => Fail
    case Got(v, u) =>
      match ReadResidue(t, coded, s, u)
      case Fail => Fail
      case Got(res, w) => Got(MbRead(Inter(inc, v.vectors, dct, res), Held(v.pmv, [128, 128, 128])), w)
  }

  /** Macroblock type: intra (1), or forward prediction without (8) or with (10) a pattern. Skipped
      macroblocks in front reset all predictors, an intra macroblock the vectors. */
  function ReadBody(t: Tables, frame: bool, rsize: nat, s: seq<Bit>, pos: nat, was: Held, inc: nat, flags: int)
      : (r: Parse<MbRead>)
    requires TablesOk(t) && HeldOk(was)
    ensures r.Got? ==> pos <= r.pos && r.value.mb.inc == inc && HeldOk(r.value.held)
  {
    var h := if inc > 1 then Held([[0, 0], [0, 0]], [128, 128, 128]) else was;
    if flags == 1 then
      match ReadIntra(t, s, if frame then pos + 1 else pos, 0, h.dc)
      case Fail => Fail
      case Got(l, q) => Got(MbRead(Intra(inc, l.blocks), Held([[0, 0], [0, 0]], l.dc)), q)
    else if flags == 8 || flags == 10 then ReadInter(t, frame, rsize, s, pos, h, inc, flags == 10)
    else Fail
  }

  function ReadMb(t: Tables, frame: bool, rsize: nat, s: seq<Bit>, pos: nat, h: Held): (r: Parse<MbRead>)
    requires TablesOk(t) && HeldOk(h)
    ensures r.Got? ==> pos < r.pos && r.value.mb.inc >= 1 && HeldOk(r.value.held)
  {
    match GetSym(t.mbincr, s, pos)
    case Fail => Fail
    case Got(inc, p) =>
      if !(1 <= inc <= 33) then Fail
      else match GetSym(t.ptype, s, p)
        case Fail => Fail
        case Got(flags, q) => ReadBody(t, frame, rsize, s, q, h, inc, flags)
  }

  lemma InterRoundTrip(t: Tables, kind: Kind, rsize: nat, p: Preds, dc: seq<int>, mb: Mb, s: seq<Bit>, pos: nat)
    requires TablesOk(t) && mb.Inter? && VectorsOk(kind, mb.vectors, rsize) && PredsOk(kind, p, rsize) && |dc| == 3
    requires (mb.residue.Some? ==> ResidueOk(t, mb.residue.value))
    requires mb.dct < 2 && (!HasDct(kind, mb.residue.Some?) ==> mb.dct == 0)
    requires At(s, pos, InterBits(t, kind, rsize, p, mb))
    ensures ReadInter(t, kind.FramePicture?, rsize, s, pos, Held(PmvOf(p), dc), mb.inc, mb.residue.Some?) ==
            Got(MbRead(mb, Held(PmvOf(AfterVectors(kind, mb.vectors)), [128, 128, 128])),
                pos + |InterBits(t, kind, rsize, p, mb)|)
  {
    hide BitsOf, VectorsBits, ResidueBits, ReadVectors, ReadResidue, GetBits, At, VectorsOk, PredsOk, ResidueOk,
        VectorType, AfterVectors, PmvOf;
    var typ := VectorType(kind, mb.vectors);
    var a, b := BitsOf(typ, TYPE_BITS), DctBits(kind, mb);
    var c, d := VectorsBits(t.mv, kind, mb.vectors, p, rsize), ResidueBits(t, mb.residue);
    AtSplit(s, pos, a, b + (c + d));
    AtSplit(s, pos + |a|, b, c + d);
    AtSplit(s, pos + |a| + |b|, c, d);
    assert Pow2(2) == 4 && Pow2(1) == 2;
    ReadsBits(typ, TYPE_BITS, s, pos);
    if HasDct(kind, mb.residue.Some?) { ReadsBits(mb.dct, 1, s, pos + |a|); }
    VectorsRoundTrip(t.mv, kind, mb.vectors, p, rsize, s, pos + |a| + |b|);
    ResidueRoundTrip(t, mb.residue, s, pos + |a| + |b| + |c|);
  }

  lemma BodyRoundTrip(t: Tables, kind: Kind, rsize: nat, st: State, mb: Mb, s: seq<Bit>, pos: nat)
    requires TablesOk(t) && StateOk(kind, rsize, st) && MbOk(t, kind, rsize, st, mb)
    requires At(s, pos, BodyBits(t, kind, rsize, st, mb))
    ensures ReadBody(t, kind.FramePicture?, rsize, s, pos, Shown(st), mb.inc, Flags(mb)) ==
            Got(MbRead(mb, Shown(AfterMb(kind, st, mb))), pos + |BodyBits(t, kind, rsize, st, mb)|)
  {
    hide IntraBits, InterBits, ReadIntra, ReadInter, At, VectorsOk, PredsOk, ResidueOk, IntraOk, TablesOk, HasSym,
        AfterIntra, AfterVectors;
    StartOk(kind, rsize);
    var now := AfterSkip(st, mb.inc);
    if mb.Intra? {
      IntraRoundTrip(t, mb.blocks, 0, now.dc, s, pos);
    } else {
      InterRoundTrip(t, kind, rsize, now.pmv, now.dc, mb, s, pos);
    }
  }

  lemma MbRoundTrip(t: Tables, kind: Kind, rsize: nat, st: State, mb: Mb, s: seq<Bit>, pos: nat)
    requires TablesOk(t) && StateOk(kind, rsize, st) && MbOk(t, kind, rsize, st, mb)
    requires At(s, pos, MbBits(t, kind, rsize, st, mb))
    ensures ReadMb(t, kind.FramePicture?, rsize, s, pos, Shown(st)) ==
            Got(MbRead(mb, Shown(AfterMb(kind, st, mb))), pos + |MbBits(t, kind, rsize, st, mb)|)
  {
    hide SymBits, GetSym, BodyBits, ReadBody, At, VectorsOk, PredsOk, ResidueOk, IntraOk, GoodTable, HasSym,
        Flags, AfterMb;
    var a, b, c := SymBits(t.mbincr, mb.inc), SymBits(t.ptype, Flags(mb)), BodyBits(t, kind, rsize, st, mb);
    AtSplit(s, pos, a, b + c);
    AtSplit(s, pos + |a|, b, c);
    ReadsSym(t.mbincr, mb.inc, s, pos);
    ReadsSym(t.ptype, Flags(mb), s, pos + |a|);
    BodyRoundTrip(t, kind, rsize, st, mb, s, pos + |a| + |b|);
  }

  // -------------------------------------------------------------------------- slices --

  datatype SliceRead = SliceRead(mbs: seq<Mb>, held: seq<Held>)

  /** Reads macroblocks until `left` addresses are used up; held are the predictors in front of each. */
  function ReadSlice(t: Tables, frame: bool, rsize: nat, s: seq<Bit>, pos: nat, h: Held, left: nat)
      : (r: Parse<SliceRead>)
    requires TablesOk(t) && HeldOk(h)
    decreases left
  {
    if left == 0 then Got(SliceRead([], []), pos)
    else match ReadMb(t, frame, rsize, s, pos, h)
      case Fail => Fail
      case Got(m, p) =>
        if m.mb.inc > left then Fail
        else match ReadSlice(t, frame, rsize, s, p, m.held, left - m.mb.inc)
          case Fail => Fail
          case Got(rest, q) => Got(SliceRead([m.mb] + rest.mbs, [h] + rest.held), q)
  }

  function AllShown(sts: seq<State>): (hs: seq<Held>)
    ensures |hs| == |sts| && forall i :: 0 <= i < |sts| ==> hs[i] == Shown(sts[i])
  {
    if sts == [] then [] else [Shown(sts[0])] + AllShown(sts[1..])
  }

  /** The slice theorem: the reader recovers every macroblock, vector and DC level, and its own predictors
      are the generator's in front of each one. */
  lemma {:induction false} SliceRoundTrip(t: Tables, kind: Kind, rsize: nat, st: State, mbs: seq<Mb>, s: seq<Bit>,
      pos: nat)
    requires TablesOk(t) && StateOk(kind, rsize, st) && MbsOk(t, kind, rsize, st, mbs)
    requires At(s, pos, SliceBits(t, kind, rsize, st, mbs))
    ensures ReadSlice(t, kind.FramePicture?, rsize, s, pos, Shown(st), Span(mbs)) ==
            Got(SliceRead(mbs, AllShown(Trace(kind, st, mbs))), pos + |SliceBits(t, kind, rsize, st, mbs)|)
    decreases |mbs|
  {
    hide MbBits, ReadMb, AfterMb, At, TablesOk, Shown, StateOk, MbOk;
    if mbs != [] {
      hide ReadSlice, AllShown, MbsOk, SliceBits, Trace, Span;
      var head := MbBits(t, kind, rsize, st, mbs[0]);
      var next := AfterMb(kind, st, mbs[0]);
      SliceFirst(t, kind, rsize, st, mbs);
      AtSplit(s, pos, head, SliceBits(t, kind, rsize, next, mbs[1..]));
      MbRoundTrip(t, kind, rsize, st, mbs[0], s, pos);
      AfterMbOk(t, kind, rsize, st, mbs[0]);
      SliceRoundTrip(t, kind, rsize, next, mbs[1..], s, pos + |head|);
      ReadNext(t, kind.FramePicture?, rsize, s, pos, Shown(st), Span(mbs), mbs[0], Shown(next), pos + |head|);
      ShownCons(st, Trace(kind, next, mbs[1..]));
    }
  }

  /** The first macroblock and the rest, as written. */
  lemma SliceFirst(t: Tables, kind: Kind, rsize: nat, st: State, mbs: seq<Mb>)
    requires TablesOk(t) && MbsOk(t, kind, rsize, st, mbs) && mbs != []
    ensures var next := AfterMb(kind, st, mbs[0]);
      && |st.dc| == 3 && MbOk(t, kind, rsize, st, mbs[0]) && MbsOk(t, kind, rsize, next, mbs[1..])
      && SliceBits(t, kind, rsize, st, mbs)
         == MbBits(t, kind, rsize, st, mbs[0]) + SliceBits(t, kind, rsize, next, mbs[1..])
      && Trace(kind, st, mbs) == [st] + Trace(kind, next, mbs[1..]) && mbs == [mbs[0]] + mbs[1..]
    ensures 1 <= mbs[0].inc && Span(mbs) == mbs[0].inc + Span(mbs[1..])
  {
    hide MbBits, AfterMb, TablesOk, HasSym, VectorsOk, IntraOk, ResidueOk;
  }

  /** One macroblock and the rest. */
  lemma ReadNext(t: Tables, frame: bool, rsize: nat, s: seq<Bit>, pos: nat, h: Held, left: nat, mb: Mb, next: Held,
      p: nat)
    requires TablesOk(t) && HeldOk(h) && HeldOk(next) && 1 <= mb.inc <= left
    requires ReadMb(t, frame, rsize, s, pos, h) == Got(MbRead(mb, next), p)
    ensures var rest := ReadSlice(t, frame, rsize, s, p, next, left - mb.inc);
      rest.Got? ==> ReadSlice(t, frame, rsize, s, pos, h, left) ==
                    Got(SliceRead([mb] + rest.value.mbs, [h] + rest.value.held), rest.pos)
  {
    hide ReadMb, TablesOk, HeldOk;
  }

  lemma ShownCons(st: State, rest: seq<State>)
    ensures AllShown([st] + rest) == [Shown(st)] + AllShown(rest)
  {
    assert ([st] + rest)[1..] == rest;
  }
}
