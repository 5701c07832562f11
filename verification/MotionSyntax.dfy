/** tools/genmpeg12_interlaced.py, the motion part of a macroblock: which vectors are
    coded, against which predictors, and how the predictors move on. */
module MotionSyntax {
  import opened Bits
  import opened Codewords
  import opened VlcStream
  import opened Motion

  datatype Kind = FieldPicture | FramePicture

  /** Vertical predictors are kept in frame lines; field vectors count field lines. */
  function Scale(kind: Kind): (n: nat)
    ensures n > 0
  {
    if kind.FramePicture? then 2 else 1
  }

  // ------------------------------------------------------------------ vectors --

  /** pmv[j][k], the two predictors of each of the two vectors. */
  datatype Preds = Preds(x0: int, y0: int, x1: int, y1: int)

  const ZERO_PREDS := Preds(0, 0, 0, 0)

  datatype Vectors =
    | Two(sel0: nat, avx: int, avy: int, sel1: nat, bvx: int, bvy: int)  // 16x8, or the two fields of a frame
    | One(sel: nat, x: int, y: int)                                  // field-based, field picture
    | Dual(dx: int, ddx: int, dy: int, ddy: int)                     // dual prime: vector and offset

  ghost predicate VectorsOk(kind: Kind, v: Vectors, rsize: nat) {
    var f := Pow2(rsize);
    match v
    case Two(s0, avx, avy, s1, bvx, bvy) =>
      s0 < 2 && s1 < 2 && InRangeMv(avx, f) && InRangeMv(avy, f) && InRangeMv(bvx, f) && InRangeMv(bvy, f)
    case One(s, x, y) => kind.FieldPicture? && s < 2 && InRangeMv(x, f) && InRangeMv(y, f)
    case Dual(x, ddx, y, ddy) => InRangeMv(x, f) && InRangeMv(y, f) && -1 <= ddx <= 1 && -1 <= ddy <= 1
  }

  /** Predictors in range, and even in frame pictures so that halving loses nothing. */
  ghost predicate PredsOk(kind: Kind, p: Preds, rsize: nat) {
    var f, n := Pow2(rsize), Scale(kind);
    && InRangeMv(p.x0, f) && InRangeMv(p.x1, f)
    && InRangeMv(p.y0 / n, f) && InRangeMv(p.y1 / n, f)
    && p.y0 / n * n == p.y0 && p.y1 / n * n == p.y1
  }

  function AfterVectors(kind: Kind, v: Vectors): (p: Preds) {
    var n := Scale(kind);
    match v
    case Two(_, avx, avy, _, bvx, bvy) => Preds(avx, avy * n, bvx, bvy * n)
    case One(_, x, y) => Preds(x, y * n, x, y * n)
    case Dual(x, _, y, _) => Preds(x, y * n, x, y * n)
  }

  lemma AfterVectorsOk(kind: Kind, v: Vectors, rsize: nat)
    requires VectorsOk(kind, v, rsize)
    ensures PredsOk(kind, AfterVectors(kind, v), rsize)
  {
    hide InRangeMv, Pow2;
    assert forall y: int :: ScaledBack(y, Scale(kind)) by {
      forall y: int ensures ScaledBack(y, Scale(kind)) { ScaleBack(y, Scale(kind)); }
    }
    match v
    case Two(_, _, avy, _, _, bvy) => assert ScaledBack(avy, Scale(kind)) && ScaledBack(bvy, Scale(kind));
    case One(_, _, y) => assert ScaledBack(y, Scale(kind));
    case Dual(_, _, y, _) => assert ScaledBack(y, Scale(kind));
  }

  ghost predicate ScaledBack(y: int, n: nat)
    requires n > 0
  {
    y * n / n == y
  }

  lemma ScaleBack(y: int, n: nat)
    requires n > 0
    ensures ScaledBack(y, n)
  {
    DivModUnique(y * n, n, y, 0);
  }

  function VectorType(kind: Kind, v: Vectors): (n: nat)
    ensures n < 4
  {
    match v
    case Two(_, _, _, _, _, _) => if kind.FieldPicture? then 2 else 1
    case One(_, _, _) => 1
    case Dual(_, _, _, _) => 3
  }

  /** field_select, then the two components. */
  function SelVecBits(mv: seq<Code>, sel: nat, x: int, y: int, px: int, py: int, rsize: nat): (s: seq<Bit>)
    requires MvTable(mv)
  {
    BitsOf(sel, 1) + (MvBits(mv, x, px, rsize) + MvBits(mv, y, py, rsize))
  }

  function DualBits(mv: seq<Code>, v: Vectors, px: int, py: int, rsize: nat): (s: seq<Bit>)
    requires MvTable(mv) && v.Dual?
  {
    MvBits(mv, v.dx, px, rsize) + (DmvBits(v.ddx) + (MvBits(mv, v.dy, py, rsize) + DmvBits(v.ddy)))
  }

  function VectorsBits(mv: seq<Code>, kind: Kind, v: Vectors, p: Preds, rsize: nat): (s: seq<Bit>)
    requires MvTable(mv)
  {
    var n := Scale(kind);
    match v
    case Two(s0, avx, avy, s1, bvx, bvy) =>
      SelVecBits(mv, s0, avx, avy, p.x0, p.y0 / n, rsize) + SelVecBits(mv, s1, bvx, bvy, p.x1, p.y1 / n, rsize)
    case One(sel, x, y) => SelVecBits(mv, sel, x, y, p.x0, p.y0 / n, rsize)
    case Dual(_, _, _, _) => DualBits(mv, v, p.x0, p.y0 / n, rsize)
  }
}
