/** tools/genlegacy.py _qtrle_row_ops: covering a row of pixel groups with repeat and copy
    operations. */
module QtrleRuns {
  import opened Outcomes

  type Group = seq<nat>
  type Groups = seq<Group>

  /** One operation: a group n times, or a list of groups as they are. */
  datatype Op = Repeat(n: nat, group: Group) | Copy(groups: Groups)

  const LONGEST: nat := 127

  /** Lengths a signed byte can carry, and which are neither 0 nor -1 on the wire. */
  predicate OpOk(op: Op) {
    match op
    case Repeat(n, _) => 2 <= n <= 127
    case Copy(gs) => 1 <= |gs| <= 127
  }

  function Times(g: Group, n: nat): (r: Groups)
    ensures |r| == n && forall i :: 0 <= i < n ==> r[i] == g
  {
    seq(n, _ => g)
  }

  /** The groups an operation stands for. */
  function Covered(op: Op): (r: Groups) {
    match op
    case Repeat(n, g) => Times(g, n)
    case Copy(gs) => gs
  }

  function CoveredAll(ops: seq<Op>): (r: Groups) {
    if ops == [] then [] else Covered(ops[0]) + CoveredAll(ops[1..])
  }

  lemma {:induction false} CoveredSnoc(ops: seq<Op>, op: Op)
    ensures CoveredAll(ops + [op]) == CoveredAll(ops) + Covered(op)
  {
    hide Covered;
    if ops == [] {
      assert ops + [op] == [op] && [op][1..] == [];
    } else {
      assert (ops + [op])[1..] == ops[1..] + [op];
      CoveredSnoc(ops[1..], op);
    }
  }

  // -------------------------------------------------------------------------- stretches --

  ghost predicate AllEqual(gs: Groups, i: nat, j: nat) {
    i < j <= |gs| && forall k :: i <= k < j ==> gs[k] == gs[i]
  }

  /** Group k differs from both its neighbours. */
  predicate Alone(gs: Groups, k: nat)
    requires k < |gs|
  {
    (k == 0 || gs[k - 1] != gs[k]) && (k + 1 == |gs| || gs[k] != gs[k + 1])
  }

  ghost predicate AllAlone(gs: Groups, i: nat, j: nat) {
    i < j <= |gs| && forall k :: i <= k < j ==> Alone(gs, k)
  }

  /** No run of equal groups and no stretch of lone groups is longer than one operation. */
  ghost predicate Short(gs: Groups) {
    forall i: nat, j: nat :: AllEqual(gs, i, j) || AllAlone(gs, i, j) ==> j - i <= 127
  }

  /** Position i starts a run: the group before it is different. */
  predicate RunStart(gs: Groups, i: nat) { i == 0 || i >= |gs| || gs[i - 1] != gs[i] }

  /** Where the run of groups equal to group i ends. */
  method RunEnd(gs: Groups, i: nat) returns (j: nat)
    requires i < |gs|
    ensures i < j <= |gs| && AllEqual(gs, i, j) && (j < |gs| ==> gs[j] != gs[i])
  {
    j := i;
    while j < |gs| && gs[j] == gs[i]
      invariant i <= j <= |gs| && forall k :: i <= k < j ==> gs[k] == gs[i]
    {
      j := j + 1;
    }
  }

  /** Where the stretch of lone groups from i ends: in front of two equal groups. */
  method LiteralEnd(gs: Groups, i: nat) returns (k: nat)
    requires i < |gs| && RunStart(gs, i)
    ensures i <= k <= |gs| && RunStart(gs, k) && (forall x :: i <= x < k ==> Alone(gs, x))
    ensures k < |gs| ==> !Alone(gs, k)
  {
    k := i;
    while k < |gs| && !(k + 1 < |gs| && gs[k] == gs[k + 1])
      invariant i <= k <= |gs| && RunStart(gs, k) && forall x :: i <= x < k ==> Alone(gs, x)
    {
      assert Alone(gs, k);
      k := k + 1;
    }
  }

  // ------------------------------------------------------------------- why stretches end --

  /** Everything before position i lies in stretches short enough. */
  ghost predicate ShortBefore(gs: Groups, i: nat) {
    forall a: nat, b: nat :: b <= i && (AllEqual(gs, a, b) || AllAlone(gs, a, b)) ==> b - a <= LONGEST
  }

  /** A stretch of equal groups has equal neighbours everywhere inside. */
  lemma EqualInside(gs: Groups, a: nat, b: nat, i: nat)
    requires AllEqual(gs, a, b) && a < i < b
    ensures gs[i - 1] == gs[i]
  {
    assert gs[i - 1] == gs[a] && gs[i] == gs[a];
  }

  /** After a run of several: nothing inside it is alone. */
  lemma RunShort(gs: Groups, i: nat, j: nat)
    requires ShortBefore(gs, i) && RunStart(gs, i) && AllEqual(gs, i, j) && 2 <= j - i <= LONGEST
    ensures ShortBefore(gs, j)
  {
    assert gs[i] == gs[i + 1] && !Alone(gs, i);
    forall a: nat, b: nat | b <= j && (AllEqual(gs, a, b) || AllAlone(gs, a, b)) ensures b - a <= LONGEST {
      if AllEqual(gs, a, b) && a < i < b { EqualInside(gs, a, b, i); }
    }
  }

  /** After a stretch of lone groups. */
  lemma LoneShort(gs: Groups, i: nat, k: nat)
    requires ShortBefore(gs, i) && RunStart(gs, i) && i < k <= |gs| && k - i <= LONGEST
    requires (forall x :: i <= x < k ==> Alone(gs, x)) && (i == 0 || !Alone(gs, i - 1))
    ensures ShortBefore(gs, k)
  {
    forall a: nat, b: nat | b <= k && (AllEqual(gs, a, b) || AllAlone(gs, a, b)) ensures b - a <= LONGEST {
      if AllEqual(gs, a, b) && a < i < b { EqualInside(gs, a, b, i); }
    }
  }

  ghost predicate AllOk(ops: seq<Op>) { forall x :: 0 <= x < |ops| ==> OpOk(ops[x]) }

  /** The operation at position s is a whole stretch: a run of equal groups that ends on both sides, or all
      the lone groups between two runs. */
  ghost predicate WholeStretch(gs: Groups, s: nat, op: Op) {
    match op
    case Repeat(n, g) =>
      && AllEqual(gs, s, s + n) && g == gs[s]
      && (s == 0 || gs[s - 1] != gs[s]) && (s + n == |gs| || gs[s + n] != gs[s])
    case Copy(c) =>
      && AllAlone(gs, s, s + |c|)
      && (s == 0 || !Alone(gs, s - 1)) && (s + |c| == |gs| || !Alone(gs, s + |c|))
  }

  /** Every operation is a whole stretch. */
  ghost predicate Greedy(gs: Groups, ops: seq<Op>) {
    forall x :: 0 <= x < |ops| ==> WholeStretch(gs, |CoveredAll(ops[..x])|, ops[x])
  }

  lemma GreedySnoc(gs: Groups, ops: seq<Op>, op: Op)
    requires Greedy(gs, ops) && WholeStretch(gs, |CoveredAll(ops)|, op)
    ensures Greedy(gs, ops + [op])
  {
    hide WholeStretch, CoveredAll;
    var all := ops + [op];
    forall x | 0 <= x < |all| ensures WholeStretch(gs, |CoveredAll(all[..x])|, all[x]) {
      assert all[..x] == if x < |ops| then ops[..x] else ops;
    }
  }

  /** _qtrle_row_ops: the operations partition the row's groups in order, each a whole stretch; the length
      assertions fail exactly when some stretch is too long for one operation. */
  method RowOps(gs: Groups) returns (r: Outcome<seq<Op>>)
    ensures r.Return? <==> Short(gs)
    ensures r.Return? ==> CoveredAll(r.value) == gs && AllOk(r.value) && Greedy(gs, r.value)
  {
    hide CoveredAll, Short, AllEqual, AllAlone, ShortBefore, Alone, Greedy;
    var ops: seq<Op> := [];
    var i := 0;
    Nothing(gs);
    while i < |gs|
      invariant i <= |gs| && RunStart(gs, i) && CoveredAll(ops) == gs[..i] && AllOk(ops)
      invariant ShortBefore(gs, i) && (0 < i < |gs| && Alone(gs, i) ==> !Alone(gs, i - 1))
      invariant Greedy(gs, ops)
    {
      var j := RunEnd(gs, i);
      RunFacts(gs, i, j);
      if j - i >= 2 {
        if j - i > LONGEST {
          TooLong(gs, i, j);
          return Raise;
        }
        RunShort(gs, i, j);
        CoveredSnoc(ops, Repeat(j - i, gs[i]));
        GreedySnoc(gs, ops, Repeat(j - i, gs[i]));
        assert gs[..j] == gs[..i] + Times(gs[i], j - i);
        ops := ops + [Repeat(j - i, gs[i])];
        i := j;
      } else {
        var k := LiteralEnd(gs, i);
        LoneFacts(gs, i, k);
        if k - i > LONGEST {
          TooLong(gs, i, k);
          return Raise;
        }
        LoneShort(gs, i, k);
        CoveredSnoc(ops, Copy(gs[i..k]));
        GreedySnoc(gs, ops, Copy(gs[i..k]));
        assert gs[..k] == gs[..i] + gs[i..k];
        ops := ops + [Copy(gs[i..k])];
        i := k;
      }
    }
    assert gs[..|gs|] == gs;
    WholeShort(gs);
    r := Return(ops);
  }

  lemma Nothing(gs: Groups)
    ensures CoveredAll([]) == [] == gs[..0] && ShortBefore(gs, 0) && Greedy(gs, [])
  {}

  lemma WholeShort(gs: Groups)
    requires ShortBefore(gs, |gs|)
    ensures Short(gs)
  {}

  lemma TooLong(gs: Groups, i: nat, j: nat)
    requires (AllEqual(gs, i, j) || AllAlone(gs, i, j)) && j - i > LONGEST
    ensures !Short(gs)
  {}

  /** What the end of a run says about its groups. */
  lemma RunFacts(gs: Groups, i: nat, j: nat)
    requires i < j <= |gs| && AllEqual(gs, i, j) && RunStart(gs, i) && (j < |gs| ==> gs[j] != gs[i])
    ensures RunStart(gs, j) && (forall k :: i <= k < j ==> gs[k] == gs[i])
    ensures j == i + 1 <==> Alone(gs, i)
    ensures j > i + 1 ==> !Alone(gs, j - 1)
  {
    if j > i + 1 {
      assert gs[i + 1] == gs[i] && gs[j - 2] == gs[j - 1];
    }
  }

  lemma LoneFacts(gs: Groups, i: nat, k: nat)
    requires i < |gs| && Alone(gs, i) && i <= k <= |gs| && (k < |gs| ==> !Alone(gs, k))
    requires forall x :: i <= x < k ==> Alone(gs, x)
    ensures i < k && AllAlone(gs, i, k)
  {}
}
