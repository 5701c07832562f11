/** tools/project_volume.py preserve_identities: exactly which updates are accepted, and the procedure. */
module RepackExact {
  import opened Bits
  import opened Outcomes
  import opened Bytes
  import opened LogitFs
  import opened VolumeWalk
  import opened IdentityBlind
  import opened Identities
  import opened Repack

  /** An object of the old volume may be kept as node: its kind stays, both versions can be read, and if
      they differ there is a revision left and a file was asked for. */
  ghost predicate MayKeep(src: Image, cand: Image, changed: set<Path>, p: Path, was: Node, node: Node)
    requires Layout(src) && was.ino < InodeCount(src)
  {
    && was.kind == node.kind && BothRead(src, was.ino, cand, node.ino, node.kind)
    && (SameContent(src, was.ino, cand, node.ino, node.kind)
        || (Revision(src, was.ino) < 0xFFFF_FFFF_FFFF_FFFF && (node.kind != 2 ==> p in changed)))
  }

  ghost predicate RowKeeps(src: Image, cand: Image, prior: Rows, changed: set<Path>, p: Path, node: Node)
    requires GoodRows(src, prior)
  {
    p in prior.at ==> (RowInRange(src, prior, p); MayKeep(src, cand, changed, p, prior.at[p], node))
  }

  /** What an update must satisfy: the candidate is a v4 volume, both trees can be walked, no old path is
      gone, every old object may be kept, and there are identities for the new ones. */
  ghost predicate Acceptable(src: Image, cand: Image, changed: set<Path>)
    requires Layout(src) && Layout(cand)
  {
    && Sb(cand, 0) == 0x4C4F4749 && Sb(cand, 1) == 4 && Sb(cand, 2) == 4096
    && Walk(src).Return? && Walk(cand).Return?
    && var prior, now := Walk(src).value, Walk(cand).value;
    && prior.at.Keys <= now.at.Keys && GoodRows(src, prior)
    && (forall p :: p in now.at ==> RowKeeps(src, cand, prior, changed, p, now.at[p]))
    && Counter(src) + |now.at.Keys - prior.at.Keys| <= 0xFFFF_FFFF_FFFF_FFFF
  }

  lemma AssignReturns(src: Image, cand: Image, prior: Rows, changed: set<Path>, p: Path, node: Node, counter: nat)
    requires GoodRows(src, prior) && counter <= MAX64
    ensures Assign(src, cand, prior, changed, p, node, counter).Return? <==>
            (RowKeeps(src, cand, prior, changed, p, node) && counter + (if p in prior.at then 0 else 1) <= MAX64)
  {
    hide Layout, RowsOk, Modified, BothRead, SameContent, Field;
    if p in prior.at {
      RowInRange(src, prior, p);
      ModifiedMeans(src, cand, prior.at[p], node);
    }
  }

  lemma {:induction false} StampRowsReturn(src: Image, cand: Image, prior: Rows, now: Rows, changed: set<Path>, n: nat)
    requires GoodRows(src, prior) && GoodRows(cand, now) && n <= |now.order|
    ensures forall k :: 0 <= k < |now.order| ==> now.order[k] in now.at
    ensures StampRows(src, cand, prior, now, changed, n).Return? <==>
            ((forall k :: 0 <= k < n ==> RowKeeps(src, cand, prior, changed, now.order[k], now.at[now.order[k]]))
             && Counter(src) + NewBelow(prior, now.order, n) <= MAX64)
  {
    hide Layout, RowsOk, Assign, RowKeeps, StampOne, Field, Blind, RowDone, OthersKept;
    forall k | 0 <= k < |now.order| ensures now.order[k] in now.at { RowListed(cand, now, k); }
    if n > 0 {
      StampRowsReturn(src, cand, prior, now, changed, n - 1);
      if StampRows(src, cand, prior, now, changed, n - 1).Return? {
        var l := StampRows(src, cand, prior, now, changed, n - 1).value;
        StampRowsInv(src, cand, prior, now, changed, n - 1);
        AssignReturns(src, cand, prior, changed, now.order[n - 1], now.at[now.order[n - 1]], l.counter);
      }
    }
  }

  /** The paths among the first n that the old volume does not have. */
  ghost function NewSet(prior: Rows, order: seq<Path>, n: nat): (s: set<Path>)
    requires n <= |order|
  {
    set p | p in order[..n] && p !in prior.at
  }

  /** No path is listed twice. */
  ghost predicate Once(order: seq<Path>) { forall i, j :: 0 <= i < j < |order| ==> order[i] != order[j] }

  lemma NewSetNext(prior: Rows, order: seq<Path>, n: nat)
    requires n < |order| && Once(order)
    ensures |NewSet(prior, order, n + 1)| == |NewSet(prior, order, n)| + if order[n] in prior.at then 0 else 1
  {
    var a, b, p := NewSet(prior, order, n), NewSet(prior, order, n + 1), order[n];
    assert order[..n + 1] == order[..n] + [p];
    if p in prior.at {
      assert b == a;
    } else {
      assert p !in a;
      assert b == a + {p};
    }
  }

  lemma {:induction false} NewPaths(prior: Rows, order: seq<Path>, n: nat)
    requires n <= |order| && Once(order)
    ensures NewBelow(prior, order, n) == |NewSet(prior, order, n)|
  {
    hide Once;
    if n == 0 {
      assert NewSet(prior, order, 0) == {};
    } else {
      hide NewSet;
      NewPaths(prior, order, n - 1);
      NewSetNext(prior, order, n - 1);
    }
  }

  lemma NewCount(prior: Rows, now: Rows)
    requires Ordered(now)
    ensures NewBelow(prior, now.order, |now.order|) == |now.at.Keys - prior.at.Keys|
  {
    hide NewBelow;
    NewPaths(prior, now.order, |now.order|);
    assert now.order[..|now.order|] == now.order;
    assert NewSet(prior, now.order, |now.order|) == now.at.Keys - prior.at.Keys;
  }

  /** An update is accepted exactly when it is acceptable. */
  lemma PreserveAccepts(src: Image, cand: Image, changed: set<Path>)
    requires Layout(src) && Layout(cand)
    ensures Preserve(src, cand, changed).Return? <==> Acceptable(src, cand, changed)
  {
    hide Layout, Walk, StampRows, Finish, RowKeeps, Field, Honest, Injective, NewBelow, GetInode, Ordered;
    if Walk(src).Return? && Walk(cand).Return? {
      WalkOk(src);
      WalkOk(cand);
      var prior, now := Walk(src).value, Walk(cand).value;
      var n := |now.order|;
      StampRowsReturn(src, cand, prior, now, changed, n);
      NewCount(prior, now);
      AllRows(src, cand, prior, now, changed);
    }
  }

  lemma AllRows(src: Image, cand: Image, prior: Rows, now: Rows, changed: set<Path>)
    requires GoodRows(src, prior) && Ordered(now)
    ensures (forall k :: 0 <= k < |now.order| ==>
               now.order[k] in now.at && RowKeeps(src, cand, prior, changed, now.order[k], now.at[now.order[k]])) <==>
            (forall p :: p in now.at ==> RowKeeps(src, cand, prior, changed, p, now.at[p]))
  {
    hide Layout, RowsOk, RowKeeps;
    forall k | 0 <= k < |now.order| ensures now.order[k] in now.at { assert now.order[k] in now.order; }
    if forall k :: 0 <= k < |now.order| ==> RowKeeps(src, cand, prior, changed, now.order[k], now.at[now.order[k]]) {
      forall p | p in now.at ensures RowKeeps(src, cand, prior, changed, p, now.at[p]) {
        assert p in now.order;
        var k :| 0 <= k < |now.order| && now.order[k] == p;
      }
    }
  }

  // ------------------------------------------------------------------- the procedure --

  /** The loop over the candidate's rows, editing the image in place. */
  method StampAll(src: Image, cand: Image, prior: Rows, now: Rows, changed: set<Path>) returns (r: Outcome<Progress>)
    requires GoodRows(src, prior) && GoodRows(cand, now)
    ensures r == StampRows(src, cand, prior, now, changed, |now.order|)
  {
    hide Layout, RowsOk, Assign, Word64, Stamp;
    var data, counter := cand, Counter(src);
    for i := 0 to |now.order|
      invariant StampRows(src, cand, prior, now, changed, i) == Return(Progress(data, counter))
    {
      var p := now.order[i];
      RowListed(cand, now, i);
      RowInRange(cand, now, p);
      var a := Assign(src, cand, prior, changed, p, now.at[p], counter);
      if a.Raise? {
        StampRowsRaise(src, cand, prior, now, changed, i + 1, |now.order|);
        return Raise;
      }
      AssignBounds(src, cand, prior, changed, p, now.at[p], counter);
      data, counter := Stamp(data, now.at[p].ino, a.value.id, a.value.rev), a.value.counter;
    }
    r := Return(Progress(data, counter));
  }

  /** preserve_identities as it runs: two walks, one loop over the candidate's rows that edits the
      image in place, two closing edits. */
  method PreserveIdentities(src: Image, cand: Image, changed: set<Path>) returns (r: Outcome<Image>)
    requires Layout(src) && Layout(cand)
    ensures r == Preserve(src, cand, changed)
    ensures r.Return? <==> Acceptable(src, cand, changed)
    ensures r.Return? ==> Repacked(src, cand, changed, r.value)
  {
    PreserveAccepts(src, cand, changed);
    hide Acceptable;
    hide Blind, RowDone, OthersKept, Layout, RowsOk, Finish, NewBelow, Word64, Walk, Assign, Repacked, StampRows;
    if !CandidateOk(cand) {
      return Raise;
    }
    var w := WalkImage(src);
    if w.Raise? {
      return Raise;
    }
    var v := WalkImage(cand);
    if v.Raise? {
      return Raise;
    }
    var prior, now := w.value, v.value;
    if !(prior.at.Keys <= now.at.Keys) {
      return Raise;
    }
    WalkOk(src);
    WalkOk(cand);
    var done := StampAll(src, cand, prior, now, changed);
    if done.Raise? {
      return Raise;
    }
    r := Return(Finish(src, done.value));
    PreserveSound(src, cand, changed);
  }

  lemma {:induction false} StampRowsRaise(src: Image, cand: Image, prior: Rows, now: Rows, changed: set<Path>, i: nat,
      n: nat)
    requires GoodRows(src, prior) && GoodRows(cand, now) && i <= n <= |now.order|
    requires StampRows(src, cand, prior, now, changed, i).Raise?
    ensures StampRows(src, cand, prior, now, changed, n).Raise?
  {
    hide Assign, Layout, RowsOk, StampOne;
    if i < n { StampRowsRaise(src, cand, prior, now, changed, i, n - 1); }
  }
}
