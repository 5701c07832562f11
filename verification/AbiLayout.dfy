/** tools/gen_abi.py lay_out: offsets and size of a C struct. */
module AbiLayout {
  import opened Bits

  datatype Member = Member(size: nat, align: nat)

  ghost predicate MembersOk(ms: seq<Member>) { forall i :: 0 <= i < |ms| ==> ms[i].align > 0 }

  /** A placement: every member aligned and behind the one before it. */
  ghost predicate Placement(ms: seq<Member>, offs: seq<nat>)
    requires MembersOk(ms)
  {
    && |offs| == |ms| && (forall i :: 0 <= i < |ms| ==> offs[i] % ms[i].align == 0)
    && (forall i :: 0 < i < |ms| ==> offs[i - 1] + ms[i - 1].size <= offs[i])
  }

  /** Where the next member may start. */
  function EndOf(ms: seq<Member>, offs: seq<nat>): (n: nat)
    requires |offs| == |ms|
  {
    if ms == [] then 0 else offs[|ms| - 1] + ms[|ms| - 1].size
  }

  ghost predicate Smallest(ms: seq<Member>, offs: seq<nat>)
    requires MembersOk(ms) && Placement(ms, offs)
  {
    forall other :: Placement(ms, other) ==> AtMost(offs, other)
  }

  ghost predicate AtMost(a: seq<nat>, b: seq<nat>) {
    |a| == |b| && forall i :: 0 <= i < |a| ==> a[i] <= b[i]
  }

  function MaxAlign(ms: seq<Member>): (m: nat)
    ensures m >= 1
  {
    if ms == [] then 1
    else
      var rest := MaxAlign(ms[..|ms| - 1]);
      if ms[|ms| - 1].align > rest then ms[|ms| - 1].align else rest
  }

  /** Adding a member right behind the last keeps the placement the smallest one. */
  lemma GrowSmallest(ms: seq<Member>, offs: seq<nat>, m: Member)
    requires MembersOk(ms) && m.align > 0 && Placement(ms, offs) && Smallest(ms, offs)
    ensures MembersOk(ms + [m])
    ensures var next := offs + [AlignUp(EndOf(ms, offs), m.align)];
      Placement(ms + [m], next) && Smallest(ms + [m], next)
  {
    hide AlignUp;
    var at := AlignUp(EndOf(ms, offs), m.align);
    var next := offs + [at];
    var all := ms + [m];
    forall other | Placement(all, other) ensures AtMost(next, other) {
      var front := other[..|ms|];
      PrefixPlaced(ms, m, other);
      assert AtMost(offs, front);
      assert other[|ms|] % m.align == 0;
      if ms != [] { assert other[|ms| - 1] + ms[|ms| - 1].size <= other[|ms|]; }
      AlignLeast(EndOf(ms, offs), m.align, other[|ms|]);
    }
  }

  lemma PrefixPlaced(ms: seq<Member>, m: Member, other: seq<nat>)
    requires MembersOk(ms) && m.align > 0 && MembersOk(ms + [m]) && Placement(ms + [m], other)
    ensures Placement(ms, other[..|ms|])
    ensures other[|ms|] % m.align == 0 && (ms != [] ==> other[|ms| - 1] + ms[|ms| - 1].size <= other[|ms|])
  {
    var all := ms + [m];
    assert forall i :: 0 <= i < |ms| ==> all[i] == ms[i];
    assert all[|ms|] == m;
    assert forall i :: 0 <= i < |ms| ==> other[i] % all[i].align == 0;
    assert other[|ms|] % all[|ms|].align == 0;
    if ms != [] { assert other[|ms| - 1] + all[|ms| - 1].size <= other[|ms|]; }
  }

  /** A size that holds the placement and keeps an array of such structs aligned. */
  ghost predicate SizeFor(ms: seq<Member>, offs: seq<nat>, size: nat)
    requires |offs| == |ms|
  {
    EndOf(ms, offs) <= size && size % MaxAlign(ms) == 0
  }

  /** No placement of the members has a smaller size. */
  ghost predicate LeastSize(ms: seq<Member>, size: nat)
    requires MembersOk(ms)
  {
    forall other, s | Placement(ms, other) && SizeFor(ms, other, s) :: size <= s
  }

  lemma SizeLeast(ms: seq<Member>, offs: seq<nat>)
    requires MembersOk(ms) && Placement(ms, offs) && Smallest(ms, offs)
    ensures var size := AlignUp(EndOf(ms, offs), MaxAlign(ms)); SizeFor(ms, offs, size) && LeastSize(ms, size)
  {
    hide AlignUp, MaxAlign;
    forall other, s | Placement(ms, other) && SizeFor(ms, other, s)
      ensures AlignUp(EndOf(ms, offs), MaxAlign(ms)) <= s
    {
      assert AtMost(offs, other);
      AlignLeast(EndOf(ms, offs), MaxAlign(ms), s);
    }
  }

  /** The widest alignment is one of the members' and none is wider. */
  lemma {:induction false} MaxAlignIs(ms: seq<Member>)
    ensures forall i :: 0 <= i < |ms| ==> ms[i].align <= MaxAlign(ms)
    ensures MaxAlign(ms) == 1 || exists i :: 0 <= i < |ms| && ms[i].align == MaxAlign(ms)
  {
    if ms != [] {
      var front := ms[..|ms| - 1];
      MaxAlignIs(front);
      assert ms[|ms| - 1].align <= MaxAlign(ms);
      assert forall i :: 0 <= i < |front| ==> front[i] == ms[i];
    }
  }

  /** lay_out: aligned, non-overlapping offsets, each the smallest any such placement allows, and the
      least size of any placement that is a multiple of the widest alignment. */
  method LayOut(ms: seq<Member>) returns (offs: seq<nat>, size: nat)
    requires MembersOk(ms)
    ensures Placement(ms, offs) && Smallest(ms, offs)
    ensures SizeFor(ms, offs, size) && LeastSize(ms, size)
  {
    hide AlignUp, Placement, Smallest, SizeFor, LeastSize;
    offs := [];
    var off, salign := 0, 1;
    EmptyPlaced();
    assert ms[..0] == [];
    for k := 0 to |ms|
      invariant MembersOk(ms[..k]) && |offs| == k && off == EndOf(ms[..k], offs) && salign == MaxAlign(ms[..k])
      invariant Placement(ms[..k], offs) && Smallest(ms[..k], offs)
    {
      assert ms[..k + 1] == ms[..k] + [ms[k]] && ms[..k + 1][..k] == ms[..k];
      GrowSmallest(ms[..k], offs, ms[k]);
      off := AlignUp(off, ms[k].align);
      offs := offs + [off];
      off := off + ms[k].size;
      salign := if ms[k].align > salign then ms[k].align else salign;
    }
    assert ms[..|ms|] == ms;
    size := AlignUp(off, salign);
    SizeLeast(ms, offs);
  }

  lemma EmptyPlaced()
    ensures MembersOk([]) && Placement([], []) && Smallest([], [])
  {}
}
