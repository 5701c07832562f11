/** tools/gen_abi.py: packed syscall arguments. parse_packed_fields accepts a field list,
    as_arg_expr emits the expression that packs, render_pack the macros that unpack. */
module AbiPack {

  datatype PackField = PackField(name: string, shift: nat, width: nat, signed: bool)

  type Fields = seq<PackField>

  // ------------------------------------------------------------------------- sorting --

  /** sorted() by shift, or by negated shift: stable insertion. */
  predicate Precedes(f: PackField, g: PackField, down: bool) {
    if down then f.shift >= g.shift else f.shift <= g.shift
  }

  function Insert(f: PackField, fs: Fields, down: bool): (r: Fields)
    ensures |r| == |fs| + 1 && multiset(r) == multiset{f} + multiset(fs)
  {
    if fs == [] || Precedes(f, fs[0], down) then [f] + fs
    else
      assert fs == [fs[0]] + fs[1..];
      [fs[0]] + Insert(f, fs[1..], down)
  }

  function SortFields(fs: Fields, down: bool): (r: Fields)
    ensures |r| == |fs| && multiset(r) == multiset(fs)
  {
    if fs == [] then []
    else
      assert fs == [fs[0]] + fs[1..];
      Insert(fs[0], SortFields(fs[1..], down), down)
  }

  ghost predicate Ordered(fs: Fields, down: bool) {
    fs != [] ==> (forall g :: g in fs[1..] ==> Precedes(fs[0], g, down)) && Ordered(fs[1..], down)
  }

  lemma {:induction false} InsertOrdered(f: PackField, fs: Fields, down: bool)
    requires Ordered(fs, down)
    ensures Ordered(Insert(f, fs, down), down)
  {
    var r := Insert(f, fs, down);
    if fs == [] || Precedes(f, fs[0], down) {
      assert r[0] == f && r[1..] == fs;
      assert forall g :: g in fs ==> g == fs[0] || g in fs[1..];
    } else {
      var rest := Insert(f, fs[1..], down);
      assert r[1..] == rest;
      InsertOrdered(f, fs[1..], down);
      forall g | g in rest ensures Precedes(fs[0], g, down) {
        assert g in multiset(rest);
      }
    }
  }

  lemma {:induction false} SortOrdered(fs: Fields, down: bool)
    ensures Ordered(SortFields(fs, down), down)
  {
    if fs != [] {
      SortOrdered(fs[1..], down);
      InsertOrdered(fs[0], SortFields(fs[1..], down), down);
    }
  }

  // ------------------------------------------------------------------ accepted lists --

  predicate FieldOk(f: PackField) {
    f.width > 0 && f.shift + f.width <= 64 && (f.signed ==> f.width >= 2)
  }

  /** Two bit ranges share no bit. */
  predicate Apart(f: PackField, g: PackField) {
    f.shift + f.width <= g.shift || g.shift + g.width <= f.shift
  }

  /** Every field is apart from every later one. */
  ghost predicate Disjoint(fs: Fields) {
    fs != [] ==> (forall g :: g in fs[1..] ==> Apart(fs[0], g)) && Disjoint(fs[1..])
  }

  lemma {:induction false} InsertDisjoint(f: PackField, fs: Fields, down: bool)
    ensures Disjoint(Insert(f, fs, down)) <==> Disjoint(fs) && forall g :: g in fs ==> Apart(f, g)
  {
    var r := Insert(f, fs, down);
    if fs == [] || Precedes(f, fs[0], down) {
      assert r[0] == f && r[1..] == fs;
    } else {
      var rest := Insert(f, fs[1..], down);
      assert r[0] == fs[0] && r[1..] == rest;
      InsertDisjoint(f, fs[1..], down);
      InsertMembers(f, fs[1..], down);
      assert f in rest;
      assert (forall g :: g in rest ==> Apart(fs[0], g))
        <==> (Apart(fs[0], f) && forall g :: g in fs[1..] ==> Apart(fs[0], g));
      assert (forall g :: g in fs ==> Apart(f, g)) <==> Apart(f, fs[0]) && forall g :: g in fs[1..] ==> Apart(f, g) by {
        assert fs[0] in fs && forall g :: g in fs <==> g == fs[0] || g in fs[1..];
      }
    }
  }

  lemma InsertMembers(f: PackField, fs: Fields, down: bool)
    ensures forall g :: g in Insert(f, fs, down) <==> g == f || g in fs
  {
    hide Insert;
    assert forall g :: g in Insert(f, fs, down) <==> g in multiset(Insert(f, fs, down));
    assert forall g :: g in fs <==> g in multiset(fs);
  }

  lemma SortMembers(fs: Fields, down: bool)
    ensures forall f :: f in SortFields(fs, down) <==> f in fs
  {
    hide SortFields;
    assert forall f :: f in SortFields(fs, down) <==> f in multiset(SortFields(fs, down));
    assert forall f :: f in fs <==> f in multiset(fs);
  }

  /** Sorting does not change whether the ranges are disjoint. */
  lemma {:induction false} SortDisjoint(fs: Fields, down: bool)
    ensures Disjoint(SortFields(fs, down)) <==> Disjoint(fs)
  {
    if fs != [] {
      SortDisjoint(fs[1..], down);
      var s := SortFields(fs[1..], down);
      InsertDisjoint(fs[0], s, down);
      SortMembers(fs[1..], down);
    }
  }

  predicate NextApart(f: PackField, g: PackField) { f.shift + f.width <= g.shift }

  /** In shift order, comparing neighbours is enough. */
  lemma {:induction false} NeighboursSuffice(fs: Fields)
    requires Ordered(fs, false) && forall f :: f in fs ==> FieldOk(f)
    ensures Disjoint(fs) <==> forall i :: 0 < i < |fs| ==> NextApart(fs[i - 1], fs[i])
  {
    if fs != [] {
      var t := fs[1..];
      NeighboursSuffice(t);
      assert forall i :: 0 < i < |t| ==> t[i - 1] == fs[i] && t[i] == fs[i + 1];
      if t != [] {
        assert t[0] == fs[1] && t[0] in t;
        if (forall i :: 0 < i < |fs| ==> NextApart(fs[i - 1], fs[i])) {
          assert NextApart(fs[1 - 1], fs[1]);
          forall i | 0 < i < |t| ensures NextApart(t[i - 1], t[i]) {
            assert NextApart(fs[i + 1 - 1], fs[i + 1]);
          }
          forall g | g in t ensures Apart(fs[0], g) {
            assert g == t[0] || g in t[1..];
          }
        }
        if Disjoint(fs) {
          forall i | 0 < i < |fs| ensures NextApart(fs[i - 1], fs[i]) {
            if i > 1 { assert NextApart(t[i - 2], t[i - 1]); }
          }
        }
      }
    }
  }

  ghost predicate Accepted(fs: Fields) {
    (forall f :: f in fs ==> FieldOk(f)) && Disjoint(fs)
  }

  /** parse_packed_fields after the spelling is matched: it accepts exactly the lists of valid,
      pairwise disjoint bit ranges. */
  method ParsePackedFields(fs: Fields) returns (ok: bool)
    ensures ok <==> Accepted(fs)
  {
    hide Ordered, Disjoint, SortFields;
    for k := 0 to |fs|
      invariant forall j :: 0 <= j < k ==> FieldOk(fs[j])
    {
      if fs[k].width == 0 || fs[k].shift + fs[k].width > 64 || (fs[k].signed && fs[k].width < 2) {
        assert fs[k] in fs && !FieldOk(fs[k]);
        return false;
      }
    }
    var ordered := SortFields(fs, false);
    SortMembers(fs, false);
    SortOrdered(fs, false);
    SortDisjoint(fs, false);
    ok := NeighboursApart(ordered);
  }

  method NeighboursApart(ordered: Fields) returns (ok: bool)
    requires Ordered(ordered, false) && forall f :: f in ordered ==> FieldOk(f)
    ensures ok <==> Disjoint(ordered)
  {
    hide Ordered, Disjoint;
    NeighboursSuffice(ordered);
    for i := 0 to |ordered|
      invariant forall j :: 0 < j < i ==> NextApart(ordered[j - 1], ordered[j])
    {
      if i > 0 && ordered[i - 1].shift + ordered[i - 1].width > ordered[i].shift {
        assert !NextApart(ordered[i - 1], ordered[i]);
        return false;
      }
    }
    ok := true;
  }
}
