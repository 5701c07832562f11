/** tools/mkfs.py Builder, seen as a map from paths to nodes: what get_or_make_dir adds and when it
    refuses. */
module ImageBuilder {
  import opened Bits
  import opened Outcomes
  import opened LogitFs
  import opened VolumeWalk

  const NAME_MAX: nat := 60
  const PATH_MAX: nat := 256
  const INODE_LIMIT: nat := 8192

  /** A node of the image being built; meta is the preserved time, mode and owner bytes. */
  datatype Item = Item(kind: nat, bytes: seq<Byte>, meta: Option<seq<Byte>>)

  type Nodes = map<Parts, Item>

  /** b laid over a. */
  function OnTop(a: Nodes, b: Nodes): (r: Nodes) { a + b }

  function Set(a: Nodes, p: Parts, x: Item): (r: Nodes) { a[p := x] }

  const NEW_DIR: Item := Item(T_DIR, [], None)

  function PathLength(parts: Parts): (n: nat) {
    if parts == [] then 0 else 1 + |parts[0]| + PathLength(parts[1..])
  }

  predicate NamesFit(parts: Parts) {
    forall i :: 0 <= i < |parts| ==> |parts[i]| < 60
  }

  // -------------------------------------------------------------------- the builder --

  ghost predicate IsDir(nodes: Nodes, p: Parts) { p in nodes && nodes[p].kind == T_DIR }

  /** Every directory on the way to parts exists. */
  ghost predicate Ready(nodes: Nodes, parts: Parts) {
    forall k :: 0 <= k <= |parts| ==> IsDir(nodes, parts[..k])
  }

  /** The directories get_or_make_dir has to add for the first n components. */
  ghost function Missing(nodes: Nodes, parts: Parts, n: nat): (r: Nodes)
    requires n <= |parts|
  {
    if n == 0 then map[]
    else
      var r := Missing(nodes, parts, n - 1);
      if parts[..n] in nodes then r else Set(r, parts[..n], NEW_DIR)
  }

  lemma {:induction false} NoneMissing(nodes: Nodes, parts: Parts, n: nat)
    requires n <= |parts| && Ready(nodes, parts)
    ensures Missing(nodes, parts, n) == map[]
  {
    if n > 0 {
      assert IsDir(nodes, parts[..n]);
      NoneMissing(nodes, parts, n - 1);
    }
  }

  lemma {:induction false} MissingKeys(nodes: Nodes, parts: Parts, n: nat, p: Parts)
    requires n <= |parts| && p in Missing(nodes, parts, n)
    ensures p !in nodes && |p| <= n && p <= parts && Missing(nodes, parts, n)[p] == NEW_DIR
  {
    if n > 0 && !(p == parts[..n] && parts[..n] !in nodes) { MissingKeys(nodes, parts, n - 1, p); }
  }

  /** There is a root, directories carry no bytes of their own, and every node has an inode. */
  ghost predicate WellBuilt(nodes: Nodes) {
    && IsDir(nodes, []) && (forall p :: p in nodes && nodes[p].kind == T_DIR ==> nodes[p].bytes == [])
    && |nodes| <= 8192
  }

  /** What get_or_make_dir can make: no name is too long, nothing but directories is in the way, and
      there are inodes for the missing ones. */
  ghost predicate Makeable(nodes: Nodes, parts: Parts) {
    && NamesFit(parts) && (forall k :: 0 <= k <= |parts| && parts[..k] in nodes ==> IsDir(nodes, parts[..k]))
    && |OnTop(nodes, Missing(nodes, parts, |parts|))| <= 8192
  }

  /** The state of get_or_make_dir after n components. */
  ghost predicate MadeUpTo(before: Nodes, nodes: Nodes, parts: Parts, n: nat)
    requires n <= |parts|
  {
    && nodes == OnTop(before, Missing(before, parts, n)) && WellBuilt(nodes)
    && (forall j :: 0 <= j <= n ==> IsDir(nodes, parts[..j]))
  }

  lemma MadeFirst(before: Nodes, parts: Parts)
    requires WellBuilt(before)
    ensures MadeUpTo(before, before, parts, 0)
  {
    assert parts[..0] == [];
  }

  lemma MadeNew(before: Nodes, nodes: Nodes, parts: Parts, k: nat)
    requires k < |parts| && MadeUpTo(before, nodes, parts, k) && parts[..k + 1] !in nodes && |nodes| < INODE_LIMIT
    ensures MadeUpTo(before, Set(nodes, parts[..k + 1], NEW_DIR), parts, k + 1)
  {
    hide WellBuilt, Set;
    var p := parts[..k + 1];
    MissingStep(before, parts, k);
    AddKey(before, Missing(before, parts, k), p, NEW_DIR);
    SetDir(nodes, p);
    forall j | 0 <= j <= k + 1 ensures IsDir(Set(nodes, p, NEW_DIR), parts[..j]) {
      if j <= k { assert IsDir(nodes, parts[..j]) && |parts[..j]| != |p|; }
    }
  }

  lemma MissingStep(before: Nodes, parts: Parts, k: nat)
    requires k < |parts|
    ensures parts[..k + 1] !in before ==>
      Missing(before, parts, k + 1) == Set(Missing(before, parts, k), parts[..k + 1], NEW_DIR)
  {
    hide Set;
  }

  /** A new directory keeps what is there. */
  lemma SetDir(nodes: Nodes, p: Parts)
    requires WellBuilt(nodes) && p !in nodes && |nodes| < INODE_LIMIT
    ensures WellBuilt(Set(nodes, p, NEW_DIR)) && IsDir(Set(nodes, p, NEW_DIR), p)
    ensures forall q :: IsDir(nodes, q) ==> IsDir(Set(nodes, p, NEW_DIR), q)
  {
    OneMore(nodes, p, NEW_DIR);
  }

  lemma MadeOld(before: Nodes, nodes: Nodes, parts: Parts, k: nat)
    requires k < |parts| && MadeUpTo(before, nodes, parts, k) && IsDir(nodes, parts[..k + 1])
    ensures MadeUpTo(before, nodes, parts, k + 1)
  {
    MissingNext(before, parts, k);
  }

  lemma MadeWell(before: Nodes, nodes: Nodes, parts: Parts, k: nat)
    requires k <= |parts| && MadeUpTo(before, nodes, parts, k)
    ensures WellBuilt(nodes)
  {
    hide WellBuilt;
  }

  lemma MadeAll(before: Nodes, nodes: Nodes, parts: Parts)
    requires MadeUpTo(before, nodes, parts, |parts|)
    ensures Ready(nodes, parts) && nodes == OnTop(before, Missing(before, parts, |parts|)) && WellBuilt(nodes)
  {}

  class Builder {
    var nodes: Nodes

    constructor ()
      ensures WellBuilt(nodes) && nodes == map[[] := NEW_DIR]
    {
      nodes := map[[] := NEW_DIR];
    }

    /** get_or_make_dir: adds the missing directories, refused exactly when they cannot be made. */
    method GetOrMakeDir(parts: Parts) returns (ok: bool)
      requires WellBuilt(nodes)
      modifies this
      ensures WellBuilt(nodes)
      ensures ok <==> Makeable(old(nodes), parts)
      ensures ok ==> Ready(nodes, parts) && nodes == OnTop(old(nodes), Missing(old(nodes), parts, |parts|))
    {
      hide WellBuilt, MadeUpTo, Missing, Ready, Makeable;
      ghost var before := nodes;
      MadeFirst(before, parts);
      for k := 0 to |parts|
        invariant MadeUpTo(before, nodes, parts, k) && forall j :: 0 <= j < k ==> |parts[j]| < NAME_MAX
      {
        MadeWell(before, nodes, parts, k);
        if |parts[k]| >= NAME_MAX {
          LongName(before, parts, k);
          return false;
        }
        if parts[..k + 1] !in nodes {
          if |nodes| >= INODE_LIMIT {
            NoInodeLeft(before, nodes, parts, k);
            return false;
          }
          MadeNew(before, nodes, parts, k);
          nodes := Set(nodes, parts[..k + 1], NEW_DIR);
        } else if nodes[parts[..k + 1]].kind != T_DIR {
          NoDirectory(before, nodes, parts, k);
          return false;
        } else {
          MadeOld(before, nodes, parts, k);
        }
      }
      MadeAll(before, nodes, parts);
      AllMade(before, nodes, parts);
      ok := true;
    }
  }

  lemma OneMore(nodes: Nodes, p: Parts, x: Item)
    requires p !in nodes
    ensures |Set(nodes, p, x)| == |nodes| + 1
  {
    var now := Set(nodes, p, x);
    assert now.Keys == nodes.Keys + {p};
    assert |now| == |now.Keys| && |nodes| == |nodes.Keys|;
  }

  lemma FewerKeys(a: Nodes, b: Nodes)
    requires a.Keys <= b.Keys
    ensures |a| <= |b|
  {
    SubsetSize(a.Keys, b.Keys);
    assert |a| == |a.Keys| && |b| == |b.Keys|;
  }

  lemma {:induction false} MissingMono(nodes: Nodes, parts: Parts, k: nat, n: nat)
    requires k <= n <= |parts|
    ensures Missing(nodes, parts, k).Keys <= Missing(nodes, parts, n).Keys
  {
    if k < n { MissingMono(nodes, parts, k, n - 1); }
  }

  lemma NoInodeLeft(before: Nodes, nodes: Nodes, parts: Parts, k: nat)
    requires k < |parts| && MadeUpTo(before, nodes, parts, k) && parts[..k + 1] !in nodes && |nodes| >= INODE_LIMIT
    ensures !Makeable(before, parts)
  {
    hide WellBuilt, Missing, Ready, NamesFit;
    var p := parts[..k + 1];
    var all := OnTop(before, Missing(before, parts, |parts|));
    MissingHere(before, parts, k);
    MissingMono(before, parts, k, |parts|);
    MissingMono(before, parts, k + 1, |parts|);
    OneMore(nodes, p, NEW_DIR);
    var now := Set(nodes, p, NEW_DIR);
    forall q | q in now.Keys ensures q in all.Keys {
      if q != p { assert q in nodes; }
    }
    FewerKeys(now, all);
  }

  lemma MissingHere(before: Nodes, parts: Parts, k: nat)
    requires k < |parts|
    ensures parts[..k + 1] !in before ==> parts[..k + 1] in Missing(before, parts, k + 1)
  {}

  lemma NoDirectory(before: Nodes, nodes: Nodes, parts: Parts, k: nat)
    requires k < |parts| && MadeUpTo(before, nodes, parts, k)
    requires parts[..k + 1] in nodes && nodes[parts[..k + 1]].kind != T_DIR
    ensures !Makeable(before, parts)
  {
    hide WellBuilt, Missing, Ready, NamesFit;
    MissingNext(before, parts, k);
    assert nodes[parts[..k + 1]] == before[parts[..k + 1]];
    assert !IsDir(before, parts[..k + 1]);
  }

  lemma LongName(before: Nodes, parts: Parts, k: nat)
    requires k < |parts| && |parts[k]| >= NAME_MAX
    ensures !Makeable(before, parts)
  {
    hide Missing;
  }

  lemma AllMade(before: Nodes, nodes: Nodes, parts: Parts)
    requires MadeUpTo(before, nodes, parts, |parts|) && NamesFit(parts)
    ensures Makeable(before, parts)
  {
    forall k | 0 <= k <= |parts| && parts[..k] in before ensures IsDir(before, parts[..k]) {
      assert IsDir(nodes, parts[..k]);
      if parts[..k] in Missing(before, parts, |parts|) { MissingKeys(before, parts, |parts|, parts[..k]); }
    }
  }

  /** Where all directories exist there is nothing to make. */
  lemma ReadyMakeable(nodes: Nodes, parts: Parts)
    requires WellBuilt(nodes) && Ready(nodes, parts) && NamesFit(parts)
    ensures Makeable(nodes, parts) && OnTop(nodes, Missing(nodes, parts, |parts|)) == nodes
  {
    NoneMissing(nodes, parts, |parts|);
    OnNothing(nodes);
  }

  lemma MissingNext(before: Nodes, parts: Parts, k: nat)
    requires k < |parts|
    ensures parts[..k + 1] !in Missing(before, parts, k)
  {
    hide Missing;
    if parts[..k + 1] in Missing(before, parts, k) { MissingKeys(before, parts, k, parts[..k + 1]); }
  }

  lemma OnNothing(a: Nodes)
    ensures OnTop(a, map[]) == a
  {}

  lemma AddKey(a: Nodes, b: Nodes, p: Parts, x: Item)
    ensures Set(OnTop(a, b), p, x) == OnTop(a, Set(b, p, x))
  {}

  lemma OverlayAssoc(a: Nodes, b: Nodes, c: Nodes)
    ensures OnTop(OnTop(a, b), c) == OnTop(a, OnTop(b, c))
  {}
}
