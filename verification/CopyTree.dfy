/** tools/disk_profile.py copy_tree: importing a subtree of a checked image into an image builder. */
module CopyTree {
  import opened Bits
  import opened Outcomes
  import opened Bytes
  import opened LogitFs
  import opened VolumeWalk
  import opened ImageBuilder

  const OFF_ATIME: nat := 64
  const META_END: nat := 100

  // ------------------------------------------------------------- the source subtree --

  datatype Found = Found(items: Nodes, seen: set<nat>)

  function Meta(raw: seq<Byte>): (r: seq<Byte>) { Cut(raw, OFF_ATIME, META_END) }

  /** Everything below an inode, by path; seen inodes may not be met again. */
  ghost function Listing(img: Image, ino: nat, path: Parts, seen: set<nat>): (r: Outcome<Found>)
    ensures r.Return? ==> seen <= r.value.seen
    decreases Unseen(img, seen), 0, 0
  {
    if ino in seen || GetInode(img, ino).Raise? then Raise
    else
      var node := GetInode(img, ino).value;
      var meta := Some(Meta(node.raw));
      if node.kind != T_DIR then
        if Payload(img, ino).Raise? then Raise
        else Return(Found(One(path, Item(node.kind, Payload(img, ino).value, meta)), seen + {ino}))
      else if Directory(img, ino).Raise? then Raise
      else
        UnseenDrops(img, seen, ino);
        ListAll(img, Directory(img, ino).value, path, Found(One(path, Item(T_DIR, [], meta)), seen + {ino}))
  }

  ghost function ListAll(img: Image, es: seq<Entry>, path: Parts, acc: Found): (r: Outcome<Found>)
    ensures r.Return? ==> acc.seen <= r.value.seen
    decreases Unseen(img, acc.seen), 1, |es|
  {
    if es == [] then Return(acc)
    else match Listing(img, es[0].child, path + [es[0].name], acc.seen)
      case Raise => Raise
      case Return(f) =>
        UnseenMono(img, acc.seen, f.seen);
        ListAll(img, es[1..], path, Found(OnTop(acc.items, f.items), f.seen))
  }

  /** A listing holds only paths at or below its own. */
  lemma {:induction false} ListingBelow(img: Image, ino: nat, path: Parts, seen: set<nat>)
    requires Listing(img, ino, path, seen).Return?
    ensures forall p :: p in Listing(img, ino, path, seen).value.items ==> path <= p
    ensures path in Listing(img, ino, path, seen).value.items
    decreases Unseen(img, seen), 0, 0
  {
    hide GetInode, Payload, Directory, Unseen;
    var node := GetInode(img, ino).value;
    if node.kind == T_DIR {
      UnseenDrops(img, seen, ino);
      var own := One(path, Item(T_DIR, [], Some(Meta(node.raw))));
      ListAllBelow(img, Directory(img, ino).value, path, Found(own, seen + {ino}));
    }
  }

  lemma {:induction false} ListAllBelow(img: Image, es: seq<Entry>, path: Parts, acc: Found)
    requires ListAll(img, es, path, acc).Return? && forall p :: p in acc.items ==> path <= p
    ensures forall p :: p in ListAll(img, es, path, acc).value.items ==> path <= p
    ensures acc.items.Keys <= ListAll(img, es, path, acc).value.items.Keys
    decreases Unseen(img, acc.seen), 1, |es|
  {
    hide Unseen;
    if es != [] {
      var child := path + [es[0].name];
      ListingBelow(img, es[0].child, child, acc.seen);
      var f := Listing(img, es[0].child, child, acc.seen).value;
      forall p | p in f.items ensures path <= p { assert child <= p; }
      UnseenMono(img, acc.seen, f.seen);
      ListAllBelow(img, es[1..], path, Found(OnTop(acc.items, f.items), f.seen));
    }
  }

  // ------------------------------------------------- paths of different entries differ --

  /** No item lies at or below an entry still to come. */
  ghost predicate FreshKids(items: Nodes, path: Parts, es: seq<Entry>) {
    forall p, i :: p in items && 0 <= i < |es| ==> !(path + [es[i].name] <= p)
  }

  lemma SameName(path: Parts, a: seq<Byte>, b: seq<Byte>, p: Parts)
    requires path + [a] <= p && path + [b] <= p
    ensures a == b
  {
    assert p[|path|] == (path + [a])[|path|] && p[|path|] == (path + [b])[|path|];
  }

  lemma KidsNext(acc: Nodes, f: Nodes, path: Parts, es: seq<Entry>)
    requires es != [] && FreshKids(acc, path, es) && NamesDistinct(es)
    requires forall p :: p in f ==> path + [es[0].name] <= p
    ensures FreshKids(OnTop(acc, f), path, es[1..]) && NamesDistinct(es[1..]) && forall p :: p in f ==> p !in acc
  {
    var t := es[1..];
    forall p, i | p in OnTop(acc, f) && 0 <= i < |t| ensures !(path + [t[i].name] <= p) {
      assert t[i] == es[i + 1] && es[0].name != es[i + 1].name;
      if p in f && path + [t[i].name] <= p { SameName(path, t[i].name, es[0].name, p); }
    }
    forall p | p in f ensures p !in acc { assert path + [es[0].name] <= p; }
  }

  lemma OwnFresh(path: Parts, x: Item, es: seq<Entry>)
    ensures FreshKids(One(path, x), path, es)
  {}

  /** What is listed first stays as it is. */
  lemma {:induction false} ListAllKeeps(img: Image, es: seq<Entry>, path: Parts, acc: Found)
    requires ListAll(img, es, path, acc).Return? && FreshKids(acc.items, path, es) && NamesDistinct(es)
    ensures var all := ListAll(img, es, path, acc).value.items;
      forall p :: p in acc.items ==> p in all && all[p] == acc.items[p]
    decreases Unseen(img, acc.seen), 1, |es|
  {
    hide Unseen, FreshKids, NamesDistinct, Listing;
    if es != [] {
      var child := path + [es[0].name];
      ListingBelow(img, es[0].child, child, acc.seen);
      var f := Listing(img, es[0].child, child, acc.seen).value;
      UnseenMono(img, acc.seen, f.seen);
      KidsNext(acc.items, f.items, path, es);
      ListAllKeeps(img, es[1..], path, Found(OnTop(acc.items, f.items), f.seen));
    }
  }

  // ---------------------------------------------------------------- what is refused --

  function One(path: Parts, x: Item): (r: Nodes) { map[path := x] }

  /** A node can go to p: path and names are short enough, and nothing is there, or in merge mode
      something of the same type. */
  ghost predicate AllowedAt(nodes: Nodes, p: Parts, x: Item, merge: bool) {
    PathLength(p) < 256 && NamesFit(p) && (p in nodes ==> merge && nodes[p].kind == x.kind)
  }

  /** All items can go on top of nodes, and there are inodes for them. */
  ghost predicate Allowed(nodes: Nodes, items: Nodes, merge: bool) {
    (forall p :: p in items ==> AllowedAt(nodes, p, items[p], merge)) && |OnTop(nodes, items)| <= 8192
  }

  lemma OneAllowed(nodes: Nodes, p: Parts, x: Item, merge: bool)
    requires |nodes| <= INODE_LIMIT
    ensures Allowed(nodes, One(p, x), merge) <==> AllowedAt(nodes, p, x, merge) && (p in nodes || |nodes| < INODE_LIMIT)
  {
    hide AllowedAt, Set;
    OneOnTop(nodes, p, x);
    assert p in One(p, x);
  }

  /** One item more, or one replaced. */
  lemma OneOnTop(nodes: Nodes, p: Parts, x: Item)
    ensures OnTop(nodes, One(p, x)) == Set(nodes, p, x)
    ensures |Set(nodes, p, x)| == |nodes| + if p in nodes then 0 else 1
  {
    UpdateIsMerge(nodes, p, x);
    UpdateSize(nodes, p, x);
  }

  lemma UpdateIsMerge<K, V>(m: map<K, V>, k: K, v: V)
    ensures m + map[k := v] == m[k := v]
  {}

  lemma UpdateSize<K, V>(m: map<K, V>, k: K, v: V)
    ensures |m[k := v]| == |m| + if k in m then 0 else 1
  {
    var after := m[k := v];
    assert |after| == |after.Keys| && |m| == |m.Keys|;
    assert after.Keys == m.Keys + {k};
  }

  /** Items allowed one after the other are allowed together. */
  lemma AllowedTwice(start: Nodes, x: Nodes, nodes: Nodes, y: Nodes, m: nat, merge: bool)
    requires Allowed(start, x, merge) && Copied(start, nodes, x, m, merge) && Allowed(nodes, y, merge)
    ensures Allowed(start, OnTop(x, y), merge)
  {
    OverlayAssoc(start, x, y);
    var all := OnTop(x, y);
    forall p | p in all ensures AllowedAt(start, p, all[p], merge) {
      if p in y { assert AllowedAt(nodes, p, y[p], merge); } else { assert AllowedAt(start, p, x[p], merge); }
    }
  }

  /** Items allowed together are allowed one after the other. */
  lemma AllowedRest(start: Nodes, x: Nodes, nodes: Nodes, y: Nodes, all: Nodes, merge: bool)
    requires Allowed(start, all, merge) && nodes == OnTop(start, x)
    requires forall p :: p in x ==> p in all
    requires forall p :: p in y ==> p in all && all[p] == y[p] && p !in x
    ensures Allowed(nodes, y, merge)
  {
    forall p | p in y ensures AllowedAt(nodes, p, y[p], merge) {
      assert AllowedAt(start, p, all[p], merge);
    }
    FewerKeys(OnTop(nodes, y), OnTop(start, all));
  }

  // ------------------------------------------------------------------------ copying --

  /** No path is lost or changes type. */
  ghost predicate Kept(a: Nodes, b: Nodes) {
    forall p :: p in a ==> p in b && b[p].kind == a[p].kind
  }

  /** What a copy of f into nodes a leaves behind: the overlay; in strict mode only new paths, one
      for every inode visited. */
  ghost predicate Copied(a: Nodes, b: Nodes, items: Nodes, count: nat, merge: bool) {
    b == OnTop(a, items) && Kept(a, b) && (!merge ==> items.Keys !! a.Keys && |b| == |a| + count)
  }

  lemma CopiedTwice(a: Nodes, b: Nodes, c: Nodes, x: Nodes, y: Nodes, m: nat, n: nat, merge: bool)
    requires Copied(a, b, x, m, merge) && Copied(b, c, y, n, merge)
    ensures Copied(a, c, OnTop(x, y), m + n, merge)
  {
    OverlayAssoc(a, x, y);
    forall p | p in a ensures p in c && c[p].kind == a[p].kind { assert p in b; }
  }

  lemma CopiedOne(a: Nodes, p: Parts, x: Item, merge: bool)
    requires p in a ==> merge && a[p].kind == x.kind
    ensures Copied(a, Set(a, p, x), One(p, x), 1, merge)
  {
    assert Set(a, p, x) == OnTop(a, One(p, x));
    if !merge { OneMore(a, p, x); }
  }

  /** b has n inodes more than a. */
  ghost predicate Grew(a: set<nat>, b: set<nat>, n: int) { a <= b && |b| == |a| + n }

  lemma GrewOne(a: set<nat>, x: nat)
    requires x !in a
    ensures Grew(a, a + {x}, 1)
  {}

  lemma GrewTwice(a: set<nat>, b: set<nat>, c: set<nat>, m: int, n: int)
    requires Grew(a, b, m) && Grew(b, c, n)
    ensures Grew(a, c, m + n)
  {}

  lemma GrewUnseen(img: Image, a: set<nat>, b: set<nat>, n: int)
    requires Grew(a, b, n)
    ensures Unseen(img, b) <= Unseen(img, a)
  {
    hide Unseen;
    UnseenMono(img, a, b);
  }

  /** CheckedImage with its set of visited inodes. */
  class Source {
    const img: Image
    var visited: set<nat>

    constructor (image: Image)
      ensures img == image && visited == {}
    {
      img, visited := image, {};
    }

    /** The part of copy_tree for one inode, before its children. */
    method CopyNode(b: Builder, number: nat, node: Inode, path: Parts, merge: bool) returns (ok: bool)
      requires path != [] && WellBuilt(b.nodes) && GetInode(img, number) == Return(node)
      modifies b
      ensures WellBuilt(b.nodes)
      ensures ok <==> NodeAccepted(img, number, node, path, merge, old(b.nodes))
      ensures ok ==> Ready(b.nodes, Parent(path)) && (node.kind == T_DIR ==> Ready(b.nodes, path))
      ensures ok ==> Copied(Prepared(old(b.nodes), path), b.nodes, One(path, NodeItem(img, number, node)), 1, merge)
    {
      hide WellBuilt, Missing, Ready, Copied, GetInode, Payload, Makeable, Allowed, One, Set;
      ghost var start := Prepared(b.nodes, path);
      ghost var want := NodeItem(img, number, node);
      if PathLength(path) >= PATH_MAX || !NamesFit(path) {
        NotFitting(start, path, want, merge);
        return false;
      }
      ok := b.GetOrMakeDir(Parent(path));
      if !ok {
        return;
      }
      WithinLimit(b.nodes);
      OneAllowed(start, path, want, merge);
      if path in b.nodes {
        if !merge || b.nodes[path].kind != node.kind {
          return false;
        }
      } else if |b.nodes| >= INODE_LIMIT {
        return false;
      }
      var bytes := [];
      if node.kind != T_DIR {
        var data := ReadPayload(img, number);
        if data.Raise? {
          return false;
        }
        bytes := data.value;
      }
      var item := Item(node.kind, bytes, Some(Meta(node.raw)));
      CopiedOne(start, path, item, merge);
      SetLimit(start, path, item);
      StillReady(start, path, item);
      b.nodes := Set(b.nodes, path, item);
    }

    /** copy_tree: ends on every directory graph, and refuses exactly when the subtree cannot be listed,
        its parents cannot be made or some node cannot go to its path. Otherwise every inode of the
        subtree was visited once, their number is returned, and the builder holds the source subtree on
        top of what it held: strictly new paths, or in merge mode an overlay that keeps every packaged
        path and its type. */
    method CopyTree(b: Builder, number: nat, path: Parts, merge: bool) returns (r: Outcome<nat>)
      requires path != [] && WellBuilt(b.nodes)
      modifies this, b
      ensures WellBuilt(b.nodes)
      ensures r.Return? <==> Accepts(img, number, path, merge, old(b.nodes), old(visited))
      ensures r.Return? ==> Grew(old(visited), visited, r.value)
      ensures r.Return? ==> var list := Listing(img, number, path, old(visited)).value;
        && list.seen == visited && Ready(b.nodes, Parent(path))
        && Copied(Prepared(old(b.nodes), path), b.nodes, list.items, r.value, merge)
      decreases Unseen(img, visited), 0
    {
      hide WellBuilt, Missing, Ready, Copied, GetInode, Payload, Directory, Unseen, ListAll, Grew, Makeable, Allowed;
      hide One, NamesDistinct;
      if number in visited {
        return Raise;
      }
      ghost var before := visited;
      visited := visited + {number};
      var node := GetInode(img, number);
      if node.Raise? {
        return Raise;
      }
      ghost var start := Prepared(b.nodes, path);
      ghost var want := NodeItem(img, number, node.value);
      AcceptsNode(img, number, path, merge, b.nodes, before, node.value);
      var ok := CopyNode(b, number, node.value, path, merge);
      if !ok {
        return Raise;
      }
      GrewOne(before, number);
      if node.value.kind == T_DIR {
        var es := ReadDirectory(img, number);
        if es.Raise? {
          return Raise;
        }
        UnseenDrops(img, before, number);
        DirectoryOk(img, number);
        OwnFresh(path, want, es.value);
        OwnNames(start, path, want, merge);
        r := CopyChildren(b, es.value, path, merge, start, Found(One(path, want), visited));
        ReadyParent(b.nodes, path);
        if r.Return? { GrewTwice(before, before + {number}, visited, 1, r.value - 1); }
        return;
      }
      r := Return(1);
    }

    /** One entry of a directory that is already there. */
    method CopyBelow(b: Builder, number: nat, path: Parts, name: seq<Byte>, merge: bool) returns (r: Outcome<nat>)
      requires WellBuilt(b.nodes) && Ready(b.nodes, path) && NamesFit(path)
      modifies this, b
      ensures WellBuilt(b.nodes)
      ensures var list := Listing(img, number, path + [name], old(visited));
        r.Return? <==> list.Return? && Allowed(old(b.nodes), list.value.items, merge)
      ensures r.Return? ==> Grew(old(visited), visited, r.value)
      ensures r.Return? ==> var list := Listing(img, number, path + [name], old(visited)).value;
        && list.seen == visited && Ready(b.nodes, path) && Copied(old(b.nodes), b.nodes, list.items, r.value, merge)
      decreases Unseen(img, visited), 1
    {
      hide *;
      BelowReady(img, number, path, name, merge, b.nodes, visited);
      r := CopyTree(b, number, path + [name], merge);
    }

    /** Entry i of a directory: the state of the loop moves on by that entry's subtree, or the directory
        cannot be copied. */
    method CopyEntry(b: Builder, ghost c: Copying, i: nat, merge: bool, ghost acc: Found, ghost count: nat,
        path: Parts, e: Entry)
      returns (r: Outcome<nat>, ghost acc': Found)
      requires i < |c.es| && c.img == img && c.path == path && e == c.es[i] && c.merge == merge
      requires WellBuilt(b.nodes) && InLoop(c, i, acc, count, b.nodes, visited)
      modifies this, b
      ensures WellBuilt(b.nodes)
      ensures r.Return? ==> InLoop(c, i + 1, acc', count + r.value, b.nodes, visited)
      ensures r.Raise? ==> !WillFit(c)
      decreases Unseen(img, visited), 2
    {
      hide *;
      ghost var nodes1, seen1 := b.nodes, visited;
      LoopReady(c, i, acc, count, b.nodes, visited);
      EntryFits(c, i, acc, count, b.nodes, visited);
      r := CopyBelow(b, e.child, path, e.name, merge);
      if r.Return? {
        ghost var f := Listing(img, e.child, path + [e.name], seen1).value;
        acc' := Found(OnTop(acc.items, f.items), f.seen);
        LoopStep(c, i, acc, count, nodes1, seen1, f, r.value, b.nodes, visited);
      } else {
        acc' := acc;
      }
    }

    /** The loop over a directory's entries; own is the directory itself. */
    method CopyChildren(b: Builder, es: seq<Entry>, path: Parts, merge: bool, ghost start: Nodes, ghost own: Found)
      returns (r: Outcome<nat>)
      requires WellBuilt(b.nodes) && own.seen == visited && Ready(b.nodes, path) && NamesFit(path) && NamesDistinct(es)
      requires Copied(start, b.nodes, own.items, 1, merge) && Allowed(start, own.items, merge)
      requires FreshKids(own.items, path, es)
      modifies this, b
      ensures WellBuilt(b.nodes)
      ensures var list := ListAll(img, es, path, own);
        r.Return? <==> list.Return? && Allowed(start, list.value.items, merge)
      ensures r.Return? ==> Grew(old(visited), visited, r.value - 1)
      ensures r.Return? ==> var list := ListAll(img, es, path, own).value;
        && list.seen == visited && Ready(b.nodes, path) && Copied(start, b.nodes, list.items, r.value, merge)
      decreases Unseen(img, visited), 3
    {
      hide *;
      ghost var c := Copying(img, es, path, merge, start, own);
      ghost var acc := own;
      var count: nat := 1;
      LoopStarts(c, b.nodes);
      FitMeans(c);
      for i := 0 to |es|
        invariant WellBuilt(b.nodes) && InLoop(c, i, acc, count, b.nodes, visited)
      {
        LoopShrinks(c, i, acc, count, b.nodes, visited);
        var one, acc' := CopyEntry(b, c, i, merge, acc, count, path, es[i]);
        if one.Raise? {
          return Raise;
        }
        acc := acc';
        count := count + one.value;
      }
      LoopEnds(c, acc, count, b.nodes, visited);
      r := Return(count);
    }
  }

  function Parent(path: Parts): (r: Parts)
    requires path != []
    ensures |r| == |path| - 1
  {
    path[..|path| - 1]
  }

  /** The builder once the parents of path are made. */
  ghost function Prepared(nodes: Nodes, path: Parts): (r: Nodes)
    requires path != []
  {
    OnTop(nodes, Missing(nodes, Parent(path), |path| - 1))
  }

  /** What copy_tree accepts of one inode. */
  ghost predicate NodeAccepted(img: Image, ino: nat, node: Inode, path: Parts, merge: bool, nodes: Nodes)
    requires path != []
  {
    && Makeable(nodes, Parent(path)) && (node.kind != T_DIR ==> Payload(img, ino).Return?)
    && Allowed(Prepared(nodes, path), One(path, NodeItem(img, ino, node)), merge)
  }

  /** What copy_tree accepts. */
  ghost predicate Accepts(img: Image, ino: nat, path: Parts, merge: bool, nodes: Nodes, seen: set<nat>)
    requires path != []
  {
    && Listing(img, ino, path, seen).Return? && Makeable(nodes, Parent(path))
    && Allowed(Prepared(nodes, path), Listing(img, ino, path, seen).value.items, merge)
  }

  lemma NotFitting(nodes: Nodes, p: Parts, x: Item, merge: bool)
    requires PathLength(p) >= PATH_MAX || !NamesFit(p)
    ensures !Allowed(nodes, One(p, x), merge)
  {
    hide NamesFit, PathLength;
    assert p in One(p, x) && !AllowedAt(nodes, p, x, merge);
  }

  lemma SetLimit(nodes: Nodes, p: Parts, x: Item)
    requires |nodes| <= INODE_LIMIT && (p in nodes || |nodes| < INODE_LIMIT)
    ensures |Set(nodes, p, x)| <= INODE_LIMIT
  {
    if p in nodes { FewerKeys(Set(nodes, p, x), nodes); } else { OneMore(nodes, p, x); }
  }

  lemma WithinLimit(nodes: Nodes)
    requires WellBuilt(nodes)
    ensures |nodes| <= INODE_LIMIT
  {}

  lemma OwnNames(nodes: Nodes, p: Parts, x: Item, merge: bool)
    ensures Allowed(nodes, One(p, x), merge) ==> NamesFit(p)
  {
    hide NamesFit, PathLength;
    assert p in One(p, x);
    assert Allowed(nodes, One(p, x), merge) ==> AllowedAt(nodes, p, One(p, x)[p], merge);
  }

  /** A subtree that is accepted has an acceptable first node. */
  lemma AcceptsNode(img: Image, ino: nat, path: Parts, merge: bool, nodes: Nodes, seen: set<nat>, node: Inode)
    requires path != [] && ino !in seen && GetInode(img, ino) == Return(node)
    ensures Accepts(img, ino, path, merge, nodes, seen) ==> NodeAccepted(img, ino, node, path, merge, nodes)
  {
    hide GetInode, Payload, Directory, Unseen, Missing, Makeable, Allowed, NamesDistinct, FreshKids, ListAll;
    if Accepts(img, ino, path, merge, nodes, seen) && node.kind == T_DIR {
      var es, want := Directory(img, ino).value, NodeItem(img, ino, node);
      var own := Found(One(path, want), seen + {ino});
      UnseenDrops(img, seen, ino);
      DirectoryOk(img, ino);
      OwnFresh(path, want, es);
      ListAllKeeps(img, es, path, own);
      FirstAllowed(Prepared(nodes, path), path, want, ListAll(img, es, path, own).value.items, merge);
    }
  }

  lemma FirstAllowed(start: Nodes, path: Parts, x: Item, all: Nodes, merge: bool)
    requires Allowed(start, all, merge) && path in all && all[path] == x
    ensures Allowed(start, One(path, x), merge)
  {
    hide AllowedAt;
    assert AllowedAt(start, path, all[path], merge);
    FewerKeys(OnTop(start, One(path, x)), OnTop(start, all));
  }

  lemma BelowReady(img: Image, ino: nat, path: Parts, name: seq<Byte>, merge: bool, nodes: Nodes, seen: set<nat>)
    requires WellBuilt(nodes) && Ready(nodes, path) && NamesFit(path)
    ensures var child := path + [name];
      && child != [] && Parent(child) == path && Prepared(nodes, child) == nodes
      && (Accepts(img, ino, child, merge, nodes, seen) <==>
          Listing(img, ino, child, seen).Return? && Allowed(nodes, Listing(img, ino, child, seen).value.items, merge))
  {
    hide WellBuilt, Ready, NamesFit, Missing, Makeable, Allowed, Listing;
    var child := path + [name];
    assert Parent(child) == path;
    ReadyMakeable(nodes, path);
  }

  /** What the loop over a directory's entries was started with. */
  datatype Copying = Copying(img: Image, es: seq<Entry>, path: Parts, merge: bool, start: Nodes, own: Found)

  /** After i entries: acc has been copied, and listing the rest from acc is listing all from own. */
  ghost predicate InLoop(c: Copying, i: nat, acc: Found, count: nat, nodes: Nodes, seen: set<nat>)
    requires i <= |c.es|
  {
    && acc.seen == seen && Grew(c.own.seen, seen, count - 1)
    && ListAll(c.img, c.es[i..], c.path, acc) == ListAll(c.img, c.es, c.path, c.own)
    && Ready(nodes, c.path) && Copied(c.start, nodes, acc.items, count, c.merge)
    && NamesFit(c.path) && Allowed(c.start, acc.items, c.merge)
    && NamesDistinct(c.es[i..]) && FreshKids(acc.items, c.path, c.es[i..])
  }

  /** The whole directory can be listed and copied. */
  ghost predicate WillFit(c: Copying) {
    var list := ListAll(c.img, c.es, c.path, c.own);
    list.Return? && Allowed(c.start, list.value.items, c.merge)
  }

  lemma FitMeans(c: Copying)
    ensures var list := ListAll(c.img, c.es, c.path, c.own);
      WillFit(c) <==> list.Return? && Allowed(c.start, list.value.items, c.merge)
  {
    hide ListAll, Allowed;
  }

  lemma LoopStarts(c: Copying, nodes: Nodes)
    requires Ready(nodes, c.path) && Copied(c.start, nodes, c.own.items, 1, c.merge) && NamesFit(c.path)
    requires Allowed(c.start, c.own.items, c.merge) && NamesDistinct(c.es) && FreshKids(c.own.items, c.path, c.es)
    ensures InLoop(c, 0, c.own, 1, nodes, c.own.seen)
  {
    hide Ready, Copied, ListAll, NamesFit, Allowed, NamesDistinct, FreshKids;
    assert c.es[0..] == c.es;
  }

  lemma LoopReady(c: Copying, i: nat, acc: Found, count: nat, nodes: Nodes, seen: set<nat>)
    requires i <= |c.es| && InLoop(c, i, acc, count, nodes, seen)
    ensures Ready(nodes, c.path) && acc.seen == seen && NamesFit(c.path)
  {
    hide Ready, Copied, ListAll, NamesFit, Allowed, NamesDistinct, FreshKids;
  }

  /** If the whole directory fits, entry i does. */
  lemma EntryFits(c: Copying, i: nat, acc: Found, count: nat, nodes: Nodes, seen: set<nat>)
    requires i < |c.es| && InLoop(c, i, acc, count, nodes, seen)
    ensures var list := Listing(c.img, c.es[i].child, c.path + [c.es[i].name], seen);
      WillFit(c) ==> list.Return? && Allowed(nodes, list.value.items, c.merge)
  {
    hide Ready, ListAll, NamesFit, Allowed, NamesDistinct, FreshKids, Listing, Grew, Kept;
    if WillFit(c) {
      var es := c.es[i..];
      ListFirst(c.img, es, c.path, acc);
      var child := c.path + [es[0].name];
      var f := Listing(c.img, es[0].child, child, seen).value;
      ListingBelow(c.img, es[0].child, child, seen);
      KidsNext(acc.items, f.items, c.path, es);
      var next := Found(OnTop(acc.items, f.items), f.seen);
      ListAllKeeps(c.img, es[1..], c.path, next);
      var all := ListAll(c.img, es, c.path, acc).value.items;
      assert all == ListAll(c.img, es[1..], c.path, next).value.items;
      KeptParts(acc.items, f.items, all);
      AllowedRest(c.start, acc.items, nodes, f.items, all, c.merge);
    }
  }

  lemma KeptParts(acc: Nodes, f: Nodes, all: Nodes)
    requires forall p :: p in OnTop(acc, f) ==> p in all && all[p] == OnTop(acc, f)[p]
    requires forall p :: p in f ==> p !in acc
    ensures forall p :: p in acc ==> p in all
    ensures forall p :: p in f ==> p in all && all[p] == f[p] && p !in acc
  {
    forall p | p in acc ensures p in all { assert p in OnTop(acc, f); }
    forall p | p in f ensures p in all && all[p] == f[p] { assert p in OnTop(acc, f); }
  }

  lemma ListFirst(img: Image, es: seq<Entry>, path: Parts, acc: Found)
    requires es != [] && ListAll(img, es, path, acc).Return?
    ensures var f := Listing(img, es[0].child, path + [es[0].name], acc.seen);
      && f.Return?
      && ListAll(img, es, path, acc)
         == ListAll(img, es[1..], path, Found(OnTop(acc.items, f.value.items), f.value.seen))
  {
    hide Listing, Unseen;
  }

  lemma LoopShrinks(c: Copying, i: nat, acc: Found, count: nat, nodes: Nodes, seen: set<nat>)
    requires i <= |c.es| && InLoop(c, i, acc, count, nodes, seen)
    ensures Unseen(c.img, seen) <= Unseen(c.img, c.own.seen)
  {
    hide Ready, Copied, ListAll, Unseen, NamesFit, Allowed, NamesDistinct, FreshKids;
    GrewUnseen(c.img, c.own.seen, seen, count - 1);
  }

  lemma ListNext(img: Image, es: seq<Entry>, i: nat, path: Parts, acc: Found, f: Found)
    requires i < |es| && Listing(img, es[i].child, path + [es[i].name], acc.seen) == Return(f)
    ensures ListAll(img, es[i..], path, acc)
      == ListAll(img, es[i + 1..], path, Found(OnTop(acc.items, f.items), f.seen))
  {
    hide *;
    assert es[i..][0] == es[i] && es[i..][1..] == es[i + 1..];
    ListStep(img, es[i..], path, acc);
  }

  lemma LoopStep(c: Copying, i: nat, acc: Found, count: nat, nodes: Nodes, seen: set<nat>, f: Found, n: nat,
                 nodes': Nodes, seen': set<nat>)
    requires i < |c.es| && InLoop(c, i, acc, count, nodes, seen)
    requires Listing(c.img, c.es[i].child, c.path + [c.es[i].name], seen) == Return(f) && f.seen == seen'
    requires Ready(nodes', c.path) && Copied(nodes, nodes', f.items, n, c.merge) && Grew(seen, seen', n)
    requires Allowed(nodes, f.items, c.merge)
    ensures InLoop(c, i + 1, Found(OnTop(acc.items, f.items), f.seen), count + n, nodes', seen')
  {
    hide Ready, Copied, ListAll, Listing, Grew, OnTop, NamesFit, Allowed, NamesDistinct, FreshKids;
    ListNext(c.img, c.es, i, c.path, acc, f);
    GrewTwice(c.own.seen, seen, seen', count - 1, n);
    CopiedTwice(c.start, nodes, nodes', acc.items, f.items, count, n, c.merge);
    AllowedTwice(c.start, acc.items, nodes, f.items, count, c.merge);
    LoopKids(c, i, acc.items, seen, f);
  }

  /** What is copied leaves the entries still to come free. */
  lemma LoopKids(c: Copying, i: nat, items: Nodes, seen: set<nat>, f: Found)
    requires i < |c.es| && FreshKids(items, c.path, c.es[i..]) && NamesDistinct(c.es[i..])
    requires Listing(c.img, c.es[i].child, c.path + [c.es[i].name], seen) == Return(f)
    ensures FreshKids(OnTop(items, f.items), c.path, c.es[i + 1..]) && NamesDistinct(c.es[i + 1..])
  {
    hide Listing, OnTop, NamesDistinct, FreshKids;
    var es := c.es[i..];
    assert es[0] == c.es[i] && es[1..] == c.es[i + 1..];
    ListingBelow(c.img, es[0].child, c.path + [es[0].name], seen);
    KidsNext(items, f.items, c.path, es);
  }

  lemma LoopEnds(c: Copying, acc: Found, count: nat, nodes: Nodes, seen: set<nat>)
    requires InLoop(c, |c.es|, acc, count, nodes, seen)
    ensures ListAll(c.img, c.es, c.path, c.own) == Return(acc) && acc.seen == seen
    ensures Allowed(c.start, acc.items, c.merge)
    ensures Ready(nodes, c.path) && Copied(c.start, nodes, acc.items, count, c.merge)
    ensures Grew(c.own.seen, seen, count - 1)
  {
    hide Ready, Copied, ListAll, NamesFit, Allowed, NamesDistinct, FreshKids;
    assert c.es[|c.es|..] == [];
    ListDone(c.img, c.path, acc);
  }

  function NodeItem(img: Image, number: nat, node: Inode): (x: Item) {
    var data := Payload(img, number);
    Item(node.kind, if node.kind == T_DIR || data.Raise? then [] else data.value, Some(Meta(node.raw)))
  }

  lemma ListDone(img: Image, path: Parts, acc: Found)
    ensures ListAll(img, [], path, acc) == Return(acc)
  {}

  lemma ListStep(img: Image, es: seq<Entry>, path: Parts, acc: Found)
    requires es != []
    ensures var f := Listing(img, es[0].child, path + [es[0].name], acc.seen);
      f.Return? ==>
        ListAll(img, es, path, acc) == ListAll(img, es[1..], path, Found(OnTop(acc.items, f.value.items), f.value.seen))
  {
    hide Listing, Unseen;
  }

  lemma ReadyParent(nodes: Nodes, path: Parts)
    requires path != []
    ensures Ready(nodes, path) ==> Ready(nodes, Parent(path))
  {
    var parent := Parent(path);
    if Ready(nodes, path) {
      forall k | 0 <= k <= |parent| ensures IsDir(nodes, parent[..k]) {
        assert IsDir(nodes, path[..k]) && parent[..k] == path[..k];
      }
    }
  }

  lemma StillReady(nodes: Nodes, path: Parts, item: Item)
    requires path != [] && Ready(nodes, Parent(path)) && WellBuilt(nodes) && |Set(nodes, path, item)| <= INODE_LIMIT
    requires item.kind == T_DIR ==> item.bytes == []
    ensures Ready(Set(nodes, path, item), Parent(path)) && WellBuilt(Set(nodes, path, item))
    ensures item.kind == T_DIR ==> Ready(Set(nodes, path, item), path)
  {
    var now := Set(nodes, path, item);
    var parent := Parent(path);
    forall k | 0 <= k < |path| ensures IsDir(now, path[..k]) {
      assert IsDir(nodes, parent[..k]) && parent[..k] == path[..k];
    }
    forall k | 0 <= k <= |parent| ensures IsDir(now, parent[..k]) {
      assert parent[..k] == path[..k];
    }
    assert path[..|path|] == path && path[..0] == [];
  }
}
