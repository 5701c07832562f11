/** tools/project_volume.py walk, exactly: when it refuses a volume, and which path it files for which
    inode, in terms of the names that lead there. */
module WalkedTree {
  import opened Bits
  import opened Outcomes
  import opened LogitFs
  import opened VolumeWalk
  import opened Subtree

  /** Each name behind a slash. */
  ghost function Slashed(parts: Parts): (p: Path) {
    if parts == [] then [] else [47] + parts[0] + Slashed(parts[1..])
  }

  /** The path a list of names spells from the root. */
  ghost function PathOf(parts: Parts): (p: Path) {
    if parts == [] then [47] else Slashed(parts)
  }

  /** The path a list of names spells from a directory with this path. */
  ghost function JoinAt(path: Path, parts: Parts): (p: Path) {
    if parts == [] then path else RStrip(path) + Slashed(parts)
  }

  lemma JoinChild(path: Path, parts: Parts)
    requires parts != [] && ComponentName(parts[0])
    ensures JoinAt(Child(path, parts[0]), parts[1..]) == JoinAt(path, parts)
  {
    hide ComponentName, RStrip;
    ChildKept(path, parts[0]);
  }

  lemma JoinRoot(parts: Parts)
    ensures JoinAt(ROOT, parts) == PathOf(parts)
  {
    assert RStrip(ROOT[..0]) == [];
  }

  // ---------------------------------------------------------------- refusing a volume --

  lemma {:induction false} WalkVisits(img: Image, ino: nat, path: Path, st: WalkState)
    ensures WalkFrom(img, ino, path, st).Return? <==> Visit(img, ino, st.seen, false).Return?
    ensures WalkFrom(img, ino, path, st).Return? ==>
      WalkFrom(img, ino, path, st).value.seen == Visit(img, ino, st.seen, false).value
    decreases Unseen(img, st.seen), 0, 0
  {
    hide GetInode, Directory, Payload, Unseen, Put;
    if ino !in st.seen && Takes(img, ino, false) && GetInode(img, ino).value.kind == T_DIR {
      UnseenDrops(img, st.seen, ino);
      var st' := WalkState(Put(st.rows, path, Node(ino, T_DIR)), st.seen + {ino});
      WalkAllVisits(img, Directory(img, ino).value, path, st');
    }
  }

  lemma {:induction false} WalkAllVisits(img: Image, es: seq<Entry>, path: Path, st: WalkState)
    ensures WalkAll(img, es, path, st).Return? <==> VisitAll(img, es, st.seen, false).Return?
    ensures WalkAll(img, es, path, st).Return? ==>
      WalkAll(img, es, path, st).value.seen == VisitAll(img, es, st.seen, false).value
    decreases Unseen(img, st.seen), 1, |es|
  {
    hide Unseen, WalkFrom, Visit, Child;
    if es != [] {
      WalkVisits(img, es[0].child, Child(path, es[0].name), st);
      var first := WalkFrom(img, es[0].child, Child(path, es[0].name), st);
      if first.Return? {
        UnseenMono(img, st.seen, first.value.seen);
        WalkAllVisits(img, es[1..], path, first.value);
      }
    }
  }

  // ---------------------------------------------------------------- filing every object --

  lemma {:induction false} WalkFiles(img: Image, ino: nat, path: Path, st: WalkState, parts: Parts)
    requires WalkFrom(img, ino, path, st).Return? && Unused(st, path) && GoodPath(path)
    requires Resolve(img, ino, parts).Some?
    ensures Filed(WalkFrom(img, ino, path, st).value, JoinAt(path, parts), Resolve(img, ino, parts).value)
    decreases Unseen(img, st.seen), 0, 0
  {
    hide GetInode, Payload, Directory, Unseen, Put, Added, Unused, Child, ComponentName, NamesDistinct,
        JoinAt, GoodPath, ResolveIn;
    var node := Node(ino, GetInode(img, ino).value.kind);
    var st' := WalkState(Put(st.rows, path, node), st.seen + {ino});
    PutFiled(st, path, node);
    JoinNone(path);
    if node.kind == T_DIR {
      UnseenDrops(img, st.seen, ino);
      DirectoryOk(img, ino);
      var es := Directory(img, ino).value;
      forall i | 0 <= i < |es| ensures Unused(st', Child(path, es[i].name)) {
        NoneBelow(st, path, node, es[i].name);
      }
      if parts == [] {
        WalkAllAdds(img, es, path, st');
        AddedKeeps(st', WalkAll(img, es, path, st').value, path, path, ino);
      } else {
        WalkAllFiles(img, es, path, st', parts);
      }
    } else {
      OnlySelf(img, ino, parts);
    }
  }

  ghost predicate Filed(st: WalkState, p: Path, ino: nat) { p in st.rows.at && st.rows.at[p].ino == ino }

  lemma PutFiled(st: WalkState, path: Path, node: Node)
    ensures Filed(WalkState(Put(st.rows, path, node), st.seen + {node.ino}), path, node.ino)
  {}

  lemma JoinNone(path: Path)
    ensures JoinAt(path, []) == path
  {}

  lemma AddedKeeps(a: WalkState, b: WalkState, path: Path, p: Path, ino: nat)
    requires Added(a, b, path) && Filed(a, p, ino)
    ensures Filed(b, p, ino)
  {}

  lemma {:induction false} WalkAllFiles(img: Image, es: seq<Entry>, path: Path, st: WalkState, parts: Parts)
    requires WalkAll(img, es, path, st).Return? && GoodPath(path) && FreshNames(st, path, es)
    requires parts != [] && ResolveIn(img, es, parts).Some?
    ensures Filed(WalkAll(img, es, path, st).value, JoinAt(path, parts), ResolveIn(img, es, parts).value)
    decreases Unseen(img, st.seen), 1, |es|
  {
    hide Unseen, Added, Unused, Child, ComponentName, JoinAt, GoodPath, Resolve, WalkFrom, Filed, NamesDistinct;
    if es != [] {
      var c := Child(path, es[0].name);
      FirstEntry(img, es, parts);
      ChildGood(path, es[0].name);
      FirstFresh(st, path, es);
      WalkFromAdds(img, es[0].child, c, st);
      var st' := WalkFrom(img, es[0].child, c, st).value;
      UnseenMono(img, st.seen, st'.seen);
      StillFresh(st, st', path, es);
      if parts[0] == es[0].name {
        WalkFiles(img, es[0].child, c, st, parts[1..]);
        JoinChild(path, parts);
        WalkAllAdds(img, es[1..], path, st');
        AddedKeeps(st', WalkAll(img, es[1..], path, st').value, path, JoinAt(path, parts),
                   ResolveIn(img, es, parts).value);
      } else {
        WalkAllFiles(img, es[1..], path, st', parts);
      }
    }
  }

  lemma FirstFresh(st: WalkState, path: Path, es: seq<Entry>)
    requires es != [] && FreshNames(st, path, es)
    ensures Unused(st, Child(path, es[0].name)) && ComponentName(es[0].name)
  {
    hide Unused, Child, ComponentName, NamesDistinct;
  }

  // ------------------------------------------------------------------------ the theorem --

  /** A walk returns exactly when every name list from the root leads to a readable inode and no two to
      the same one; its rows are then exactly the paths those lists spell, with the inodes they lead to. */
  lemma WalkExact(img: Image)
    ensures Walk(img).Return? <==> Sound(img, RootIno(img), {}, false)
    ensures Walk(img).Return? ==> forall parts :: Resolve(img, RootIno(img), parts).Some? ==>
      && PathOf(parts) in Walk(img).value.at
      && Walk(img).value.at[PathOf(parts)].ino == Resolve(img, RootIno(img), parts).value
    ensures Walk(img).Return? ==> forall p :: p in Walk(img).value.at ==> Spelled(img, p)
  {
    hide WalkFrom, Sound, Resolve, RootIno, Unused, AllFiled, RowsOk, Reached, PathOf, JoinAt, Visit;
    var root := RootIno(img);
    WalkVisits(img, root, ROOT, NOTHING);
    VisitExact(img, root, {}, false);
    if Walk(img).Return? {
      NothingYet(img);
      forall parts | Resolve(img, root, parts).Some?
        ensures Filed(WalkFrom(img, root, ROOT, NOTHING).value, PathOf(parts), Resolve(img, root, parts).value)
      {
        WalkFiles(img, root, ROOT, NOTHING, parts);
        JoinRoot(parts);
      }
      WalkFromOk(img, root, ROOT, NOTHING);
      forall p | p in Walk(img).value.at ensures Spelled(img, p) {
        RowSpelled(img, WalkFrom(img, root, ROOT, NOTHING).value, p);
      }
    }
  }

  /** Some name list from the root spells p. */
  ghost predicate Spelled(img: Image, p: Path) {
    exists parts :: Resolve(img, RootIno(img), parts).Some? && p == PathOf(parts)
  }

  lemma RowSpelled(img: Image, st: WalkState, p: Path)
    requires StateOk(img, st) && Reached(img, RootIno(img), {}, st.seen) && p in st.rows.at
    requires forall parts :: Resolve(img, RootIno(img), parts).Some? ==>
      Filed(st, PathOf(parts), Resolve(img, RootIno(img), parts).value)
    ensures Spelled(img, p)
  {
    hide Resolve, RootIno, PathOf, Ordered, Honest;
    var n := st.rows.at[p].ino;
    var parts :| Resolve(img, RootIno(img), parts) == Some(n);
    assert Filed(st, PathOf(parts), n);
  }

  // --------------------------------------------------------------------- in which order --

  /** Where an entry of that name stands. */
  ghost function PlaceOf(es: seq<Entry>, name: seq<Byte>): (i: nat) {
    if es == [] || es[0].name == name then 0 else 1 + PlaceOf(es[1..], name)
  }

  /** p comes before q: a directory before its contents, contents in the directory's order. */
  ghost predicate Precedes(img: Image, ino: nat, p: Parts, q: Parts)
    decreases |p|, 1
  {
    if p == [] then q != []
    else q != [] && Directory(img, ino).Return? && PrecedesIn(img, Directory(img, ino).value, p, q)
  }

  ghost predicate PrecedesIn(img: Image, es: seq<Entry>, p: Parts, q: Parts)
    requires p != [] && q != []
    decreases |p|, 0
  {
    if p[0] != q[0] then PlaceOf(es, p[0]) < PlaceOf(es, q[0])
    else EntryOf(es, p[0]).Some? && Precedes(img, EntryOf(es, p[0]).value, p[1..], q[1..])
  }

  lemma FirstPlaces(img: Image, es: seq<Entry>, p: Parts, q: Parts)
    requires es != [] && p != [] && q != [] && PrecedesIn(img, es, p, q)
    ensures p[0] == q[0] == es[0].name ==> Precedes(img, es[0].child, p[1..], q[1..])
    ensures q[0] == es[0].name ==> p[0] == q[0]
    ensures p[0] != es[0].name && q[0] != es[0].name ==> PrecedesIn(img, es[1..], p, q)
  {
    hide Precedes;
  }

  /** a stands in the list in front of b. */
  ghost predicate Earlier(order: seq<Path>, a: Path, b: Path) {
    exists i, j :: 0 <= i < j < |order| && order[i] == a && order[j] == b
  }

  lemma EarlierLonger(order: seq<Path>, longer: seq<Path>, a: Path, b: Path)
    requires order <= longer && Earlier(order, a, b)
    ensures Earlier(longer, a, b)
  {
    var i, j :| 0 <= i < j < |order| && order[i] == a && order[j] == b;
    assert longer[i] == a && longer[j] == b;
  }

  lemma EarlierNew(order: seq<Path>, longer: seq<Path>, a: Path, b: Path)
    requires order <= longer && a in order && b in longer && b !in order
    ensures Earlier(longer, a, b)
  {
    var i :| 0 <= i < |order| && order[i] == a;
    var j :| 0 <= j < |longer| && longer[j] == b;
    assert longer[i] == a && forall k :: 0 <= k < |order| ==> longer[k] == order[k];
  }

  lemma {:induction false} OrderGrows(img: Image, ino: nat, path: Path, st: WalkState)
    requires WalkFrom(img, ino, path, st).Return?
    ensures st.rows.order <= WalkFrom(img, ino, path, st).value.rows.order
    decreases Unseen(img, st.seen), 0, 0
  {
    hide GetInode, Directory, Payload, Unseen;
    var kind := GetInode(img, ino).value.kind;
    if kind == T_DIR {
      UnseenDrops(img, st.seen, ino);
      OrderGrowsAll(img, Directory(img, ino).value, path,
                    WalkState(Put(st.rows, path, Node(ino, kind)), st.seen + {ino}));
    }
  }

  lemma {:induction false} OrderGrowsAll(img: Image, es: seq<Entry>, path: Path, st: WalkState)
    requires WalkAll(img, es, path, st).Return?
    ensures st.rows.order <= WalkAll(img, es, path, st).value.rows.order
    decreases Unseen(img, st.seen), 1, |es|
  {
    hide Unseen, WalkFrom, Child;
    if es != [] {
      OrderGrows(img, es[0].child, Child(path, es[0].name), st);
      var st' := WalkFrom(img, es[0].child, Child(path, es[0].name), st).value;
      UnseenMono(img, st.seen, st'.seen);
      OrderGrowsAll(img, es[1..], path, st');
    }
  }

  lemma {:induction false} WalkOrders(img: Image, ino: nat, path: Path, st: WalkState, p: Parts, q: Parts)
    requires WalkFrom(img, ino, path, st).Return? && Unused(st, path) && GoodPath(path) && StateOk(img, st)
    requires Resolve(img, ino, p).Some? && Resolve(img, ino, q).Some? && Precedes(img, ino, p, q)
    ensures Earlier(WalkFrom(img, ino, path, st).value.rows.order, JoinAt(path, p), JoinAt(path, q))
    decreases Unseen(img, st.seen), 0, 0
  {
    hide GetInode, Payload, Directory, Unseen, Put, Added, Unused, Child, ComponentName, NamesDistinct,
        JoinAt, GoodPath,
        ResolveIn, PrecedesIn, StateOk, Earlier, Filed;
    var node := Node(ino, GetInode(img, ino).value.kind);
    var st' := WalkState(Put(st.rows, path, node), st.seen + {ino});
    if node.kind == T_DIR {
      UnseenDrops(img, st.seen, ino);
      DirectoryOk(img, ino);
      var es := Directory(img, ino).value;
      forall i | 0 <= i < |es| ensures Unused(st', Child(path, es[i].name)) {
        NoneBelow(st, path, node, es[i].name);
      }
      PutOk(img, st, path, ino);
      if p == [] {
        JoinNone(path);
        PutFiled(st, path, node);
        OrderGrowsAll(img, es, path, st');
        WalkFiles(img, ino, path, st, q);
        WalkFromOk(img, ino, path, st);
        Listed(img, st', path, ino);
        Listed(img, WalkFrom(img, ino, path, st).value, JoinAt(path, q), Resolve(img, ino, q).value);
        NewBelowRoot(img, st, st', path, node, es, q);
        EarlierNew(st'.rows.order, WalkFrom(img, ino, path, st).value.rows.order, path, JoinAt(path, q));
      } else {
        WalkAllOrders(img, es, path, st', p, q);
      }
    } else {
      OnlySelf(img, ino, q);
      OnlySelf(img, ino, p);
    }
  }

  lemma Listed(img: Image, st: WalkState, p: Path, ino: nat)
    requires StateOk(img, st) && Filed(st, p, ino)
    ensures p in st.rows.order
  {
    hide Honest, Injective;
  }

  /** What is named below path is not yet listed when path itself has just been. */
  lemma NewBelowRoot(img: Image, st: WalkState, st': WalkState, path: Path, node: Node, es: seq<Entry>, q: Parts)
    requires st' == WalkState(Put(st.rows, path, node), st.seen + {node.ino}) && StateOk(img, st')
    requires q != [] && ResolveIn(img, es, q).Some?
    requires forall i :: 0 <= i < |es| ==> Unused(st', Child(path, es[i].name)) && ComponentName(es[i].name)
    ensures JoinAt(path, q) !in st'.rows.order
  {
    hide Unused, Child, ComponentName, Put, StateOk, JoinAt, Resolve;
    var i := EntryPlace(es, q[0]);
    NotYet(img, st', path, q);
  }

  lemma NotYet(img: Image, st: WalkState, path: Path, q: Parts)
    requires StateOk(img, st) && q != [] && ComponentName(q[0]) && Unused(st, Child(path, q[0]))
    ensures JoinAt(path, q) !in st.rows.order
  {
    hide ComponentName, Child, RStrip, Honest, Injective;
    JoinChild(path, q);
    JoinInside(Child(path, q[0]), q[1..]);
    assert AtOrBelow(Child(path, q[0]), JoinAt(path, q));
  }

  lemma JoinInside(path: Path, parts: Parts)
    ensures AtOrBelow(path, JoinAt(path, parts))
  {
    hide RStrip;
    if parts != [] { assert RStrip(path) + Slashed(parts) == (RStrip(path) + [47]) + (parts[0] + Slashed(parts[1..])); }
  }

  lemma {:induction false} EntryPlace(es: seq<Entry>, name: seq<Byte>) returns (i: nat)
    requires EntryOf(es, name).Some?
    ensures i < |es| && es[i].name == name
  {
    if es[0].name == name {
      i := 0;
    } else {
      i := EntryPlace(es[1..], name);
      i := i + 1;
    }
  }

  lemma {:induction false} WalkAllOrders(img: Image, es: seq<Entry>, path: Path, st: WalkState, p: Parts, q: Parts)
    requires WalkAll(img, es, path, st).Return? && GoodPath(path) && FreshNames(st, path, es) && StateOk(img, st)
    requires p != [] && q != [] && ResolveIn(img, es, p).Some? && ResolveIn(img, es, q).Some?
    requires PrecedesIn(img, es, p, q)
    ensures Earlier(WalkAll(img, es, path, st).value.rows.order, JoinAt(path, p), JoinAt(path, q))
    decreases Unseen(img, st.seen), 1, |es|
  {
    hide Unseen, Added, Unused, Child, ComponentName, JoinAt, GoodPath, Resolve, WalkFrom, Filed, NamesDistinct,
        StateOk, Earlier, Precedes, PrecedesIn;
    if es != [] {
      var c := Child(path, es[0].name);
      FirstEntry(img, es, p);
      FirstEntry(img, es, q);
      FirstPlaces(img, es, p, q);
      ChildGood(path, es[0].name);
      FirstFresh(st, path, es);
      WalkFromAdds(img, es[0].child, c, st);
      WalkFromOk(img, es[0].child, c, st);
      var st' := WalkFrom(img, es[0].child, c, st).value;
      UnseenMono(img, st.seen, st'.seen);
      StillFresh(st, st', path, es);
      OrderGrowsAll(img, es[1..], path, st');
      var out := WalkAll(img, es[1..], path, st').value;
      if q[0] == es[0].name {
        WalkOrders(img, es[0].child, c, st, p[1..], q[1..]);
        JoinChild(path, p);
        JoinChild(path, q);
        EarlierLonger(st'.rows.order, out.rows.order, JoinAt(path, p), JoinAt(path, q));
      } else if p[0] == es[0].name {
        WalkFiles(img, es[0].child, c, st, p[1..]);
        JoinChild(path, p);
        Listed(img, st', JoinAt(path, p), ResolveIn(img, es, p).value);
        WalkAllFiles(img, es[1..], path, st', q);
        WalkAllOk(img, es[1..], path, st');
        Listed(img, out, JoinAt(path, q), ResolveIn(img, es, q).value);
        OtherNotYet(img, es[1..], path, st', q);
        EarlierNew(st'.rows.order, out.rows.order, JoinAt(path, p), JoinAt(path, q));
      } else {
        WalkAllOrders(img, es[1..], path, st', p, q);
      }
    }
  }

  lemma OtherNotYet(img: Image, es: seq<Entry>, path: Path, st: WalkState, q: Parts)
    requires FreshNames(st, path, es) && StateOk(img, st) && q != [] && ResolveIn(img, es, q).Some?
    ensures JoinAt(path, q) !in st.rows.order
  {
    hide Unused, Child, ComponentName, StateOk, JoinAt, Resolve, NamesDistinct;
    var i := EntryPlace(es, q[0]);
    NotYet(img, st, path, q);
  }

  /** The rows stand in the order of the directories: a directory in front of its contents, an entry's
      objects in front of a later entry's. */
  lemma WalkInOrder(img: Image, p: Parts, q: Parts)
    requires Walk(img).Return? && Precedes(img, RootIno(img), p, q)
    requires Resolve(img, RootIno(img), p).Some? && Resolve(img, RootIno(img), q).Some?
    ensures Earlier(Walk(img).value.order, PathOf(p), PathOf(q))
  {
    hide WalkFrom, Resolve, RootIno, Unused, RowsOk, PathOf, JoinAt, Precedes, Earlier;
    NothingYet(img);
    WalkOrders(img, RootIno(img), ROOT, NOTHING, p, q);
    JoinRoot(p);
    JoinRoot(q);
  }
}
