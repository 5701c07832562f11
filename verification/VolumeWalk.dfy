/** tools/project_volume.py walk: every object of a volume by path, each inode once and each under a
    path of its own. */
module VolumeWalk {
  import opened Bits
  import opened Outcomes
  import opened LogitFs

  type Path = seq<Byte>

  datatype Node = Node(ino: nat, kind: nat)

  /** A dictionary in insertion order. */
  datatype Rows = Rows(order: seq<Path>, at: map<Path, Node>)

  datatype WalkState = WalkState(rows: Rows, seen: set<nat>)

  const NOTHING: WalkState := WalkState(Rows([], map[]), {})
  const ROOT: Path := [SLASH]

  function Put(rows: Rows, path: Path, node: Node): (r: Rows) {
    Rows(if path in rows.at then rows.order else rows.order + [path], rows.at[path := node])
  }

  /** The path without its trailing slashes. */
  function RStrip(path: Path): (r: Path) {
    if path != [] && path[|path| - 1] == SLASH then RStrip(path[..|path| - 1]) else path
  }

  function Child(path: Path, name: seq<Byte>): (r: Path) {
    RStrip(path) + [SLASH] + name
  }

  // ------------------------------------------------------------------- walking --

  predicate Below(k: nat, n: nat) { k < n }

  ghost function Numbers(n: nat): (s: set<nat>) {
    set k: nat | k < n && Below(k, n)
  }

  ghost function Unseen(img: Image, seen: set<nat>): (n: nat) {
    |Numbers(InodeCount(img)) - seen|
  }

  lemma UnseenDrops(img: Image, seen: set<nat>, ino: nat)
    requires ino < InodeCount(img) && ino !in seen
    ensures Unseen(img, seen + {ino}) < Unseen(img, seen)
  {
    var all := Numbers(InodeCount(img));
    assert all - (seen + {ino}) == (all - seen) - {ino};
  }

  lemma UnseenMono(img: Image, seen: set<nat>, more: set<nat>)
    requires seen <= more
    ensures Unseen(img, more) <= Unseen(img, seen)
  {
    var all := Numbers(InodeCount(img));
    SubsetSize(all - more, all - seen);
  }

  lemma {:induction false} SubsetSize<T>(a: set<T>, b: set<T>)
    requires a <= b
    ensures |a| <= |b|
  {
    if a != {} {
      var x :| x in a;
      SubsetSize(a - {x}, b - {x});
    }
  }

  /** walk(fs, ino, path, rows, seen); a second visit to an inode is refused, so it ends on
      every graph. */
  function WalkFrom(img: Image, ino: nat, path: Path, st: WalkState): (r: Outcome<WalkState>)
    ensures r.Return? ==> st.seen <= r.value.seen
    decreases Unseen(img, st.seen), 0, 0
  {
    if ino in st.seen then Raise
    else match GetInode(img, ino)
      case Raise => Raise
      case Return(node) =>
        var st' := WalkState(Put(st.rows, path, Node(ino, node.kind)), st.seen + {ino});
        if node.kind != T_DIR then Return(st')
        else match Directory(img, ino)
          case Raise => Raise
          case Return(es) =>
            UnseenDrops(img, st.seen, ino);
            WalkAll(img, es, path, st')
  }

  function WalkAll(img: Image, es: seq<Entry>, path: Path, st: WalkState): (r: Outcome<WalkState>)
    ensures r.Return? ==> st.seen <= r.value.seen
    decreases Unseen(img, st.seen), 1, |es|
  {
    if es == [] then Return(st)
    else match WalkFrom(img, es[0].child, Child(path, es[0].name), st)
      case Raise => Raise
      case Return(st') =>
        UnseenMono(img, st.seen, st'.seen);
        WalkAll(img, es[1..], path, st')
  }

  /** The rows of a whole volume. */
  function Walk(img: Image): (r: Outcome<Rows>) {
    match WalkFrom(img, RootIno(img), ROOT, NOTHING)
    case Raise => Raise
    case Return(st) => Return(st.rows)
  }

  /** The walker as the tool runs it, filling its two collections in place. */
  class Walker {
    const img: Image
    var rows: Rows
    var seen: set<nat>

    constructor (image: Image)
      ensures img == image && State() == NOTHING
    {
      img, rows, seen := image, NOTHING.rows, NOTHING.seen;
    }

    function State(): (st: WalkState)
      reads this
    {
      WalkState(rows, seen)
    }

    method Visit(ino: nat, path: Path) returns (ok: bool)
      modifies this
      ensures ok <==> WalkFrom(img, ino, path, old(State())).Return?
      ensures ok ==> State() == WalkFrom(img, ino, path, old(State())).value
      decreases Unseen(img, seen)
    {
      hide Directory, GetInode, Put, Child, Unseen;
      if ino in seen {
        return false;
      }
      ghost var before := seen;
      seen := seen + {ino};
      var node := GetInode(img, ino);
      if node.Raise? {
        return false;
      }
      rows := Put(rows, path, Node(ino, node.value.kind));
      if node.value.kind == T_DIR {
        var es := ReadDirectory(img, ino);
        if es.Raise? {
          return false;
        }
        UnseenDrops(img, before, ino);
        ghost var goal := WalkAll(img, es.value, path, State());
        ghost var here := seen;
        for i := 0 to |es.value|
          invariant here <= seen && WalkAll(img, es.value[i..], path, State()) == goal
        {
          assert es.value[i..][1..] == es.value[i + 1..];
          UnseenMono(img, here, seen);
          ok := Visit(es.value[i].child, Child(path, es.value[i].name));
          if !ok {
            return;
          }
        }
      }
      ok := true;
    }
  }

  /** A walk of the whole volume with fresh collections. */
  method WalkImage(img: Image) returns (r: Outcome<Rows>)
    ensures r == Walk(img)
  {
    hide WalkFrom;
    var w := new Walker(img);
    var ok := w.Visit(RootIno(img), ROOT);
    r := if ok then Return(w.rows) else Raise;
  }

  // --------------------------------------------------------- what a walk ensures --

  /** The order lists every path once. */
  ghost predicate Ordered(rows: Rows) {
    && (forall i, j :: 0 <= i < j < |rows.order| ==> rows.order[i] != rows.order[j])
    && (forall p :: p in rows.order <==> p in rows.at)
  }

  ghost predicate Honest(img: Image, rows: Rows) {
    forall p :: p in rows.at ==>
      GetInode(img, rows.at[p].ino).Return? && GetInode(img, rows.at[p].ino).value.kind == rows.at[p].kind
  }

  /** No inode is filed under two paths. */
  ghost predicate Injective(rows: Rows) {
    forall p, q :: p in rows.at && q in rows.at && p != q ==> rows.at[p].ino != rows.at[q].ino
  }

  ghost predicate RowsOk(img: Image, rows: Rows) {
    Ordered(rows) && Honest(img, rows) && Injective(rows)
  }

  ghost predicate StateOk(img: Image, st: WalkState) {
    RowsOk(img, st.rows) && forall p :: p in st.rows.at ==> st.rows.at[p].ino in st.seen
  }

  lemma PutOrdered(rows: Rows, path: Path, node: Node)
    requires Ordered(rows)
    ensures Ordered(Put(rows, path, node))
  {}

  lemma PutHonest(img: Image, rows: Rows, path: Path, node: Node)
    requires Honest(img, rows) && GetInode(img, node.ino).Return? && GetInode(img, node.ino).value.kind == node.kind
    ensures Honest(img, Put(rows, path, node))
  {
    hide GetInode;
  }

  lemma PutInjective(rows: Rows, path: Path, node: Node)
    requires Injective(rows) && forall p :: p in rows.at ==> rows.at[p].ino != node.ino
    ensures Injective(Put(rows, path, node))
  {}

  lemma PutOk(img: Image, st: WalkState, path: Path, ino: nat)
    requires StateOk(img, st) && ino !in st.seen && GetInode(img, ino).Return?
    ensures StateOk(img, WalkState(Put(st.rows, path, Node(ino, GetInode(img, ino).value.kind)), st.seen + {ino}))
  {
    hide GetInode, Ordered, Honest, Injective;
    var node := Node(ino, GetInode(img, ino).value.kind);
    PutOrdered(st.rows, path, node);
    PutHonest(img, st.rows, path, node);
    PutInjective(st.rows, path, node);
  }

  lemma {:induction false} WalkFromOk(img: Image, ino: nat, path: Path, st: WalkState)
    requires StateOk(img, st) && WalkFrom(img, ino, path, st).Return?
    ensures StateOk(img, WalkFrom(img, ino, path, st).value)
    decreases Unseen(img, st.seen), 0, 0
  {
    hide GetInode, Directory, StateOk, Put, Unseen;
    PutOk(img, st, path, ino);
    var node := GetInode(img, ino).value;
    if node.kind == T_DIR {
      UnseenDrops(img, st.seen, ino);
      WalkAllOk(img, Directory(img, ino).value, path,
                WalkState(Put(st.rows, path, Node(ino, node.kind)), st.seen + {ino}));
    }
  }

  lemma {:induction false} WalkAllOk(img: Image, es: seq<Entry>, path: Path, st: WalkState)
    requires StateOk(img, st) && WalkAll(img, es, path, st).Return?
    ensures StateOk(img, WalkAll(img, es, path, st).value)
    decreases Unseen(img, st.seen), 1, |es|
  {
    hide StateOk, Unseen, Child;
    if es != [] {
      WalkFromOk(img, es[0].child, Child(path, es[0].name), st);
      var st' := WalkFrom(img, es[0].child, Child(path, es[0].name), st).value;
      UnseenMono(img, st.seen, st'.seen);
      WalkAllOk(img, es[1..], path, st');
    }
  }

  /** No entry below the root is filed under the root's own path. */
  ghost predicate RootStays(rows: Rows, node: Node) {
    ROOT in rows.at && rows.at[ROOT] == node
  }

  lemma ChildNotRoot(path: Path, name: seq<Byte>)
    requires ComponentName(name)
    ensures Child(path, name) != ROOT
  {
    assert Child(path, name)[|Child(path, name)| - 1] == name[|name| - 1];
  }

  lemma {:induction false} WalkFromRoot(img: Image, ino: nat, path: Path, st: WalkState, node: Node)
    requires WalkFrom(img, ino, path, st).Return?
    requires (path != ROOT && RootStays(st.rows, node))
          || (path == ROOT && node.ino == ino
              && GetInode(img, ino).Return? && node.kind == GetInode(img, ino).value.kind)
    ensures RootStays(WalkFrom(img, ino, path, st).value.rows, node)
    decreases Unseen(img, st.seen), 0, 0
  {
    hide GetInode, Directory, Unseen;
    var n := GetInode(img, ino).value;
    if n.kind == T_DIR {
      UnseenDrops(img, st.seen, ino);
      DirectoryOk(img, ino);
      WalkAllRoot(img, Directory(img, ino).value, path,
                  WalkState(Put(st.rows, path, Node(ino, n.kind)), st.seen + {ino}), node);
    }
  }

  lemma {:induction false} WalkAllRoot(img: Image, es: seq<Entry>, path: Path, st: WalkState, node: Node)
    requires WalkAll(img, es, path, st).Return? && RootStays(st.rows, node)
    requires forall i :: 0 <= i < |es| ==> ComponentName(es[i].name)
    ensures RootStays(WalkAll(img, es, path, st).value.rows, node)
    decreases Unseen(img, st.seen), 1, |es|
  {
    hide RootStays, Unseen, ComponentName, Child;
    if es != [] {
      ChildNotRoot(path, es[0].name);
      WalkFromRoot(img, es[0].child, Child(path, es[0].name), st, node);
      var st' := WalkFrom(img, es[0].child, Child(path, es[0].name), st).value;
      UnseenMono(img, st.seen, st'.seen);
      WalkAllRoot(img, es[1..], path, st', node);
    }
  }

  // ------------------------------------------------------- every path is filed once --

  /** p is path itself or lies below it. */
  ghost predicate AtOrBelow(path: Path, p: Path) { p == path || RStrip(path) + [SLASH] <= p }

  lemma ChildKept(path: Path, name: seq<Byte>)
    requires ComponentName(name)
    ensures RStrip(Child(path, name)) == Child(path, name)
  {
    hide RStrip;
    var c := Child(path, name);
    assert c[|c| - 1] == name[|name| - 1] && name[|name| - 1] in name;
    NoStrip(c);
  }

  lemma NoStrip(p: Path)
    requires p != [] && p[|p| - 1] != SLASH
    ensures RStrip(p) == p
  {}

  /** What lies at or below a child lies below its directory, and the directory itself does not. */
  lemma ChildInside(path: Path, name: seq<Byte>, p: Path)
    requires ComponentName(name) && AtOrBelow(Child(path, name), p) && (path == ROOT || RStrip(path) == path)
    ensures AtOrBelow(path, p) && p != path
  {
    hide ComponentName;
    ChildKept(path, name);
    var c := Child(path, name);
    assert RStrip(path) + [SLASH] <= c <= p;
    NotEmpty(name);
    if path == ROOT { assert RStrip(ROOT[..0]) == []; }
  }

  lemma NotEmpty(name: seq<Byte>)
    requires ComponentName(name)
    ensures name != []
  {}

  /** Families of different children of one directory are disjoint. */
  lemma ChildrenApart(path: Path, a: seq<Byte>, b: seq<Byte>, p: Path)
    requires ComponentName(a) && ComponentName(b)
    requires AtOrBelow(Child(path, a), p) && AtOrBelow(Child(path, b), p)
    ensures a == b
  {
    hide RStrip;
    ChildKept(path, a);
    ChildKept(path, b);
    var base := RStrip(path) + [SLASH];
    var rest := p[|base|..];
    assert base <= Child(path, a) <= p && base <= Child(path, b) <= p;
    assert rest == a || a + [SLASH] <= rest by { FamilyTail(base, a, p); }
    assert rest == b || b + [SLASH] <= rest by { FamilyTail(base, b, p); }
    FirstPart(a, b, rest);
  }

  lemma FamilyTail(base: Path, name: seq<Byte>, p: Path)
    requires p == base + name || base + name + [SLASH] <= p
    ensures |base| <= |p| && (p[|base|..] == name || name + [SLASH] <= p[|base|..])
  {
    if p != base + name {
      assert p[..|base + name + [SLASH]|] == base + name + [SLASH];
      assert p[|base|..][..|name| + 1] == name + [SLASH];
    }
  }

  /** Position of the first slash, or the length. */
  function FirstSlash(s: seq<Byte>): (n: nat)
    ensures n <= |s|
  {
    if s == [] || s[0] == SLASH then 0 else 1 + FirstSlash(s[1..])
  }

  lemma {:induction false} FirstSlashIs(a: seq<Byte>, rest: seq<Byte>)
    requires SLASH !in a && (rest == a || a + [SLASH] <= rest)
    ensures FirstSlash(rest) == |a| && rest[..|a|] == a
    decreases |a|
  {
    if a != [] {
      assert a[0] in a;
      assert rest[1..] == a[1..] || a[1..] + [SLASH] <= rest[1..] by {
        if rest != a { assert (a + [SLASH])[1..] == a[1..] + [SLASH]; }
      }
      FirstSlashIs(a[1..], rest[1..]);
      assert a == [a[0]] + a[1..];
    } else if rest != a {
      assert rest[0] == (a + [SLASH])[0];
    }
  }

  /** A text has one first component. */
  lemma FirstPart(a: seq<Byte>, b: seq<Byte>, rest: seq<Byte>)
    requires SLASH !in a && SLASH !in b
    requires (rest == a || a + [SLASH] <= rest) && (rest == b || b + [SLASH] <= rest)
    ensures a == b
  {
    hide FirstSlash;
    FirstSlashIs(a, rest);
    FirstSlashIs(b, rest);
  }

  /** Every inode seen has a row. */
  ghost predicate AllFiled(st: WalkState) {
    forall i :: i in st.seen ==> exists p :: p in st.rows.at && st.rows.at[p].ino == i
  }

  /** From a to b the walk kept every row, added rows at or below path only, and one for every inode. */
  ghost predicate Added(a: WalkState, b: WalkState, path: Path) {
    && (forall p :: p in a.rows.at ==> p in b.rows.at && b.rows.at[p] == a.rows.at[p])
    && (forall p :: p in b.rows.at ==> p in a.rows.at || AtOrBelow(path, p))
    && a.seen <= b.seen && |b.rows.at| - |a.rows.at| == |b.seen| - |a.seen|
    && (AllFiled(a) ==> AllFiled(b))
  }

  /** No row lies at or below path. */
  ghost predicate Unused(st: WalkState, path: Path) {
    forall p :: p in st.rows.at ==> !AtOrBelow(path, p)
  }

  lemma AddedSelf(a: WalkState, path: Path)
    ensures Added(a, a, path)
  {}

  lemma AddedThen(a: WalkState, b: WalkState, c: WalkState, path: Path, inner: Path)
    requires Added(a, b, path) && Added(b, c, inner) && forall p :: AtOrBelow(inner, p) ==> AtOrBelow(path, p)
    ensures Added(a, c, path)
  {
    hide AtOrBelow, AllFiled;
  }

  lemma AddedOne(a: WalkState, path: Path, node: Node)
    requires Unused(a, path) && node.ino !in a.seen
    ensures Added(a, WalkState(Put(a.rows, path, node), a.seen + {node.ino}), path)
  {
    var b := WalkState(Put(a.rows, path, node), a.seen + {node.ino});
    assert AtOrBelow(path, path);
    assert path !in a.rows.at;
    assert b.rows.at.Keys == a.rows.at.Keys + {path};
    assert |b.rows.at| == |b.rows.at.Keys| && |a.rows.at| == |a.rows.at.Keys|;
    if AllFiled(a) {
      forall i | i in b.seen ensures exists p :: p in b.rows.at && b.rows.at[p].ino == i {
        if i == node.ino {
          assert b.rows.at[path].ino == i;
        } else {
          var p :| p in a.rows.at && a.rows.at[p].ino == i;
          assert b.rows.at[p].ino == i;
        }
      }
    }
  }

  ghost predicate GoodPath(path: Path) { path == ROOT || RStrip(path) == path }

  ghost predicate FreshNames(st: WalkState, path: Path, es: seq<Entry>) {
    && NamesDistinct(es) && (forall i :: 0 <= i < |es| ==> ComponentName(es[i].name))
    && (forall i :: 0 <= i < |es| ==> Unused(st, Child(path, es[i].name)))
  }

  lemma {:induction false} WalkFromAdds(img: Image, ino: nat, path: Path, st: WalkState)
    requires WalkFrom(img, ino, path, st).Return? && Unused(st, path) && GoodPath(path)
    ensures Added(st, WalkFrom(img, ino, path, st).value, path)
    decreases Unseen(img, st.seen), 0, 0
  {
    hide GetInode, Directory, Unseen, Put, Added, AtOrBelow, Child, ComponentName, NamesDistinct;
    var node := Node(ino, GetInode(img, ino).value.kind);
    AddedOne(st, path, node);
    var st' := WalkState(Put(st.rows, path, node), st.seen + {ino});
    if node.kind == T_DIR {
      UnseenDrops(img, st.seen, ino);
      DirectoryOk(img, ino);
      var es := Directory(img, ino).value;
      forall i | 0 <= i < |es| ensures Unused(st', Child(path, es[i].name)) {
        NoneBelow(st, path, node, es[i].name);
      }
      WalkAllAdds(img, es, path, st');
      AddedThen(st, st', WalkAll(img, es, path, st').value, path, path);
    }
  }

  lemma NoneBelow(st: WalkState, path: Path, node: Node, name: seq<Byte>)
    requires Unused(st, path) && GoodPath(path) && ComponentName(name)
    ensures Unused(WalkState(Put(st.rows, path, node), st.seen + {node.ino}), Child(path, name))
  {
    hide AtOrBelow, Child, ComponentName;
    var rows := Put(st.rows, path, node);
    forall p | p in rows.at ensures !AtOrBelow(Child(path, name), p) {
      if AtOrBelow(Child(path, name), p) { ChildInside(path, name, p); }
    }
  }

  lemma {:induction false} WalkAllAdds(img: Image, es: seq<Entry>, path: Path, st: WalkState)
    requires WalkAll(img, es, path, st).Return? && GoodPath(path) && FreshNames(st, path, es)
    ensures Added(st, WalkAll(img, es, path, st).value, path)
    decreases Unseen(img, st.seen), 1, |es|
  {
    hide Unseen, Added, AtOrBelow, Child, ComponentName, Unused;
    if es == [] {
      AddedSelf(st, path);
    } else {
      var c := Child(path, es[0].name);
      ChildGood(path, es[0].name);
      WalkFromAdds(img, es[0].child, c, st);
      var st' := WalkFrom(img, es[0].child, c, st).value;
      UnseenMono(img, st.seen, st'.seen);
      StillFresh(st, st', path, es);
      WalkAllAdds(img, es[1..], path, st');
      forall p | AtOrBelow(c, p) ensures AtOrBelow(path, p) { ChildInside(path, es[0].name, p); }
      AddedWider(st, st', path, c);
      AddedThen(st, st', WalkAll(img, es[1..], path, st').value, path, path);
    }
  }

  lemma ChildGood(path: Path, name: seq<Byte>)
    requires ComponentName(name)
    ensures GoodPath(Child(path, name))
  {
    hide ComponentName, Child, RStrip;
    ChildKept(path, name);
  }

  lemma AddedWider(a: WalkState, b: WalkState, path: Path, inner: Path)
    requires Added(a, b, inner) && forall p :: AtOrBelow(inner, p) ==> AtOrBelow(path, p)
    ensures Added(a, b, path)
  {
    hide AtOrBelow, AllFiled;
  }

  lemma StillFresh(st: WalkState, st': WalkState, path: Path, es: seq<Entry>)
    requires es != [] && FreshNames(st, path, es) && Added(st, st', Child(path, es[0].name))
    ensures FreshNames(st', path, es[1..])
  {
    hide AtOrBelow, Child, ComponentName, AllFiled;
    var t := es[1..];
    forall i | 0 <= i < |t| ensures Unused(st', Child(path, t[i].name)) && ComponentName(t[i].name) {
      assert t[i] == es[i + 1] && es[0].name != es[i + 1].name;
      forall p | p in st'.rows.at ensures !AtOrBelow(Child(path, t[i].name), p) {
        assert Unused(st, Child(path, es[i + 1].name));
        if AtOrBelow(Child(path, t[i].name), p) && AtOrBelow(Child(path, es[0].name), p) {
          ChildrenApart(path, t[i].name, es[0].name, p);
        }
      }
    }
  }

  /** The rows of a walk name every object visited once, each under a path of its own, and the root
      under its own path. */
  lemma WalkOk(img: Image)
    requires Walk(img).Return?
    ensures RowsOk(img, Walk(img).value)
    ensures ROOT in Walk(img).value.at && Walk(img).value.at[ROOT].ino == RootIno(img)
    ensures var st := WalkFrom(img, RootIno(img), ROOT, NOTHING).value;
      st.rows == Walk(img).value && AllFiled(st) && |st.rows.at| == |st.seen|
  {
    hide GetInode, WalkFrom, RootIno, Added, Unused, AllFiled, Ordered, Honest, Injective;
    NothingYet(img);
    WalkFromOk(img, RootIno(img), ROOT, NOTHING);
    RootInode(img);
    WalkFromRoot(img, RootIno(img), ROOT, NOTHING, Node(RootIno(img), GetInode(img, RootIno(img)).value.kind));
    WalkFromAdds(img, RootIno(img), ROOT, NOTHING);
    AddedFiled(WalkFrom(img, RootIno(img), ROOT, NOTHING).value);
  }

  lemma NothingYet(img: Image)
    ensures RowsOk(img, NOTHING.rows) && Unused(NOTHING, ROOT)
  {}

  lemma AddedFiled(st: WalkState)
    requires Added(NOTHING, st, ROOT)
    ensures AllFiled(st) && |st.rows.at| == |st.seen|
  {
    assert AllFiled(NOTHING);
  }

  lemma RootInode(img: Image)
    requires WalkFrom(img, RootIno(img), ROOT, NOTHING).Return?
    ensures GetInode(img, RootIno(img)).Return?
  {}
}
