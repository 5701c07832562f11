/** An independent FAT16 reader: it follows chains through the FAT, refuses cycles, cross-links,
    links outside the cluster range and directories whose dot entries are wrong, and returns the
    tree it found together with every cluster it used. */
module FatReader {
  import opened Bits
  import opened Outcomes
  import opened Bytes
  import opened Buffers
  import opened FatTree
  import opened FatWriter

  datatype Volume = Volume(cb: nat, fat: seq<nat>, data: seq<Byte>, root: seq<Byte>)

  predicate VolumeOk(v: Volume) {
    v.cb > 0 && |v.fat| >= 2 && |v.data| == (|v.fat| - 2) * v.cb
  }

  datatype Found<T> = Found(what: T, seen: set<nat>)

  const FIRST_END: nat := 0xFFF8

  /** The clusters of the chain that starts at c. */
  function ChainFrom(v: Volume, c: nat, fuel: nat): (r: Option<seq<nat>>)
    ensures r.Some? ==> forall i :: 0 <= i < |r.value| ==> 2 <= r.value[i] < |v.fat|
    decreases fuel
  {
    if fuel == 0 || !(2 <= c < |v.fat|) then None
    else if v.fat[c] >= FIRST_END then Some([c])
    else
      var rest := ChainFrom(v, v.fat[c], fuel - 1);
      if rest.None? then None else Some([c] + rest.value)
  }

  /** The bytes of a list of clusters. */
  function Gather(v: Volume, cs: seq<nat>): (b: seq<Byte>)
    requires VolumeOk(v) && forall i :: 0 <= i < |cs| ==> 2 <= cs[i] < |v.fat|
  {
    if cs == [] then []
    else
      OffAdd(v.cb, cs[0], 1);
      OffMono(v.cb, cs[0] + 1, |v.fat|);
      v.data[Off(v.cb, cs[0])..Off(v.cb, cs[0]) + v.cb] + Gather(v, cs[1..])
  }

  function SetOf(cs: seq<nat>): (r: set<nat>) { set c | c in cs }

  /** A chain none of whose clusters was used before. */
  function ReadChain(v: Volume, c: nat, seen: set<nat>): (r: Option<Found<seq<Byte>>>)
    requires VolumeOk(v)
  {
    var cs := ChainFrom(v, c, |v.fat|);
    if cs.None? || SetOf(cs.value) * seen != {} then None
    else Some(Found(Gather(v, cs.value), seen + SetOf(cs.value)))
  }

  /** The 32-byte entry at `at` has its reserved bytes zero and carries this stamp as creation, access and
      modification time. */
  predicate Dated(b: seq<Byte>, at: nat, dt: Stamp)
    requires at + 32 <= |b|
  {
    && b[at + 12] == 0 && b[at + 13] == 0 && Field(b, at + 20, 2) == 0
    && Field(b, at + 14, 2) == dt.time && Field(b, at + 16, 2) == dt.date && Field(b, at + 18, 2) == dt.date
    && Field(b, at + 22, 2) == dt.time && Field(b, at + 24, 2) == dt.date
  }

  /** A directory starts with "." and "..", which name it and its parent. */
  predicate DotsOk(b: seq<Byte>, self: nat, parent: nat, dt: Stamp) {
    && |b| >= 64 && Dated(b, 0, dt) && Dated(b, 32, dt)
    && b[..11] == [46, 32, 32, 32, 32, 32, 32, 32, 32, 32, 32] && b[11] == 0x10 && Field(b, 26, 2) == self
    && b[32..43] == [46, 46, 32, 32, 32, 32, 32, 32, 32, 32, 32] && b[43] == 0x10 && Field(b, 58, 2) == parent
  }

  /** What a directory entry stands for; parent is the directory holding the entry. */
  function ReadNode(v: Volume, dt: Stamp, attr: Byte, c: nat, size: nat, parent: nat, seen: set<nat>, depth: nat)
      : (r: Option<Found<Node>>)
    requires VolumeOk(v)
    decreases depth, 1, 0
  {
    if attr == 0x10 then
      var chain := ReadChain(v, c, seen);
      if depth == 0 || chain.None? || !DotsOk(chain.value.what, c, parent, dt) then None
      else
        var kids := ReadSlots(v, dt, chain.value.what[64..], c, chain.value.seen, depth - 1);
        if kids.None? then None else Some(Found(Dir(kids.value.what), kids.value.seen))
    else if attr != 0x20 then None
    else if c == 0 && size == 0 then Some(Found(File([]), seen))
    else
      var chain := ReadChain(v, c, seen);
      if chain.None? || |chain.value.what| < size then None
      else Some(Found(File(chain.value.what[..size]), chain.value.seen))
  }

  /** Entries up to the first whose name starts with zero. */
  function ReadSlots(v: Volume, dt: Stamp, b: seq<Byte>, self: nat, seen: set<nat>, depth: nat)
      : (r: Option<Found<seq<Child>>>)
    requires VolumeOk(v)
    decreases depth, 2, |b|
  {
    if |b| < 32 || b[0] == 0 then Some(Found([], seen))
    else if !Dated(b, 0, dt) then None
    else
      var first := ReadNode(v, dt, b[11], Field(b, 26, 2), Field(b, 28, 4), self, seen, depth);
      if first.None? then None
      else
        var rest := ReadSlots(v, dt, b[32..], self, first.value.seen, depth);
        if rest.None? then None
        else Some(Found([Child(b[..11], first.value.what)] + rest.value.what, rest.value.seen))
  }

  /** The whole volume from its root directory; nesting deeper than there are clusters is refused. */
  function ReadVolume(v: Volume, dt: Stamp): (r: Option<Found<seq<Child>>>)
    requires VolumeOk(v)
  {
    ReadSlots(v, dt, v.root, 0, {}, |v.fat|)
  }

  // ---------------------------------------------------------------- the tree as stored --

  /** The tree with every name in its eleven-byte form. */
  function ShortNode(node: Node): (r: Node)
    requires NodeOk(node)
    decreases node, 1
  {
    match node
    case File(_) => node
    case Dir(ch) => Dir(ShortTree(ch))
  }

  function ShortTree(ch: seq<Child>): (r: seq<Child>)
    requires TreeOk(ch)
    ensures |r| == |ch|
    decreases ch, 0
  {
    if ch == [] then []
    else [Child(ShortName(ch[0].name).value, ShortNode(ch[0].node))] + ShortTree(ch[1..])
  }

  /** No name holds a NUL (names come from the command line, which cannot carry one). */
  predicate NulFreeNode(node: Node)
    decreases node, 1
  {
    node.Dir? ==> NulFree(node.children)
  }

  predicate NulFree(ch: seq<Child>)
    decreases ch, 0
  {
    ch != [] ==> 0 !in ch[0].name && NulFreeNode(ch[0].node) && NulFree(ch[1..])
  }

  lemma VisibleName(name: Name)
    requires NameOk(name) && 0 !in name
    ensures ShortName(name).value[0] != 0
  {
    if name != [] && name != [DOT] && name != [DOT, DOT] {
      assert name[0] in name && UpperAll(name)[0] == Upper(name[0]);
    }
  }

  // ------------------------------------------------------------------------- chains --

  predicate Within(a: nat, c: nat, b: nat) { a <= c < b }

  function Run(a: nat, b: nat): (r: set<nat>)
    ensures forall c :: c in r <==> Within(a, c, b)
  {
    set c: nat | a <= c < b && Within(a, c, b)
  }

  function Upto(a: nat, n: nat): (r: seq<nat>)
    ensures |r| == n && forall i :: 0 <= i < n ==> r[i] == a + i
  {
    seq(n, i requires 0 <= i < n => a + i)
  }

  /** A chain written by the allocator is followed to its end. */
  lemma {:induction false} FollowChain(v: Volume, c: nat, n: nat, k: nat, fuel: nat)
    requires 2 <= c && k < n && c + n <= |v.fat| <= FIRST_END && n - k <= fuel && HasAt(v.fat, c, Chain(c, n))
    ensures ChainFrom(v, c + k, fuel) == Some(Upto(c + k, n - k))
    decreases n - k
  {
    hide ChainFrom, HasAt, Upto;
    LinkAt(v.fat, c, n, k);
    ChainStep(v, c + k, fuel);
    if k < n - 1 {
      FollowChain(v, c, n, k + 1, fuel - 1);
      UptoCons(c + k, n - k);
    } else {
      UptoCons(c + k, 1);
    }
  }

  lemma LinkAt(fat: seq<nat>, c: nat, n: nat, k: nat)
    requires k < n && HasAt(fat, c, Chain(c, n))
    ensures c + k < |fat| && fat[c + k] == if k < n - 1 then c + k + 1 else END
  {
    assert fat[c + k] == fat[c..c + n][k] == Chain(c, n)[k];
  }

  lemma ChainStep(v: Volume, c: nat, fuel: nat)
    requires fuel > 0 && 2 <= c < |v.fat|
    ensures v.fat[c] >= FIRST_END ==> ChainFrom(v, c, fuel) == Some([c])
    ensures var rest := ChainFrom(v, v.fat[c], fuel - 1);
      v.fat[c] < FIRST_END && rest.Some? ==> ChainFrom(v, c, fuel) == Some([c] + rest.value)
  {}

  lemma UptoCons(a: nat, n: nat)
    requires n > 0
    ensures Upto(a, n) == [a] + Upto(a + 1, n - 1) && (n == 1 ==> Upto(a, n) == [a])
  {}

  lemma {:induction false} GatherRun(v: Volume, c: nat, n: nat)
    requires VolumeOk(v) && 2 <= c && c + n <= |v.fat|
    ensures Off(v.cb, c) + n * v.cb == Off(v.cb, c + n) <= |v.data|
    ensures Gather(v, Upto(c, n)) == v.data[Off(v.cb, c)..Off(v.cb, c + n)]
    decreases n
  {
    hide Off;
    RunInside(v, c, n);
    if n == 0 {
      assert Upto(c, n) == [];
    } else {
      hide Gather, Upto;
      UptoCons(c, n);
      GatherRun(v, c + 1, n - 1);
      GatherCons(v, c, Upto(c + 1, n - 1));
      OffMono(v.cb, c + 1, c + n);
      var a, m, z := Off(v.cb, c), Off(v.cb, c + 1), Off(v.cb, c + n);
      assert v.data[a..m] + v.data[m..z] == v.data[a..z];
    }
  }

  lemma RunInside(v: Volume, c: nat, n: nat)
    requires VolumeOk(v) && 2 <= c && c + n <= |v.fat|
    ensures Off(v.cb, c) + n * v.cb == Off(v.cb, c + n) <= |v.data|
  {
    hide Off;
    OffAdd(v.cb, c, n);
    OffMono(v.cb, c + n, |v.fat|);
    OffAdd(v.cb, 2, |v.fat| - 2);
    OffZero(v.cb);
  }

  lemma GatherCons(v: Volume, c: nat, cs: seq<nat>)
    requires VolumeOk(v) && 2 <= c < |v.fat| && forall i :: 0 <= i < |cs| ==> 2 <= cs[i] < |v.fat|
    ensures Off(v.cb, c) + v.cb == Off(v.cb, c + 1) <= |v.data|
    ensures Gather(v, [c] + cs) == v.data[Off(v.cb, c)..Off(v.cb, c + 1)] + Gather(v, cs)
  {
    hide Off;
    RunInside(v, c, 1);
    assert ([c] + cs)[1..] == cs;
  }

  /** Reading back what _alloc_chain linked and _write_cluster_data wrote. */
  lemma ReadRun(v: Volume, c: nat, n: nat, b: seq<Byte>, seen: set<nat>)
    requires VolumeOk(v) && |v.fat| <= FIRST_END && 2 <= c && n >= 1 && |b| == n * v.cb
    requires HasAt(v.fat, c, Chain(c, n)) && HasAt(v.data, Off(v.cb, c), b) && seen !! Run(c, c + n)
    ensures ReadChain(v, c, seen) == Some(Found(b, seen + Run(c, c + n)))
  {
    hide Off, Gather;
    FollowChain(v, c, n, 0, |v.fat|);
    GatherRun(v, c, n);
    SetOfUpto(c, n);
  }

  lemma SetOfUpto(c: nat, n: nat)
    ensures SetOf(Upto(c, n)) == Run(c, c + n)
  {
    forall x | x in Run(c, c + n) ensures x in Upto(c, n) {
      assert Upto(c, n)[x - c] == x;
    }
  }

  lemma RunJoin(a: nat, b: nat, c: nat, seen: set<nat>)
    requires a <= b <= c
    ensures Run(a, c) == Run(a, b) + Run(b, c) && Run(a, b) !! Run(b, c)
    ensures seen + Run(a, b) + Run(b, c) == seen + Run(a, c)
    ensures seen + Run(b, c) + Run(a, b) == seen + Run(a, c)
  {}

  lemma RunFresh(a: nat, b: nat, c: nat, seen: set<nat>)
    requires a <= b <= c && seen !! Run(a, c)
    ensures seen !! Run(a, b) && seen !! Run(b, c) && seen + Run(a, b) !! Run(b, c) && seen + Run(b, c) !! Run(a, b)
  {}

  // -------------------------------------------------------------------- reading back --

  /** The dot entries and the children's slots of a directory's clusters. */
  lemma DirFields(cb: nat, self: nat, parent: nat, es: seq<Record>, n: nat, dt: Stamp)
    requires RecordsOk(es) && self < 0x10000 && parent < 0x10000 && (2 + |es|) * SLOT <= n * cb
    ensures var b := Fill(cb, DirBytes(self, parent, es, dt), n);
      DotsOk(b, self, parent, dt) && b[2 * SLOT..] == RecordsBytes(es, dt) + Zeros(n * cb - (2 + |es|) * SLOT)
  {
    hide Slot, RecordsBytes, Field;
    var b := Fill(cb, DirBytes(self, parent, es, dt), n);
    var x, y := Slot(DOT_NAME, ATTR_DIR, self, 0, dt), Slot(DOTDOT_NAME, ATTR_DIR, parent, 0, dt);
    assert b[..SLOT] == x && b[SLOT..2 * SLOT] == y;
    SlotFields(DOT_NAME, ATTR_DIR, self, 0, dt);
    SlotFields(DOTDOT_NAME, ATTR_DIR, parent, 0, dt);
    SlotDated(b, 0, DOT_NAME, ATTR_DIR, self, 0, dt);
    SlotDated(b, SLOT, DOTDOT_NAME, ATTR_DIR, parent, 0, dt);
    InSlot(b, 0, x);
    InSlot(b, SLOT, y);
    DotNames();
  }

  lemma SlotDated(b: seq<Byte>, at: nat, short: seq<Byte>, attr: Byte, cluster: nat, size: nat, dt: Stamp)
    requires |short| == 11 && at + 32 <= |b| && b[at..at + 32] == Slot(short, attr, cluster, size, dt)
    ensures Dated(b, at, dt)
  {
    hide FromLe, Slot;
    var r := Slot(short, attr, cluster, size, dt);
    SlotStamps(short, attr, cluster, size, dt);
    assert forall i :: 0 <= i < 32 ==> r[i] == b[at + i];
    assert b[at + 14..at + 16] == r[14..16] && b[at + 16..at + 18] == r[16..18] && b[at + 18..at + 20] == r[18..20];
    assert b[at + 20..at + 22] == r[20..22] && b[at + 22..at + 24] == r[22..24] && b[at + 24..at + 26] == r[24..26];
  }

  /** Fields of a slot inside a larger buffer. */
  lemma InSlot(b: seq<Byte>, at: nat, slot: seq<Byte>)
    requires |slot| == SLOT && at + SLOT <= |b| && b[at..at + SLOT] == slot
    ensures b[at..at + 11] == slot[..11] && b[at] == slot[0] && b[at + 11] == slot[11]
    ensures Field(b, at + 26, 2) == Field(slot, 26, 2) && Field(b, at + 28, 4) == Field(slot, 28, 4)
  {
    assert b[at + 26..at + 28] == slot[26..28];
    assert b[at + 28..at + 32] == slot[28..32];
  }

  ghost predicate Stored(v: Volume) {
    VolumeOk(v) && v.cb >= 512 && |v.fat| < 0xFFF7 && |v.data| < 0x1_0000_0000
  }

  lemma ReadFileBack(v: Volume, b: seq<Byte>, s: nat, seen: set<nat>, self: nat, parent: nat, dt: Stamp, depth: nat)
    requires Stored(v) && 2 <= s && HasAt(v.fat, s, NodeLinks(v.cb, File(b), s))
    requires HasAt(v.data, Off(v.cb, s), NodeBytes(v.cb, File(b), s, parent, dt))
    requires seen !! Run(s, s + NodeSpan(v.cb, File(b)))
    ensures ReadNode(v, dt, ATTR_FILE, First(v.cb, File(b), s), |b|, self, seen, depth)
      == Some(Found(File(b), seen + Run(s, s + NodeSpan(v.cb, File(b)))))
  {
    hide Off, HasAt, Clusters, ReadChain;
    if b == [] {
      assert seen + Run(s, s) == seen;
    } else {
      var n := Clusters(v.cb, |b|);
      ReadRun(v, s, n, Fill(v.cb, b, n), seen);
      assert Fill(v.cb, b, n)[..|b|] == b;
    }
  }

  /** A subtree laid out at cluster s reads back, using exactly the clusters it was given. */
  lemma {:induction false} ReadNodeBack(v: Volume, node: Node, s: nat, seen: set<nat>, parent: nat, dt: Stamp,
      depth: nat)
    requires Stored(v) && 2 <= s && NodeOk(node) && NulFreeNode(node) && parent < 0x10000
    requires HasAt(v.fat, s, NodeLinks(v.cb, node, s))
    requires HasAt(v.data, Off(v.cb, s), NodeBytes(v.cb, node, s, parent, dt))
    requires seen !! Run(s, s + NodeSpan(v.cb, node)) && NodeSpan(v.cb, node) <= depth
    ensures ReadNode(v, dt, if node.Dir? then ATTR_DIR else ATTR_FILE, First(v.cb, node, s),
                     if node.Dir? then 0 else |node.bytes|, parent, seen, depth)
      == Some(Found(ShortNode(node), seen + Run(s, s + NodeSpan(v.cb, node))))
    decreases node, 1
  {
    hide Off, HasAt, Clusters, ReadChain, NulFree, TreeOk, Region, Records, ShortTree, ReadSlots, Links, Span,
        Run, Fill, DirBytes, DotsOk, RecordsOk;
    match node
    case File(b) => ReadFileBack(v, b, s, seen, parent, parent, dt, depth);
    case Dir(ch) =>
      var cb := v.cb;
      var self, n := s + Span(cb, ch), Clusters(cb, (2 + |ch|) * SLOT);
      TreeRecordsOk(cb, ch, s);
      var es := Records(cb, ch, s);
      var own := Fill(cb, DirBytes(self, parent, es, dt), n);
      HasAtConcat(v.fat, s, Links(cb, ch, s), Chain(self, n));
      OffAdd(cb, s, Span(cb, ch));
      HasAtConcat(v.data, Off(cb, s), Region(cb, ch, s, self, dt), own);
      HasAtEnd(v.fat, self, Chain(self, n));
      RunFresh(s, self, self + n, seen);
      ReadRun(v, self, n, own, seen);
      DirFields(cb, self, parent, es, n, dt);
      RunJoin(s, self, self + n, seen);
      ReadTreeBack(v, ch, s, seen + Run(self, self + n), self, dt, depth - 1, n * cb - (2 + |es|) * SLOT);
  }

  /** The same for the children of one directory, whose slots are followed by k zero bytes. */
  lemma {:induction false} ReadTreeBack(v: Volume, ch: seq<Child>, s: nat, seen: set<nat>, parent: nat, dt: Stamp,
      depth: nat, k: nat)
    requires Stored(v) && 2 <= s && TreeOk(ch) && NulFree(ch) && parent < 0x10000
    requires HasAt(v.fat, s, Links(v.cb, ch, s)) && HasAt(v.data, Off(v.cb, s), Region(v.cb, ch, s, parent, dt))
    requires seen !! Run(s, s + Span(v.cb, ch)) && Span(v.cb, ch) <= depth
    ensures RecordsOk(Records(v.cb, ch, s))
    ensures ReadSlots(v, dt, RecordsBytes(Records(v.cb, ch, s), dt) + Zeros(k), parent, seen, depth)
      == Some(Found(ShortTree(ch), seen + Run(s, s + Span(v.cb, ch))))
    decreases ch, 0
  {
    hide Off, HasAt, NulFree, TreeOk, Region, Records, Links, Span, Run, ReadSlots, ReadNode, NodeSpan,
        NodeBytes, NodeLinks, RecordOf, NodeOk, NulFreeNode, ShortTree, ShortNode, RecordsBytes, RecordBytes,
        NameOk, ShortName;
    var cb := v.cb;
    TreeRecordsOk(cb, ch, s);
    if ch == [] {
      ReadNothing(v, s, seen, parent, dt, depth, k);
    } else {
      ConsChild(cb, ch, s, parent, dt);
      ConsLinks(cb, ch, s);
      ConsNames(ch);
      var node, n0 := ch[0].node, NodeSpan(cb, ch[0].node);
      var s' := s + n0;
      HasAtConcat(v.fat, s, NodeLinks(cb, node, s), Links(cb, ch[1..], s'));
      OffAdd(cb, s, n0);
      HasAtConcat(v.data, Off(cb, s), NodeBytes(cb, node, s, parent, dt), Region(cb, ch[1..], s', parent, dt));
      RunFresh(s, s', s + Span(cb, ch), seen);
      RunJoin(s, s', s + Span(cb, ch), seen);
      ReadNodeBack(v, node, s, seen, parent, dt, depth);
      ReadTreeBack(v, ch[1..], s', seen + Run(s, s'), parent, dt, depth, k);
      RecordFits(v, ch[0], s, parent, dt);
      var e, es := RecordOf(cb, ch[0], s), Records(cb, ch[1..], s');
      assert ([e] + es)[1..] == es;
      ConsRecords(e, es, dt, k);
      SlotThenRest(v, e, RecordsBytes(es, dt) + Zeros(k), parent, seen, depth, dt,
                   Found(ShortNode(node), seen + Run(s, s')),
                   Found(ShortTree(ch[1..]), seen + Run(s, s + Span(cb, ch))));
    }
  }

  lemma ConsRecords(e: Record, es: seq<Record>, dt: Stamp, k: nat)
    requires RecordsOk([e] + es) && RecordsOk(es) && ShortName(e.name).Some?
    ensures RecordsBytes([e] + es, dt) + Zeros(k) == RecordBytes(e, dt) + (RecordsBytes(es, dt) + Zeros(k))
  {
    hide RecordBytes, ShortName;
    assert ([e] + es)[1..] == es;
  }

  /** What a record says fits its fields. */
  lemma RecordFits(v: Volume, c: Child, s: nat, parent: nat, dt: Stamp)
    requires Stored(v) && 2 <= s && NodeOk(c.node)
    requires HasAt(v.fat, s, NodeLinks(v.cb, c.node, s))
    requires HasAt(v.data, Off(v.cb, s), NodeBytes(v.cb, c.node, s, parent, dt))
    ensures var e := RecordOf(v.cb, c, s);
      && e.cluster < 0x10000 && e.size < 0x1_0000_0000 && e.name == c.name
      && e.attr == (if c.node.Dir? then ATTR_DIR else ATTR_FILE) && e.cluster == First(v.cb, c.node, s)
      && e.size == if c.node.Dir? then 0 else |c.node.bytes|
  {
    hide Off, Clusters, TreeOk, Region, Records, Links, Span, DirBytes;
    if c.node.File? && c.node.bytes != [] {
      assert |c.node.bytes| <= |NodeBytes(v.cb, c.node, s, parent, dt)|;
    }
  }

  /** One slot and the ones behind it. */
  lemma SlotThenRest(v: Volume, e: Record, tail: seq<Byte>, self: nat, seen: set<nat>, depth: nat, dt: Stamp,
      node: Found<Node>, kids: Found<seq<Child>>)
    requires VolumeOk(v) && NameOk(e.name) && ShortName(e.name).value[0] != 0 && e.cluster < 0x10000
    requires e.size < 0x1_0000_0000
    requires ReadNode(v, dt, e.attr, e.cluster, e.size, self, seen, depth) == Some(node)
    requires ReadSlots(v, dt, tail, self, node.seen, depth) == Some(kids)
    ensures ReadSlots(v, dt, RecordBytes(e, dt) + tail, self, seen, depth)
      == Some(Found([Child(ShortName(e.name).value, node.what)] + kids.what, kids.seen))
  {
    hide ReadNode, Field, Slot, ShortName, Dated;
    var b := RecordBytes(e, dt) + tail;
    assert b[0..0 + SLOT] == RecordBytes(e, dt) && b[SLOT..] == tail;
    SlotFields(ShortName(e.name).value, e.attr, e.cluster, e.size, dt);
    InSlot(b, 0, RecordBytes(e, dt));
    SlotDated(b, 0, ShortName(e.name).value, e.attr, e.cluster, e.size, dt);
    assert b[..11] == b[0..0 + 11];
  }

  lemma ReadNothing(v: Volume, s: nat, seen: set<nat>, parent: nat, dt: Stamp, depth: nat, k: nat)
    requires VolumeOk(v)
    ensures RecordsOk(Records(v.cb, [], s))
    ensures ReadSlots(v, dt, RecordsBytes(Records(v.cb, [], s), dt) + Zeros(k), parent, seen, depth)
      == Some(Found(ShortTree([]), seen + Run(s, s + Span(v.cb, []))))
  {
    assert seen + Run(s, s) == seen;
    assert RecordsBytes(Records(v.cb, [], s), dt) + Zeros(k) == Zeros(k);
  }

  lemma ConsNames(ch: seq<Child>)
    requires ch != [] && TreeOk(ch) && NulFree(ch)
    ensures NulFree(ch[1..]) && NulFreeNode(ch[0].node) && NameOk(ch[0].name) && ShortName(ch[0].name).value[0] != 0
    ensures NodeOk(ch[0].node) && TreeOk(ch[1..])
    ensures ShortTree(ch) == [Child(ShortName(ch[0].name).value, ShortNode(ch[0].node))] + ShortTree(ch[1..])
  {
    hide ShortName, ShortNode;
    VisibleName(ch[0].name);
  }
}
