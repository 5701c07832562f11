/** tools/mkesp.py class Fat16Image with write_directory_entries and make_subdir, as they run:
    fields updated in place, clusters handed out in order. */
module FatImage {
  import opened Bits
  import opened Outcomes
  import opened Bytes
  import opened Buffers
  import opened FatTree
  import opened FatWriter

  ghost predicate AllZero(s: seq<Byte>, lo: nat) {
    forall i :: lo <= i < |s| ==> s[i] == 0
  }

  /** Writing b into fresh space leaves b followed by zeros. */
  lemma FreshZeros(s: seq<Byte>, off: nat, b: seq<Byte>, m: nat)
    requires AllZero(s, off) && off + m <= |s| && |b| <= m
    ensures HasAt(Overlay(s, off, b), off, b + Zeros(m - |b|)) && AllZero(Overlay(s, off, b), off + m)
  {
    var t := Overlay(s, off, b);
    assert t[off..off + m] == t[off..off + |b|] + t[off + |b|..off + m];
    assert t[off + |b|..off + m] == Zeros(m - |b|);
  }

  lemma FreshFill(s: seq<Byte>, off: nat, b: seq<Byte>, cb: nat, n: nat)
    requires AllZero(s, off) && off + n * cb <= |s| && |b| <= n * cb
    ensures HasAt(Overlay(s, off, b), off, Fill(cb, b, n)) && AllZero(Overlay(s, off, b), off + n * cb)
  {
    hide HasAt, AllZero, Overlay;
    FreshZeros(s, off, b, n * cb);
  }

  class Fat16 {
    const cb: nat
    const cc: nat
    const rootEntries: nat
    var fat: seq<nat>
    var data: seq<Byte>
    var rootDir: seq<Byte>
    var nextFree: nat
    var rootUsed: nat

    ghost predicate Valid()
      reads this
    {
      && cb >= 512 && cc + 2 < 0x10000 && cc * cb < 0x1_0000_0000
      && |fat| == cc + 2 && |data| == cc * cb && |rootDir| == rootEntries * SLOT
      && 2 <= nextFree <= cc + 2 && AllZero(data, Off(cb, nextFree))
    }

    constructor (clusterBytes: nat, clusterCount: nat, entries: nat)
      requires clusterBytes >= 512 && clusterCount + 2 < 0x10000 && clusterCount * clusterBytes < 0x1_0000_0000
      ensures Valid() && cb == clusterBytes && cc == clusterCount && rootEntries == entries
      ensures nextFree == 2 && rootUsed == 0 && fat == [0xFFF8, END] + seq(clusterCount, _ => 0)
      ensures data == Zeros(clusterCount * clusterBytes) && rootDir == Zeros(entries * SLOT)
    {
      cb, cc, rootEntries := clusterBytes, clusterCount, entries;
      nextFree, rootUsed := 2, 0;
      fat := [0xFFF8, END] + seq(clusterCount, _ => 0);
      data := Zeros(clusterCount * clusterBytes);
      rootDir := Zeros(entries * SLOT);
    }

    /** How much room the data area has from cluster c on. */
    lemma RoomFrom(c: nat, n: nat)
      requires Valid() && 2 <= c && c + n <= cc + 2
      ensures Off(cb, c) + n * cb == Off(cb, c + n) <= |data|
    {
      OffAdd(cb, c, n);
      OffMono(cb, c + n, cc + 2);
    }

    /** _alloc_chain: n consecutive clusters linked to each other, the last marked as the end;
        refused exactly when they do not fit. */
    method AllocChain(nbytes: nat) returns (r: Outcome<nat>)
      requires Valid()
      modifies this`fat, this`nextFree
      ensures Valid()
      ensures var n := Clusters(cb, nbytes);
        && (r.Return? <==> old(nextFree) + n <= cc + 2)
        && (r.Return? ==> r.value == old(nextFree) && nextFree == old(nextFree) + n)
        && (r.Return? ==> fat == Overlay(old(fat), old(nextFree), Chain(old(nextFree), n)))
        && (r.Raise? ==> fat == old(fat) && nextFree == old(nextFree))
    {
      hide Off, AllZero;
      var n := Clusters(cb, nbytes);
      var first := nextFree;
      if first + n - 1 - 2 >= cc {
        return Raise;
      }
      ghost var before := fat;
      for i := 0 to n
        invariant |fat| == cc + 2 && nextFree == first
        invariant HasAt(fat, first, Chain(first, n)[..i]) && SameOutside(before, fat, first, first + i)
      {
        var link := if i < n - 1 then nextFree + i + 1 else END;
        ghost var was := fat;
        fat := fat[nextFree + i := link];
        assert Chain(first, n)[..i + 1] == Chain(first, n)[..i] + [link];
        HasAtKept(was, fat, first, Chain(first, n)[..i], first + i, first + i + 1);
        HasAtConcat(fat, first, Chain(first, n)[..i], [link]);
      }
      assert Chain(first, n)[..n] == Chain(first, n);
      OverlayIs(before, fat, first, Chain(first, n));
      RoomFrom(first, n);
      LaterZero(data, Off(cb, first), Off(cb, first + n));
      nextFree := nextFree + n;
      r := Return(first);
    }

    /** _write_cluster_data */
    method WriteClusterData(first: nat, blob: seq<Byte>)
      requires first >= 2 && Off(cb, first) + |blob| <= |data|
      modifies this`data
      ensures data == Overlay(old(data), Off(cb, first), blob)
    {
      data := Overlay(data, Off(cb, first), blob);
    }

    /** A file's clusters: none for an empty file, otherwise one chain holding the bytes and zeros. */
    method PutFile(bytes: seq<Byte>) returns (r: Outcome<nat>)
      requires Valid()
      modifies this`fat, this`nextFree, this`data
      ensures Valid()
      ensures r.Return? <==> old(nextFree) + NodeSpan(cb, File(bytes)) <= cc + 2
      ensures r.Return? ==> Grown(old(nextFree), old(fat), old(data), NodeLinks(cb, File(bytes), old(nextFree)))
      ensures r.Return? ==> r.value == First(cb, File(bytes), old(nextFree))
      ensures r.Return? ==>
        forall dt, p :: HasAt(data, Off(cb, old(nextFree)), NodeBytes(cb, File(bytes), old(nextFree), p, dt))
    {
      hide Off, AllZero, HasAt, Overlay, Clusters, Fill;
      ghost var s, fat0, data0 := nextFree, fat, data;
      if bytes == [] {
        SameSelf(fat, s, s);
        SameSelf(data, Off(cb, s), Off(cb, s));
        EmptyAt(fat, s);
        RoomFrom(s, 0);
        EmptyAt(data, Off(cb, s));
        return Return(0);
      }
      r := AllocChain(|bytes|);
      if r.Raise? {
        return;
      }
      ghost var n := Clusters(cb, |bytes|);
      RoomFrom(s, n);
      WriteClusterData(r.value, bytes);
      FreshFill(data0, Off(cb, s), bytes, cb, n);
      SameOutsideWider(data0, data, Off(cb, s), Off(cb, s) + |bytes|, Off(cb, s), Off(cb, s + n));
    }

    /** What writing a subtree at cluster s does to the allocator, the FAT and the data area. */
    ghost predicate Grown(s: nat, fat0: seq<nat>, data0: seq<Byte>, links: seq<nat>)
      requires s >= 2
      reads this
    {
      && nextFree == s + |links|
      && HasAt(fat, s, links) && SameOutside(fat0, fat, s, s + |links|)
      && SameOutside(data0, data, Off(cb, s), Off(cb, s + |links|))
    }
  }

  lemma OverlayIs<T>(a: seq<T>, b: seq<T>, off: nat, part: seq<T>)
    requires HasAt(b, off, part) && SameOutside(a, b, off, off + |part|)
    ensures off + |part| <= |a| && b == Overlay(a, off, part)
  {
    assert b == b[..off] + b[off..off + |part|] + b[off + |part|..];
  }

  lemma LaterZero(s: seq<Byte>, lo: nat, hi: nat)
    requires AllZero(s, lo) && lo <= hi
    ensures AllZero(s, hi)
  {}

  lemma ZeroKept(a: seq<Byte>, b: seq<Byte>, lo: nat, hi: nat)
    requires SameOutside(a, b, lo, hi) && AllZero(a, hi)
    ensures AllZero(b, hi)
  {}

  lemma EmptyAt<T>(s: seq<T>, off: nat)
    requires off <= |s|
    ensures HasAt(s, off, [])
  {}

  // ----------------------------------------------------------------- directories --

  lemma {:induction false} RecordsBytesSnoc(es: seq<Record>, e: Record, dt: Stamp)
    requires RecordsOk(es) && ShortName(e.name).Some?
    ensures RecordsOk(es + [e]) && RecordsBytes(es + [e], dt) == RecordsBytes(es, dt) + RecordBytes(e, dt)
  {
    hide RecordBytes, ShortName;
    if es == [] {
      assert [e][1..] == [] && es + [e] == [e];
    } else {
      assert (es + [e])[1..] == es[1..] + [e] && (es + [e])[0] == es[0];
      RecordsBytesSnoc(es[1..], e, dt);
    }
  }

  /** The payload loop of make_subdir: two empty slots, then one record per child. */
  method ChildSlots(es: seq<Record>, dt: Stamp) returns (payload: seq<Byte>)
    requires RecordsOk(es)
    ensures |payload| == (2 + |es|) * SLOT && HasAt(payload, 2 * SLOT, RecordsBytes(es, dt))
  {
    hide RecordBytes, ShortName, Overlay, HasAt;
    payload := Zeros((2 + |es|) * SLOT);
    EmptyAt(payload, 2 * SLOT);
    for i := 0 to |es|
      invariant |payload| == (2 + |es|) * SLOT
      invariant RecordsOk(es[..i]) && HasAt(payload, 2 * SLOT, RecordsBytes(es[..i], dt))
    {
      ghost var was := payload;
      ghost var at := 2 * SLOT + i * SLOT;
      payload := Overlay(payload, (2 + i) * SLOT, RecordBytes(es[i], dt));
      assert es[..i + 1] == es[..i] + [es[i]];
      RecordsBytesSnoc(es[..i], es[i], dt);
      HasAtKept(was, payload, 2 * SLOT, RecordsBytes(es[..i], dt), at, at + SLOT);
      HasAtConcat(payload, 2 * SLOT, RecordsBytes(es[..i], dt), RecordBytes(es[i], dt));
    }
    assert es[..|es|] == es;
  }

  /** Filling the two dot slots completes the directory's bytes. */
  lemma DotSlots(payload: seq<Byte>, es: seq<Record>, self: nat, dt: Stamp)
    requires RecordsOk(es) && |payload| == (2 + |es|) * SLOT && HasAt(payload, 2 * SLOT, RecordsBytes(es, dt))
    ensures var a := Slot(DOT_NAME, ATTR_DIR, self, 0, dt);
      var b := Slot(DOTDOT_NAME, ATTR_DIR, 0, 0, dt);
      Overlay(Overlay(payload, 0, a), SLOT, b) == DirBytes(self, 0, es, dt)
  {
    hide RecordsBytes, Slot;
    var a, b := Slot(DOT_NAME, ATTR_DIR, self, 0, dt), Slot(DOTDOT_NAME, ATTR_DIR, 0, 0, dt);
    var p := Overlay(Overlay(payload, 0, a), SLOT, b);
    assert p == p[..SLOT] + p[SLOT..2 * SLOT] + p[2 * SLOT..];
    assert p[2 * SLOT..] == payload[2 * SLOT..] == RecordsBytes(es, dt);
  }

  lemma {:induction false} RecordPatchable(cb: nat, ch: seq<Child>, s: nat, i: nat)
    requires cb >= 64 && s >= 2 && i < |ch| && Records(cb, ch, s)[i].attr == ATTR_DIR
    ensures var e := Records(cb, ch, s)[i];
      s <= e.cluster < s + Span(cb, ch) && Off(cb, e.cluster) + DOTDOT_CLUSTER + 2 <= Off(cb, s + Span(cb, ch))
  {
    var s' := s + NodeSpan(cb, ch[0].node);
    if i == 0 {
      var e := Records(cb, ch, s)[0];
      OffAdd(cb, e.cluster, 1);
      OffMono(cb, e.cluster + 1, s + Span(cb, ch));
    } else {
      RecordPatchable(cb, ch[1..], s', i - 1);
    }
  }

  /** make_subdir: called with the children's records once their clusters are written; the result is
      the directory's own clusters behind them and every child's ".." pointing here. */
  method MakeSubdir(img: Fat16, es: seq<Record>, dt: Stamp, ghost ch: seq<Child>, ghost s: nat)
      returns (r: Outcome<nat>)
    requires img.Valid() && TreeOk(ch) && s >= 2 && es == Records(img.cb, ch, s) && img.nextFree == s + Span(img.cb, ch)
    requires HasAt(img.data, Off(img.cb, s), Region(img.cb, ch, s, 0, dt))
    modifies img`fat, img`nextFree, img`data
    ensures img.Valid()
    ensures r.Return? <==> s + NodeSpan(img.cb, Dir(ch)) <= img.cc + 2
    ensures r.Return? ==> r.value == s + Span(img.cb, ch) && img.nextFree == s + NodeSpan(img.cb, Dir(ch))
    ensures r.Return? ==> img.fat == Overlay(old(img.fat), r.value, Chain(r.value, Clusters(img.cb, (2 + |ch|) * SLOT)))
    ensures r.Return? ==> HasAt(img.data, Off(img.cb, s), NodeBytes(img.cb, Dir(ch), s, 0, dt))
    ensures r.Return? ==> SameOutside(old(img.data), img.data, Off(img.cb, s), Off(img.cb, img.nextFree))
  {
    hide Off, AllZero, HasAt, SameOutside, Overlay, Clusters, Fill, DirBytes, Region, Records, Slot, Span,
        PatchAll, TreeOk, NodeBytes, RecordsOk, RecordsBytes;
    TreeRecordsOk(img.cb, ch, s);
    var payload := ChildSlots(es, dt);
    ghost var data0 := img.data;
    r := img.AllocChain(|payload|);
    if r.Raise? {
      return;
    }
    var first := r.value;
    ghost var n := Clusters(img.cb, (2 + |ch|) * SLOT);
    DotSlots(payload, es, first, dt);
    payload := Overlay(payload, 0, Slot(DOT_NAME, ATTR_DIR, first, 0, dt));
    payload := Overlay(payload, SLOT, Slot(DOTDOT_NAME, ATTR_DIR, 0, 0, dt));
    img.RoomFrom(first, n);
    img.WriteClusterData(first, payload);
    ghost var data1 := img.data;
    FreshFill(data0, Off(img.cb, first), payload, img.cb, n);
    ghost var end := Off(img.cb, first + n);
    SameOutsideWider(data0, data1, Off(img.cb, first), Off(img.cb, first) + |payload|, Off(img.cb, first), end);
    PatchLoop(img, es, first, ch, s);
    SubdirPatched(img.cb, ch, s, first, n, dt, data0, data1, img.data);
    LaterZero(data0, Off(img.cb, first), end);
    ZeroKept(data0, img.data, Off(img.cb, s), end);
  }

  /** The patch loop of make_subdir. */
  method PatchLoop(img: Fat16, es: seq<Record>, first: nat, ghost ch: seq<Child>, ghost s: nat)
    requires img.Valid() && s >= 2 && es == Records(img.cb, ch, s) && s + Span(img.cb, ch) <= img.cc + 2
    modifies img`data
    ensures img.data == PatchAll(img.cb, old(img.data), es, first)
  {
    hide Off, AllZero, HasAt, SameOutside, Overlay, Records, Span, ToLe;
    ghost var goal := PatchAll(img.cb, img.data, es, first);
    assert es[0..] == es;
    for i := 0 to |es|
      invariant |img.data| == |old(img.data)| && PatchAll(img.cb, img.data, es[i..], first) == goal
    {
      assert es[i..][1..] == es[i + 1..];
      if es[i].attr == ATTR_DIR {
        RecordPatchable(img.cb, ch, s, i);
        OffMono(img.cb, s + Span(img.cb, ch), img.cc + 2);
        OffAdd(img.cb, 2, img.cc);
        OffZero(img.cb);
        img.data := Overlay(img.data, Off(img.cb, es[i].cluster) + DOTDOT_CLUSTER, ToLe(first, 2));
      }
    }
  }

  /** Putting the pieces of a finished subdirectory together. */
  lemma SubdirPatched(cb: nat, ch: seq<Child>, s: nat, self: nat, n: nat, dt: Stamp, data0: seq<Byte>,
      data1: seq<Byte>, data2: seq<Byte>)
    requires cb >= 512 && TreeOk(ch) && s >= 2 && self == s + Span(cb, ch) && n == Clusters(cb, (2 + |ch|) * SLOT)
    requires RecordsOk(Records(cb, ch, s)) && HasAt(data0, Off(cb, s), Region(cb, ch, s, 0, dt))
    requires SameOutside(data0, data1, Off(cb, self), Off(cb, self + n))
    requires HasAt(data1, Off(cb, self), Fill(cb, DirBytes(self, 0, Records(cb, ch, s), dt), n))
    requires data2 == PatchAll(cb, data1, Records(cb, ch, s), self)
    ensures HasAt(data2, Off(cb, s), NodeBytes(cb, Dir(ch), s, 0, dt))
    ensures SameOutside(data0, data2, Off(cb, s), Off(cb, self + n))
  {
    hide Off, HasAt, SameOutside, Fill, DirBytes, Region, Records, PatchAll;
    OffAdd(cb, s, Span(cb, ch));
    OffAdd(cb, self, n);
    HasAtKept(data0, data1, Off(cb, s), Region(cb, ch, s, 0, dt), Off(cb, self), Off(cb, self + n));
    PatchRegion(cb, ch, s, self, dt, data1);
    var own := Fill(cb, DirBytes(self, 0, Records(cb, ch, s), dt), n);
    HasAtKept(data1, data2, Off(cb, self), own, Off(cb, s), Off(cb, self));
    HasAtConcat(data2, Off(cb, s), Region(cb, ch, s, self, dt), own);
    SameOutsideJoin(data0, data1, data2, Off(cb, s), Off(cb, self), Off(cb, self + n));
  }

  lemma SameOutsideJoin<T>(a: seq<T>, b: seq<T>, c: seq<T>, lo: nat, mid: nat, hi: nat)
    requires SameOutside(a, b, mid, hi) && SameOutside(b, c, lo, mid) && lo <= mid <= hi
    ensures SameOutside(a, c, lo, hi)
  {}

  // -------------------------------------------------------------- the recursive walk --

  lemma GrownBy<T>(s0: seq<T>, s1: seq<T>, s2: seq<T>, lo: nat, a: seq<T>, b: seq<T>)
    requires HasAt(s1, lo, a) && SameOutside(s0, s1, lo, lo + |a|)
    requires HasAt(s2, lo + |a|, b) && SameOutside(s1, s2, lo + |a|, lo + |a| + |b|)
    ensures HasAt(s2, lo, a + b) && SameOutside(s0, s2, lo, lo + |a + b|)
  {
    hide HasAt;
    HasAtKept(s1, s2, lo, a, lo + |a|, lo + |a| + |b|);
    HasAtConcat(s2, lo, a, b);
  }

  /** One child: a file's clusters, or everything below a subdirectory and then the subdirectory. */
  method WriteChild(img: Fat16, c: Child, dt: Stamp) returns (r: Outcome<Record>)
    requires img.Valid() && NodeOk(c.node)
    modifies img`fat, img`nextFree, img`data
    ensures img.Valid()
    ensures r.Return? <==> old(img.nextFree) + NodeSpan(img.cb, c.node) <= img.cc + 2
    ensures r.Return? ==> r.value == RecordOf(img.cb, c, old(img.nextFree))
    ensures r.Return? ==>
      img.Grown(old(img.nextFree), old(img.fat), old(img.data), NodeLinks(img.cb, c.node, old(img.nextFree)))
    ensures r.Return? ==>
      HasAt(img.data, Off(img.cb, old(img.nextFree)), NodeBytes(img.cb, c.node, old(img.nextFree), 0, dt))
    decreases c.node, 1
  {
    hide Off, AllZero, HasAt, SameOutside, Overlay, Clusters, Region, Records, TreeOk, NodeBytes, Links, Span;
    ghost var s, fat0, data0 := img.nextFree, img.fat, img.data;
    match c.node
    case File(b) =>
      var f := img.PutFile(b);
      r := if f.Return? then Return(Record(c.name, ATTR_FILE, f.value, |b|)) else Raise;
    case Dir(ch) =>
      var below := WriteDirectoryEntries(img, ch, dt);
      if below.Raise? {
        return Raise;
      }
      ghost var fat1, data1 := img.fat, img.data;
      var d := MakeSubdir(img, below.value, dt, ch, s);
      if d.Raise? {
        return Raise;
      }
      ghost var chain := Chain(d.value, Clusters(img.cb, (2 + |ch|) * SLOT));
      GrownBy(fat0, fat1, img.fat, s, Links(img.cb, ch, s), chain);
      OffMono(img.cb, s + Span(img.cb, ch), img.nextFree);
      SameOutsideWider(data0, data1, Off(img.cb, s), Off(img.cb, s + Span(img.cb, ch)),
                       Off(img.cb, s), Off(img.cb, img.nextFree));
      SameTwice(data0, data1, img.data, Off(img.cb, s), Off(img.cb, img.nextFree));
      r := Return(Record(c.name, ATTR_DIR, d.value, 0));
  }

  lemma SameTwice<T>(a: seq<T>, b: seq<T>, c: seq<T>, lo: nat, hi: nat)
    requires SameOutside(a, b, lo, hi) && SameOutside(b, c, lo, hi)
    ensures SameOutside(a, c, lo, hi)
  {}

  /** write_directory_entries: succeeds exactly when the whole tree fits behind the allocator, and
      then holds the tree's records, links and bytes and has touched nothing else. */
  method WriteDirectoryEntries(img: Fat16, ch: seq<Child>, dt: Stamp) returns (r: Outcome<seq<Record>>)
    requires img.Valid() && TreeOk(ch)
    modifies img`fat, img`nextFree, img`data
    ensures img.Valid()
    ensures r.Return? <==> old(img.nextFree) + Span(img.cb, ch) <= img.cc + 2
    ensures r.Return? ==> r.value == Records(img.cb, ch, old(img.nextFree))
    ensures r.Return? ==>
      img.Grown(old(img.nextFree), old(img.fat), old(img.data), Links(img.cb, ch, old(img.nextFree)))
    ensures r.Return? ==> HasAt(img.data, Off(img.cb, old(img.nextFree)), Region(img.cb, ch, old(img.nextFree), 0, dt))
    decreases ch, 0
  {
    hide Off, AllZero, HasAt, SameOutside, Overlay, Region, Records, TreeOk, NodeBytes, Links, Span,
        NodeLinks, NodeSpan, NodeOk, NameOk, RecordOf;
    ghost var s, fat0, data0 := img.nextFree, img.fat, img.data;
    var es: seq<Record> := [];
    EmptyTree(img, dt);
    assert ch[..0] == [];
    for i := 0 to |ch|
      invariant img.Valid() && TreeOk(ch[..i])
      invariant es == Records(img.cb, ch[..i], s)
      invariant img.Grown(s, fat0, data0, Links(img.cb, ch[..i], s))
      invariant HasAt(img.data, Off(img.cb, s), Region(img.cb, ch[..i], s, 0, dt))
    {
      ghost var fat1, data1 := img.fat, img.data;
      ghost var t := img.nextFree;
      SnocChild(img.cb, ch, i, s, 0, dt);
      SpanPrefix(img.cb, ch, i + 1);
      var e := WriteChild(img, ch[i], dt);
      if e.Raise? {
        return Raise;
      }
      es := es + [e.value];
      GrownBy(fat0, fat1, img.fat, s, Links(img.cb, ch[..i], s), NodeLinks(img.cb, ch[i].node, t));
      DataGrown(data0, data1, img.data, img.cb, ch[..i], ch[i].node, s, dt);
    }
    assert ch[..|ch|] == ch;
    r := Return(es);
  }

  /** A node written behind a region, with its clusters counted in bytes. */
  lemma DataGrown(data0: seq<Byte>, data1: seq<Byte>, data2: seq<Byte>, cb: nat, ch: seq<Child>, node: Node, s: nat,
      dt: Stamp)
    requires cb > 0 && s >= 2 && TreeOk(ch) && NodeOk(node)
    requires var t := s + Span(cb, ch);
      && HasAt(data1, Off(cb, s), Region(cb, ch, s, 0, dt)) && SameOutside(data0, data1, Off(cb, s), Off(cb, t))
      && HasAt(data2, Off(cb, t), NodeBytes(cb, node, t, 0, dt))
      && SameOutside(data1, data2, Off(cb, t), Off(cb, t + NodeSpan(cb, node)))
    ensures var t := s + Span(cb, ch);
      && HasAt(data2, Off(cb, s), Region(cb, ch, s, 0, dt) + NodeBytes(cb, node, t, 0, dt))
      && SameOutside(data0, data2, Off(cb, s), Off(cb, t + NodeSpan(cb, node)))
  {
    hide Off, HasAt, SameOutside, Region, TreeOk, NodeBytes, Span, NodeSpan, NodeOk;
    var t := s + Span(cb, ch);
    OffAdd(cb, s, Span(cb, ch));
    OffAdd(cb, t, NodeSpan(cb, node));
    GrownBy(data0, data1, data2, Off(cb, s), Region(cb, ch, s, 0, dt), NodeBytes(cb, node, t, 0, dt));
  }

  lemma EmptyTree(img: Fat16, dt: Stamp)
    requires img.Valid()
    ensures TreeOk([]) && Records(img.cb, [], img.nextFree) == []
    ensures img.Grown(img.nextFree, img.fat, img.data, Links(img.cb, [], img.nextFree))
    ensures HasAt(img.data, Off(img.cb, img.nextFree), Region(img.cb, [], img.nextFree, 0, dt))
  {
    hide Off;
    img.RoomFrom(img.nextFree, 0);
  }
}
