/** How the bytes, links and records of a directory tree (tools/mkesp.py) grow child by child, and what
    the late ".." patches of make_subdir turn them into. */
module FatWriter {
  import opened Bits
  import opened Bytes
  import opened Buffers
  import opened FatTree

  /** Byte offset of a cluster in the data area. */
  function Off(cb: nat, c: nat): (n: nat)
    requires c >= 2
  {
    (c - 2) * cb
  }

  lemma OffZero(cb: nat)
    ensures Off(cb, 2) == 0
  {}

  lemma OffAdd(cb: nat, c: nat, n: nat)
    requires c >= 2
    ensures Off(cb, c + n) == Off(cb, c) + n * cb
  {
    assert (c + n - 2) * cb == (c - 2) * cb + n * cb;
  }

  lemma OffMono(cb: nat, c: nat, d: nat)
    requires 2 <= c <= d
    ensures Off(cb, c) <= Off(cb, d)
  {
    OffAdd(cb, c, d - c);
  }

  // --------------------------------------------------------- lists put end to end --

  lemma {:induction false} SpanAppend(cb: nat, a: seq<Child>, b: seq<Child>)
    requires cb > 0
    ensures Span(cb, a + b) == Span(cb, a) + Span(cb, b)
  {
    hide NodeSpan;
    if a == [] { assert a + b == b; } else {
      assert (a + b)[1..] == a[1..] + b && (a + b)[0] == a[0];
      SpanAppend(cb, a[1..], b);
    }
  }

  lemma {:induction false} RecordsAppend(cb: nat, a: seq<Child>, b: seq<Child>, s: nat)
    requires cb > 0
    ensures Records(cb, a + b, s) == Records(cb, a, s) + Records(cb, b, s + Span(cb, a))
  {
    hide NodeSpan, RecordOf;
    if a == [] { assert a + b == b; } else {
      assert (a + b)[1..] == a[1..] + b && (a + b)[0] == a[0];
      RecordsAppend(cb, a[1..], b, s + NodeSpan(cb, a[0].node));
    }
  }

  lemma ConsLinks(cb: nat, ch: seq<Child>, s: nat)
    requires cb > 0 && ch != []
    ensures Links(cb, ch, s) == NodeLinks(cb, ch[0].node, s) + Links(cb, ch[1..], s + NodeSpan(cb, ch[0].node))
    ensures Span(cb, ch) == NodeSpan(cb, ch[0].node) + Span(cb, ch[1..])
  {
    hide NodeSpan, NodeLinks;
  }

  lemma NoLinks(cb: nat, s: nat)
    requires cb > 0
    ensures Links(cb, [], s) == [] && Span(cb, []) == 0
  {}

  lemma {:induction false} LinksAppend(cb: nat, a: seq<Child>, b: seq<Child>, s: nat)
    requires cb > 0
    ensures Links(cb, a + b, s) == Links(cb, a, s) + Links(cb, b, s + Span(cb, a))
  {
    hide NodeSpan, NodeLinks, Links, Span;
    if a == [] {
      assert a + b == b;
      NoLinks(cb, s);
      ConcatAssoc([], [], Links(cb, b, s));
    } else {
      assert (a + b)[1..] == a[1..] + b && (a + b)[0] == a[0];
      var s' := s + NodeSpan(cb, a[0].node);
      ConsLinks(cb, a + b, s);
      ConsLinks(cb, a, s);
      LinksAppend(cb, a[1..], b, s');
      ConcatAssoc(NodeLinks(cb, a[0].node, s), Links(cb, a[1..], s'), Links(cb, b, s' + Span(cb, a[1..])));
    }
  }

  lemma {:induction false} TreeAppend(a: seq<Child>, b: seq<Child>)
    ensures TreeOk(a + b) <==> TreeOk(a) && TreeOk(b)
  {
    hide NodeOk, NameOk;
    if a == [] { assert a + b == b; } else {
      assert (a + b)[1..] == a[1..] + b && (a + b)[0] == a[0];
      TreeAppend(a[1..], b);
    }
  }

  lemma EmptyRegion(cb: nat, s: nat, parent: nat, dt: Stamp)
    requires cb > 0
    ensures TreeOk([]) && Region(cb, [], s, parent, dt) == [] && Span(cb, []) == 0
  {}

  lemma {:induction false} RegionAppend(cb: nat, a: seq<Child>, b: seq<Child>, s: nat, parent: nat, dt: Stamp)
    requires cb > 0 && TreeOk(a + b)
    ensures TreeOk(a) && TreeOk(b)
    ensures Region(cb, a + b, s, parent, dt)
            == Region(cb, a, s, parent, dt) + Region(cb, b, s + Span(cb, a), parent, dt)
  {
    hide NodeSpan, NodeBytes, NodeOk, NameOk, Region, Span, TreeOk;
    TreeAppend(a, b);
    if a == [] {
      assert a + b == b;
      EmptyRegion(cb, s, parent, dt);
      ConcatAssoc([], [], Region(cb, b, s, parent, dt));
    } else {
      assert (a + b)[1..] == a[1..] + b && (a + b)[0] == a[0];
      var s' := s + NodeSpan(cb, a[0].node);
      ConsChild(cb, a + b, s, parent, dt);
      ConsChild(cb, a, s, parent, dt);
      RegionAppend(cb, a[1..], b, s', parent, dt);
      ConcatAssoc(NodeBytes(cb, a[0].node, s, parent, dt), Region(cb, a[1..], s', parent, dt),
                  Region(cb, b, s' + Span(cb, a[1..]), parent, dt));
    }
  }

  /** One more child at the end. */
  lemma SnocChild(cb: nat, ch: seq<Child>, i: nat, s: nat, parent: nat, dt: Stamp)
    requires cb > 0 && i < |ch| && TreeOk(ch)
    ensures TreeOk(ch[..i]) && TreeOk(ch[..i + 1]) && NodeOk(ch[i].node) && NameOk(ch[i].name)
    ensures Span(cb, ch[..i + 1]) == Span(cb, ch[..i]) + NodeSpan(cb, ch[i].node)
    ensures var t := s + Span(cb, ch[..i]);
      && Records(cb, ch[..i + 1], s) == Records(cb, ch[..i], s) + [RecordOf(cb, ch[i], t)]
      && Links(cb, ch[..i + 1], s) == Links(cb, ch[..i], s) + NodeLinks(cb, ch[i].node, t)
      && Region(cb, ch[..i + 1], s, parent, dt)
         == Region(cb, ch[..i], s, parent, dt) + NodeBytes(cb, ch[i].node, t, parent, dt)
  {
    hide NodeSpan, NodeBytes, NodeOk, NameOk, NodeLinks, RecordOf;
    var a, b := ch[..i], [ch[i]];
    assert ch[..i + 1] == a + b && ch == a + b + ch[i + 1..];
    TreeAppend(a + b, ch[i + 1..]);
    TreeAppend(a, b);
    assert b[1..] == [];
    SpanAppend(cb, a, b);
    RecordsAppend(cb, a, b, s);
    LinksAppend(cb, a, b, s);
    RegionAppend(cb, a, b, s, parent, dt);
    Singleton(cb, ch[i], s + Span(cb, a), parent, dt);
  }

  lemma Singleton(cb: nat, c: Child, s: nat, parent: nat, dt: Stamp)
    requires cb > 0 && TreeOk([c])
    ensures NodeOk(c.node) && NameOk(c.name)
    ensures Span(cb, [c]) == NodeSpan(cb, c.node) && Records(cb, [c], s) == [RecordOf(cb, c, s)]
    ensures Links(cb, [c], s) == NodeLinks(cb, c.node, s)
    ensures Region(cb, [c], s, parent, dt) == NodeBytes(cb, c.node, s, parent, dt)
  {
    hide NodeSpan, NodeBytes, NodeOk, NameOk, NodeLinks, RecordOf;
    assert [c][1..] == [];
    assert Region(cb, [], s + NodeSpan(cb, c.node), parent, dt) == [];
  }

  lemma SpanPrefix(cb: nat, ch: seq<Child>, i: nat)
    requires cb > 0 && i <= |ch|
    ensures Span(cb, ch[..i]) <= Span(cb, ch)
  {
    assert ch == ch[..i] + ch[i..];
    SpanAppend(cb, ch[..i], ch[i..]);
  }

  // ------------------------------------------------------------------ late patches --

  const DOTDOT_CLUSTER: nat := 58

  /** Writing a parent's cluster into a directory's ".." gives the bytes it would have had. */
  lemma PatchDirBytes(self: nat, es: seq<Record>, v: nat, dt: Stamp)
    requires RecordsOk(es)
    ensures Overlay(DirBytes(self, 0, es, dt), DOTDOT_CLUSTER, ToLe(v, 2)) == DirBytes(self, v, es, dt)
  {
    hide ToLe, RecordsBytes, Pad;
    var a, b := DirBytes(self, 0, es, dt), DirBytes(self, v, es, dt);
    var p := Overlay(a, DOTDOT_CLUSTER, ToLe(v, 2));
    assert b[DOTDOT_CLUSTER..DOTDOT_CLUSTER + 2] == ToLe(v, 2);
    assert a[..DOTDOT_CLUSTER] == b[..DOTDOT_CLUSTER];
    assert a[DOTDOT_CLUSTER + 2..] == b[DOTDOT_CLUSTER + 2..];
    assert p == a[..DOTDOT_CLUSTER] + ToLe(v, 2) + a[DOTDOT_CLUSTER + 2..];
    assert b == b[..DOTDOT_CLUSTER] + b[DOTDOT_CLUSTER..DOTDOT_CLUSTER + 2] + b[DOTDOT_CLUSTER + 2..];
  }

  lemma PatchFill(cb: nat, b: seq<Byte>, n: nat, at: nat, w: seq<Byte>)
    requires |b| <= n * cb && at + |w| <= |b|
    ensures Overlay(Fill(cb, b, n), at, w) == Fill(cb, Overlay(b, at, w), n)
  {
    var z := Zeros(n * cb - |b|);
    assert b + z == b[..at] + b[at..at + |w|] + b[at + |w|..] + z;
  }

  lemma OverlayPart<T>(s: seq<T>, off: nat, part: seq<T>, at: nat, w: seq<T>)
    requires HasAt(s, off, part) && at + |w| <= |part|
    ensures HasAt(Overlay(s, off + at, w), off, Overlay(part, at, w))
  {
    var t := Overlay(s, off + at, w);
    assert t[off..off + |part|] == s[off..off + at] + w + s[off + at + |w|..off + |part|];
    assert s[off..off + at] == part[..at] && s[off + at + |w|..off + |part|] == part[at + |w|..];
  }

  /** Does a record's ".." lie inside the data area? */
  predicate Patchable(cb: nat, data: seq<Byte>, e: Record) {
    e.cluster >= 2 && Off(cb, e.cluster) + DOTDOT_CLUSTER + 2 <= |data|
  }

  function PatchOne(cb: nat, data: seq<Byte>, e: Record, v: nat): (r: seq<Byte>)
    ensures |r| == |data|
  {
    if e.attr == ATTR_DIR && Patchable(cb, data, e) then Overlay(data, Off(cb, e.cluster) + DOTDOT_CLUSTER, ToLe(v, 2))
    else data
  }

  /** The patch loop of make_subdir. */
  function PatchAll(cb: nat, data: seq<Byte>, es: seq<Record>, v: nat): (r: seq<Byte>)
    ensures |r| == |data|
    decreases |es|
  {
    if es == [] then data else PatchAll(cb, PatchOne(cb, data, es[0], v), es[1..], v)
  }

  lemma PatchNode(cb: nat, c: Child, s: nat, v: nat, dt: Stamp, data: seq<Byte>)
    requires cb >= 64 && s >= 2 && NodeOk(c.node) && HasAt(data, Off(cb, s), NodeBytes(cb, c.node, s, 0, dt))
    ensures var out := PatchOne(cb, data, RecordOf(cb, c, s), v);
      && HasAt(out, Off(cb, s), NodeBytes(cb, c.node, s, v, dt))
      && SameOutside(data, out, Off(cb, s), Off(cb, s + NodeSpan(cb, c.node)))
    ensures c.node.Dir? ==> Patchable(cb, data, RecordOf(cb, c, s))
  {
    hide Off, Overlay, Fill, DirBytes, Region, Records, Clusters, ToLe, HasAt, NodeSpan, Span;
    OffAdd(cb, s, NodeSpan(cb, c.node));
    match c.node
    case File(b) =>
    case Dir(ch) =>
      PatchSubdir(cb, ch, s, v, dt, data);
  }

  lemma PatchSubdir(cb: nat, ch: seq<Child>, s: nat, v: nat, dt: Stamp, data: seq<Byte>)
    requires cb >= 64 && s >= 2 && TreeOk(ch) && HasAt(data, Off(cb, s), NodeBytes(cb, Dir(ch), s, 0, dt))
    ensures var self := s + Span(cb, ch);
      && Off(cb, self) + DOTDOT_CLUSTER + 2 <= |data|
      && var out := Overlay(data, Off(cb, self) + DOTDOT_CLUSTER, ToLe(v, 2));
      && HasAt(out, Off(cb, s), NodeBytes(cb, Dir(ch), s, v, dt))
      && SameOutside(data, out, Off(cb, s), Off(cb, s + NodeSpan(cb, Dir(ch))))
  {
    hide Off, Overlay, Fill, DirBytes, Region, Records, ToLe, SameOutside, HasAt;
    var self, n := s + Span(cb, ch), Clusters(cb, (2 + |ch|) * SLOT);
    TreeRecordsOk(cb, ch, s);
    var es, kids := Records(cb, ch, s), Region(cb, ch, s, self, dt);
    var was := Fill(cb, DirBytes(self, 0, es, dt), n);
    var now := Fill(cb, DirBytes(self, v, es, dt), n);
    OffAdd(cb, s, Span(cb, ch));
    OffAdd(cb, s, NodeSpan(cb, Dir(ch)));
    Distribute(Span(cb, ch), n, cb);
    HasAtConcat(data, Off(cb, s), kids, was);
    PatchOwn(cb, self, es, n, v, dt, data);
    var lo, hi := Off(cb, self) + DOTDOT_CLUSTER, Off(cb, self) + DOTDOT_CLUSTER + 2;
    var out := Overlay(data, lo, ToLe(v, 2));
    HasAtKept(data, out, Off(cb, s), kids, lo, hi);
    HasAtConcat(out, Off(cb, s), kids, now);
    SameOutsideWider(data, out, lo, hi, Off(cb, s), Off(cb, s + NodeSpan(cb, Dir(ch))));
  }

  lemma PatchOwn(cb: nat, self: nat, es: seq<Record>, n: nat, v: nat, dt: Stamp, data: seq<Byte>)
    requires self >= 2 && RecordsOk(es) && (2 + |es|) * SLOT <= n * cb
    requires HasAt(data, Off(cb, self), Fill(cb, DirBytes(self, 0, es, dt), n))
    ensures Off(cb, self) + DOTDOT_CLUSTER + 2 <= |data|
    ensures HasAt(Overlay(data, Off(cb, self) + DOTDOT_CLUSTER, ToLe(v, 2)), Off(cb, self),
                  Fill(cb, DirBytes(self, v, es, dt), n))
  {
    hide Off, Overlay, Fill, DirBytes, ToLe;
    OverlayPart(data, Off(cb, self), Fill(cb, DirBytes(self, 0, es, dt), n), DOTDOT_CLUSTER, ToLe(v, 2));
    PatchFill(cb, DirBytes(self, 0, es, dt), n, DOTDOT_CLUSTER, ToLe(v, 2));
    PatchDirBytes(self, es, v, dt);
  }

  lemma PatchNone(cb: nat, s: nat, v: nat, dt: Stamp, data: seq<Byte>)
    requires cb > 0 && s >= 2 && HasAt(data, Off(cb, s), Region(cb, [], s, 0, dt))
    ensures PatchAll(cb, data, Records(cb, [], s), v) == data
    ensures HasAt(data, Off(cb, s), Region(cb, [], s, v, dt)) && Span(cb, []) == 0
    ensures SameOutside(data, data, Off(cb, s), Off(cb, s))
  {
    hide Off;
  }

  /** The first child and the rest. */
  lemma ConsChild(cb: nat, ch: seq<Child>, s: nat, parent: nat, dt: Stamp)
    requires cb > 0 && ch != [] && TreeOk(ch)
    ensures TreeOk(ch[1..]) && NodeOk(ch[0].node) && NameOk(ch[0].name)
    ensures Span(cb, ch) == NodeSpan(cb, ch[0].node) + Span(cb, ch[1..])
    ensures var s' := s + NodeSpan(cb, ch[0].node);
      && Records(cb, ch, s) == [RecordOf(cb, ch[0], s)] + Records(cb, ch[1..], s')
      && Region(cb, ch, s, parent, dt) == NodeBytes(cb, ch[0].node, s, parent, dt) + Region(cb, ch[1..], s', parent, dt)
  {
    hide NodeSpan, NodeBytes, NodeOk, NameOk, RecordOf;
  }

  /** Patching every child directory turns the region written for parent 0 into the region for v. */
  lemma {:induction false} PatchRegion(cb: nat, ch: seq<Child>, s: nat, v: nat, dt: Stamp, data: seq<Byte>)
    requires cb >= 64 && s >= 2 && TreeOk(ch) && HasAt(data, Off(cb, s), Region(cb, ch, s, 0, dt))
    ensures var out := PatchAll(cb, data, Records(cb, ch, s), v);
      && HasAt(out, Off(cb, s), Region(cb, ch, s, v, dt))
      && SameOutside(data, out, Off(cb, s), Off(cb, s + Span(cb, ch)))
    decreases |ch|
  {
    hide Off, NodeBytes, NodeOk, NodeSpan, PatchOne, RecordOf, HasAt, SameOutside, NameOk, Region, Span,
        Records, TreeOk;
    if ch == [] {
      PatchNone(cb, s, v, dt, data);
    } else {
      ConsChild(cb, ch, s, 0, dt);
      ConsChild(cb, ch, s, v, dt);
      var n0 := NodeSpan(cb, ch[0].node);
      var s' := s + n0;
      OffAdd(cb, s, n0);
      OffAdd(cb, s', Span(cb, ch[1..]));
      HasAtConcat(data, Off(cb, s), NodeBytes(cb, ch[0].node, s, 0, dt), Region(cb, ch[1..], s', 0, dt));
      PatchNode(cb, ch[0], s, v, dt, data);
      var mid := PatchOne(cb, data, RecordOf(cb, ch[0], s), v);
      HasAtKept(data, mid, Off(cb, s'), Region(cb, ch[1..], s', 0, dt), Off(cb, s), Off(cb, s'));
      PatchRegion(cb, ch[1..], s', v, dt, mid);
      var out := PatchAll(cb, mid, Records(cb, ch[1..], s'), v);
      assert Records(cb, ch, s)[1..] == Records(cb, ch[1..], s');
      HasAtKept(mid, out, Off(cb, s), NodeBytes(cb, ch[0].node, s, v, dt),
                Off(cb, s'), Off(cb, s' + Span(cb, ch[1..])));
      HasAtConcat(out, Off(cb, s), NodeBytes(cb, ch[0].node, s, v, dt), Region(cb, ch[1..], s', v, dt));
      SameOutsideTrans(data, mid, out, Off(cb, s), Off(cb, s'), Off(cb, s' + Span(cb, ch[1..])));
    }
  }
}
