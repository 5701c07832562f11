/** tools/mkesp.py: directory trees, 8.3 names and directory records, and the exact bytes and
    FAT links a tree occupies when its clusters are handed out in order. */
module FatTree {
  import opened Bits
  import opened Outcomes
  import opened Bytes

  // ------------------------------------------------------------------------ names --

  type Name = seq<Byte>

  const DOT: Byte := 46
  const SPACE: Byte := 32

  function Upper(b: Byte): (r: Byte) { if 97 <= b <= 122 then b - 32 else b }

  function UpperAll(s: Name): (r: Name)
    ensures |r| == |s|
  {
    if s == [] then [] else [Upper(s[0])] + UpperAll(s[1..])
  }

  /** Position of the first dot, or the length. */
  function DotAt(s: Name): (i: nat)
    ensures i <= |s|
  {
    if s == [] || s[0] == DOT then 0 else 1 + DotAt(s[1..])
  }

  function Pad(s: seq<Byte>, n: nat, b: Byte): (r: seq<Byte>)
    requires |s| <= n
    ensures |r| == n && r[..|s|] == s && forall i :: |s| <= i < n ==> r[i] == b
  {
    s + seq(n - |s|, _ => b)
  }

  predicate Ascii(s: Name) { forall i :: 0 <= i < |s| ==> s[i] < 128 }

  /** short_name: eleven bytes, or None where the tool dies. */
  function ShortName(name: Name): (r: Option<seq<Byte>>)
    ensures r.Some? ==> |r.value| == 11
  {
    if name == [DOT] || name == [DOT, DOT] then Some(Pad(name, 11, SPACE))
    else
      var up := UpperAll(name);
      var i := DotAt(up);
      var base, ext := up[..i], if i < |up| then up[i + 1..] else [];
      if |base| > 8 || |ext| > 3 || !Ascii(up) then None
      else Some(Pad(base, 8, SPACE) + Pad(ext, 3, SPACE))
  }

  lemma {:induction false} UpperAt(s: Name, k: nat)
    requires k < |s|
    ensures UpperAll(s)[k] == if 97 <= s[k] <= 122 then s[k] - 32 else s[k]
  {
    if k > 0 { UpperAt(s[1..], k - 1); }
  }

  lemma {:induction false} DotIs(s: Name, i: nat)
    requires i <= |s| && (forall k :: 0 <= k < i ==> s[k] != 46) && (i == |s| || s[i] == 46)
    ensures DotAt(s) == i
  {
    if i > 0 { DotIs(s[1..], i - 1); }
  }

  /** Byte k of a name with small letters raised, blank behind its end. */
  ghost function Raised(name: Name, k: nat): (b: int) {
    if k >= |name| then 32 else if 97 <= name[k] <= 122 then name[k] - 32 else name[k]
  }

  /** Eleven bytes, character by character: the name up to its first dot at i, then what follows that
      dot. Refused exactly when a part is too long or not ASCII. */
  lemma ShortNameIs(name: Name, i: nat)
    requires i <= |name| && (forall k :: 0 <= k < i ==> name[k] != 46) && (i == |name| || name[i] == 46)
    requires name != [46] && name != [46, 46]
    ensures ShortName(name).Some? <==>
            (i <= 8 && |name| <= i + 4 && forall k :: 0 <= k < |name| ==> name[k] < 128)
    ensures ShortName(name).Some? ==> var r := ShortName(name).value;
      && (forall k :: 0 <= k < 8 ==> r[k] == if k < i then Raised(name, k) else 32)
      && (forall k :: 8 <= k < 11 ==> r[k] == Raised(name, i + 1 + (k - 8)))
  {
    var up := UpperAll(name);
    var ext := if i < |up| then up[i + 1..] else [];
    forall k | 0 <= k < |name| ensures up[k] == Raised(name, k) { UpperAt(name, k); }
    DotIs(up, i);
    assert Ascii(up) <==> forall k :: 0 <= k < |name| ==> name[k] < 128 by {
      forall k | 0 <= k < |name| ensures name[k] < 128 <==> up[k] < 128 {}
    }
    if i <= 8 && |ext| <= 3 { PartsAt(up[..i], ext); }
  }

  lemma PartsAt(base: Name, ext: Name)
    requires |base| <= 8 && |ext| <= 3
    ensures var r := Pad(base, 8, SPACE) + Pad(ext, 3, SPACE);
      && (forall k :: 0 <= k < 8 ==> r[k] == if k < |base| then base[k] else 32)
      && (forall k :: 8 <= k < 11 ==> r[k] == if k - 8 < |ext| then ext[k - 8] else 32)
  {}

  /** The two special names are themselves, padded. */
  lemma DotNames()
    ensures ShortName([46]) == Some(DOT_NAME) && ShortName([46, 46]) == Some(DOTDOT_NAME)
    ensures DOT_NAME == [46, 32, 32, 32, 32, 32, 32, 32, 32, 32, 32]
    ensures DOTDOT_NAME == [46, 46, 32, 32, 32, 32, 32, 32, 32, 32, 32]
  {
    assert DOT_NAME == [46] + seq(10, _ => SPACE) && DOTDOT_NAME == [46, 46] + seq(9, _ => SPACE);
  }

  /** A name that can be written. */
  predicate NameOk(name: Name) {
    ShortName(name).Some?
  }

  // --------------------------------------------------------------------- records --

  const ATTR_DIR: Byte := 0x10
  const ATTR_FILE: Byte := 0x20
  const SLOT: nat := 32

  /** A 16-bit field. */
  type Word = n: nat | n < 0x10000

  datatype Stamp = Stamp(date: Word, time: Word)

  /** The 32-byte short directory entry. */
  function Slot(short: seq<Byte>, attr: Byte, cluster: nat, size: nat, dt: Stamp): (r: seq<Byte>)
    requires |short| == 11
    ensures |r| == SLOT
  {
    short + [attr, 0, 0] + ToLe(dt.time, 2) + ToLe(dt.date, 2) + ToLe(dt.date, 2) + ToLe(0, 2)
      + ToLe(dt.time, 2) + ToLe(dt.date, 2) + ToLe(cluster, 2) + ToLe(size, 4)
  }

  lemma SlotFields(short: seq<Byte>, attr: Byte, cluster: nat, size: nat, dt: Stamp)
    requires |short| == 11 && cluster < 0x10000 && size < 0x1_0000_0000
    ensures var r := Slot(short, attr, cluster, size, dt);
      r[..11] == short && r[11] == attr && Field(r, 26, 2) == cluster && Field(r, 28, 4) == size
  {
    hide ToLe;
    var r := Slot(short, attr, cluster, size, dt);
    assert r[26..28] == ToLe(cluster, 2);
    assert r[28..32] == ToLe(size, 4);
    Widths();
    LeRoundTrip(cluster, 2);
    LeRoundTrip(size, 4);
  }

  /** Creation, access and modification stamps, and the fields that stay zero. */
  lemma SlotStamps(short: seq<Byte>, attr: Byte, cluster: nat, size: nat, dt: Stamp)
    requires |short| == 11
    ensures var r := Slot(short, attr, cluster, size, dt);
      && r[12] == 0 && r[13] == 0 && Field(r, 14, 2) == dt.time && Field(r, 16, 2) == dt.date
      && Field(r, 18, 2) == dt.date && Field(r, 20, 2) == 0
      && Field(r, 22, 2) == dt.time && Field(r, 24, 2) == dt.date
  {
    hide ToLe;
    var r := Slot(short, attr, cluster, size, dt);
    assert r[14..16] == ToLe(dt.time, 2) && r[16..18] == ToLe(dt.date, 2) && r[18..20] == ToLe(dt.date, 2);
    assert r[20..22] == ToLe(0, 2) && r[22..24] == ToLe(dt.time, 2) && r[24..26] == ToLe(dt.date, 2);
    Widths();
    LeRoundTrip(dt.time, 2);
    LeRoundTrip(dt.date, 2);
    LeRoundTrip(0, 2);
  }

  datatype Record = Record(name: Name, attr: Byte, cluster: nat, size: nat)

  function RecordBytes(e: Record, dt: Stamp): (r: seq<Byte>)
    requires ShortName(e.name).Some?
    ensures |r| == SLOT
  {
    Slot(ShortName(e.name).value, e.attr, e.cluster, e.size, dt)
  }

  ghost predicate RecordsOk(es: seq<Record>) {
    forall i :: 0 <= i < |es| ==> ShortName(es[i].name).Some?
  }

  function RecordsBytes(es: seq<Record>, dt: Stamp): (r: seq<Byte>)
    requires RecordsOk(es)
    ensures |r| == |es| * SLOT
  {
    if es == [] then [] else RecordBytes(es[0], dt) + RecordsBytes(es[1..], dt)
  }

  const DOT_NAME: seq<Byte> := Pad([DOT], 11, SPACE)
  const DOTDOT_NAME: seq<Byte> := Pad([DOT, DOT], 11, SPACE)

  /** A subdirectory's bytes: itself, its parent, then its children. */
  function DirBytes(self: nat, parent: nat, es: seq<Record>, dt: Stamp): (r: seq<Byte>)
    requires RecordsOk(es)
    ensures |r| == (2 + |es|) * SLOT
  {
    Slot(DOT_NAME, ATTR_DIR, self, 0, dt) + Slot(DOTDOT_NAME, ATTR_DIR, parent, 0, dt) + RecordsBytes(es, dt)
  }

  // ------------------------------------------------------------------------ trees --

  datatype Node = File(bytes: seq<Byte>) | Dir(children: seq<Child>)
  datatype Child = Child(name: Name, node: Node)

  predicate NodeOk(node: Node)
    decreases node, 1
  {
    node.Dir? ==> TreeOk(node.children)
  }

  predicate TreeOk(ch: seq<Child>)
    decreases ch, 0
  {
    ch != [] ==> NameOk(ch[0].name) && NodeOk(ch[0].node) && TreeOk(ch[1..])
  }

  /** Clusters that nbytes take, at least one. */
  function Clusters(cb: nat, nbytes: nat): (n: nat)
    requires cb > 0
    ensures n >= 1 && nbytes <= n * cb && (nbytes > 0 ==> (n - 1) * cb < nbytes) && (nbytes == 0 ==> n == 1)
  {
    CeilClusters(cb, nbytes);
    if nbytes == 0 then 1 else (nbytes + cb - 1) / cb
  }

  lemma CeilClusters(cb: nat, nbytes: nat)
    requires cb > 0
    ensures nbytes > 0 ==>
      var n := (nbytes + cb - 1) / cb; n >= 1 && nbytes <= n * cb && (n - 1) * cb < nbytes
  {
    if nbytes > 0 {
      var n, r := QuotRem(nbytes + cb - 1, cb);
      assert (n - 1) * cb == n * cb - cb;
      MulCancel(0, n, cb);
    }
  }

  /** Clusters a node occupies together with everything below it. */
  function NodeSpan(cb: nat, node: Node): (n: nat)
    requires cb > 0
    decreases node, 1
  {
    match node
    case File(b) => if b == [] then 0 else Clusters(cb, |b|)
    case Dir(ch) => Span(cb, ch) + Clusters(cb, (2 + |ch|) * SLOT)
  }

  function Span(cb: nat, ch: seq<Child>): (n: nat)
    requires cb > 0
    decreases ch, 0
  {
    if ch == [] then 0 else NodeSpan(cb, ch[0].node) + Span(cb, ch[1..])
  }

  /** A node's first cluster when its subtree starts at cluster s: a directory comes after
      everything below it. */
  function First(cb: nat, node: Node, s: nat): (c: nat)
    requires cb > 0
  {
    match node
    case File(b) => if b == [] then 0 else s
    case Dir(ch) => s + Span(cb, ch)
  }

  function RecordOf(cb: nat, c: Child, s: nat): (e: Record)
    requires cb > 0
  {
    match c.node
    case File(b) => Record(c.name, ATTR_FILE, First(cb, c.node, s), |b|)
    case Dir(_) => Record(c.name, ATTR_DIR, First(cb, c.node, s), 0)
  }

  function Records(cb: nat, ch: seq<Child>, s: nat): (es: seq<Record>)
    requires cb > 0
    ensures |es| == |ch|
  {
    if ch == [] then [] else [RecordOf(cb, ch[0], s)] + Records(cb, ch[1..], s + NodeSpan(cb, ch[0].node))
  }

  lemma {:induction false} TreeRecordsOk(cb: nat, ch: seq<Child>, s: nat)
    requires cb > 0 && TreeOk(ch)
    ensures RecordsOk(Records(cb, ch, s))
    ensures forall i :: 0 <= i < |ch| ==> NameOk(ch[i].name) && Records(cb, ch, s)[i].name == ch[i].name
  {
    if ch != [] { TreeRecordsOk(cb, ch[1..], s + NodeSpan(cb, ch[0].node)); }
  }

  /** b followed by zeros up to n clusters. */
  function Fill(cb: nat, b: seq<Byte>, n: nat): (r: seq<Byte>)
    requires |b| <= n * cb
    ensures |r| == n * cb
  {
    b + Zeros(n * cb - |b|)
  }

  /** The bytes of a node's clusters, its subtree first; parent goes into a directory's "..". */
  function NodeBytes(cb: nat, node: Node, s: nat, parent: nat, dt: Stamp): (r: seq<Byte>)
    requires cb > 0 && NodeOk(node)
    ensures |r| == NodeSpan(cb, node) * cb
    decreases node, 1
  {
    match node
    case File(b) => if b == [] then [] else Fill(cb, b, Clusters(cb, |b|))
    case Dir(ch) =>
      var self := s + Span(cb, ch);
      TreeRecordsOk(cb, ch, s);
      var n := Clusters(cb, (2 + |ch|) * SLOT);
      Distribute(Span(cb, ch), n, cb);
      Region(cb, ch, s, self, dt) + Fill(cb, DirBytes(self, parent, Records(cb, ch, s), dt), n)
  }

  function Region(cb: nat, ch: seq<Child>, s: nat, parent: nat, dt: Stamp): (r: seq<Byte>)
    requires cb > 0 && TreeOk(ch)
    ensures |r| == Span(cb, ch) * cb
    decreases ch, 0
  {
    if ch == [] then []
    else
      Distribute(NodeSpan(cb, ch[0].node), Span(cb, ch[1..]), cb);
      NodeBytes(cb, ch[0].node, s, parent, dt) + Region(cb, ch[1..], s + NodeSpan(cb, ch[0].node), parent, dt)
  }

  lemma Distribute(a: nat, b: nat, m: nat)
    ensures (a + b) * m == a * m + b * m
  {}

  const END: nat := 0xFFFF

  /** n links of one chain starting at cluster s. */
  function Chain(s: nat, n: nat): (r: seq<nat>)
    ensures |r| == n && forall i :: 0 <= i < n ==> r[i] == if i < n - 1 then s + i + 1 else END
  {
    seq(n, i requires 0 <= i < n => if i < n - 1 then s + i + 1 else END)
  }

  function NodeLinks(cb: nat, node: Node, s: nat): (r: seq<nat>)
    requires cb > 0
    ensures |r| == NodeSpan(cb, node)
    decreases node, 1
  {
    match node
    case File(b) => if b == [] then [] else Chain(s, Clusters(cb, |b|))
    case Dir(ch) => Links(cb, ch, s) + Chain(s + Span(cb, ch), Clusters(cb, (2 + |ch|) * SLOT))
  }

  function Links(cb: nat, ch: seq<Child>, s: nat): (r: seq<nat>)
    requires cb > 0
    ensures |r| == Span(cb, ch)
    decreases ch, 0
  {
    if ch == [] then [] else NodeLinks(cb, ch[0].node, s) + Links(cb, ch[1..], s + NodeSpan(cb, ch[0].node))
  }
}
