/** tools/project_volume.py preserve_identities: a freshly packed candidate takes over the
    identities of the volume it replaces. */
module Repack {
  import opened Bits
  import opened Outcomes
  import opened Bytes
  import opened LogitFs
  import opened VolumeWalk
  import opened IdentityBlind
  import opened Identities

  ghost predicate GoodRows(img: Image, rows: Rows) {
    Layout(img) && RowsOk(img, rows)
  }

  lemma RowInRange(img: Image, rows: Rows, p: Path)
    requires GoodRows(img, rows) && p in rows.at
    ensures rows.at[p].ino < InodeCount(img)
  {
    assert GetInode(img, rows.at[p].ino).Return?;
  }

  function Names(es: seq<Entry>): (s: set<seq<Byte>>) {
    set e | e in es :: e.name
  }

  /** Has the object changed? Directories by their set of names, files by their bytes. Reading may
      be refused. */
  function Modified(src: Image, cand: Image, prior: Node, now: Node): (r: Outcome<bool>) {
    if now.kind == T_DIR then
      match Directory(src, prior.ino)
      case Raise => Raise
      case Return(a) =>
        match Directory(cand, now.ino)
        case Raise => Raise
        case Return(b) => Return(Names(a) != Names(b))
    else
      match Payload(src, prior.ino)
      case Raise => Raise
      case Return(a) =>
        match Payload(cand, now.ino)
        case Raise => Raise
        case Return(b) => Return(a != b)
  }

  ghost predicate HasName(es: seq<Entry>, name: seq<Byte>) {
    exists i :: 0 <= i < |es| && es[i].name == name
  }

  /** The two versions of an object of this kind can be read. */
  ghost predicate BothRead(a: Image, i: nat, b: Image, j: nat, kind: nat) {
    if kind == 2 then Directory(a, i).Return? && Directory(b, j).Return?
    else Payload(a, i).Return? && Payload(b, j).Return?
  }

  /** They hold the same: files byte for byte, directories the same names. */
  ghost predicate SameContent(a: Image, i: nat, b: Image, j: nat, kind: nat)
    requires BothRead(a, i, b, j, kind)
  {
    if kind == 2 then forall n :: HasName(Directory(a, i).value, n) <==> HasName(Directory(b, j).value, n)
    else Payload(a, i).value == Payload(b, j).value
  }

  lemma NamesMean(es: seq<Entry>, name: seq<Byte>)
    ensures name in Names(es) <==> HasName(es, name)
  {
    if HasName(es, name) {
      var i :| 0 <= i < |es| && es[i].name == name;
      assert es[i] in es;
    }
  }

  lemma NamesEqual(a: seq<Entry>, b: seq<Entry>)
    ensures Names(a) == Names(b) <==> forall n :: HasName(a, n) <==> HasName(b, n)
  {
    hide Names, HasName;
    forall n ensures (n in Names(a) <==> HasName(a, n)) && (n in Names(b) <==> HasName(b, n)) {
      NamesMean(a, n);
      NamesMean(b, n);
    }
  }

  /** Modified is what the two contents say. */
  lemma ModifiedMeans(a: Image, b: Image, was: Node, node: Node)
    ensures Modified(a, b, was, node).Return? <==> BothRead(a, was.ino, b, node.ino, node.kind)
    ensures Modified(a, b, was, node).Return? ==>
      (Modified(a, b, was, node).value <==> !SameContent(a, was.ino, b, node.ino, node.kind))
  {
    hide Directory, Payload, Names, HasName;
    if node.kind == T_DIR && BothRead(a, was.ino, b, node.ino, node.kind) {
      NamesEqual(Directory(a, was.ino).value, Directory(b, node.ino).value);
    }
  }

  datatype Stamped = Stamped(id: nat, rev: nat, counter: nat)

  /** The loop body: which identity, revision and counter a candidate's row gets. */
  function Assign(src: Image, cand: Image, prior: Rows, changed: set<Path>, p: Path, node: Node, counter: nat)
      : (r: Outcome<Stamped>)
    requires GoodRows(src, prior)
  {
    if p in prior.at then
      var was := prior.at[p];
      RowInRange(src, prior, p);
      if was.kind != node.kind then Raise
      else match Modified(src, cand, was, node)
        case Raise => Raise
        case Return(modified) =>
          if modified && node.kind != T_DIR && p !in changed then Raise
          else if modified && Revision(src, was.ino) == MAX64 then Raise
          else Return(Stamped(Id(src, was.ino), Revision(src, was.ino) + if modified then 1 else 0, counter))
    else if counter == MAX64 then Raise
    else Return(Stamped(counter + 1, 1, counter + 1))
  }

  datatype Progress = Progress(data: Image, counter: nat)

  function StampOne(l: Progress, ino: nat, a: Stamped): (r: Progress)
    requires Layout(l.data) && ino < InodeCount(l.data) && a.id <= MAX64 && a.rev <= MAX64
    ensures |r.data| == |l.data| && Layout(r.data) && InodeCount(r.data) == InodeCount(l.data)
  {
    StampEffect(l.data, ino, a.id, a.rev);
    Progress(Stamp(l.data, ino, a.id, a.rev), a.counter)
  }

  /** The loop over the first n rows of the candidate. */
  function StampRows(src: Image, cand: Image, prior: Rows, now: Rows, changed: set<Path>, n: nat)
      : (r: Outcome<Progress>)
    requires GoodRows(src, prior) && GoodRows(cand, now) && n <= |now.order|
    ensures r.Return? ==>
      |r.value.data| == |cand| && Layout(r.value.data) && InodeCount(r.value.data) == InodeCount(cand)
    ensures r.Return? ==> r.value.counter <= MAX64
  {
    if n == 0 then Return(Progress(cand, Counter(src)))
    else match StampRows(src, cand, prior, now, changed, n - 1)
      case Raise => Raise
      case Return(l) =>
        var p := now.order[n - 1];
        RowInRange(cand, now, p);
        match Assign(src, cand, prior, changed, p, now.at[p], l.counter)
        case Raise => Raise
        case Return(a) =>
          AssignBounds(src, cand, prior, changed, p, now.at[p], l.counter);
          Return(StampOne(l, now.at[p].ino, a))
  }

  /** The two header edits after the loop. */
  function Finish(src: Image, l: Progress): (r: Image)
    requires Layout(src) && Layout(l.data) && l.counter <= MAX64
    ensures |r| == |l.data|
  {
    RawWhole(src, RootIno(src));
    SetCounterEffect(l.data, l.counter);
    SetVersionEffect(SetCounter(l.data, l.counter), src[EXT_OFF..EXT_END]);
    SetVersion(SetCounter(l.data, l.counter), src[EXT_OFF..EXT_END])
  }

  predicate CandidateOk(cand: Image) {
    Sb(cand, 0) == MAGIC && Sb(cand, 2) == BS && Sb(cand, 1) == 4
  }

  /** preserve_identities(source, candidate, changed); the caller has both images checked by fsck. */
  function Preserve(src: Image, cand: Image, changed: set<Path>): (r: Outcome<Image>)
    requires Layout(src) && Layout(cand)
  {
    if !CandidateOk(cand) then Raise
    else match Walk(src)
      case Raise => Raise
      case Return(prior) =>
        match Walk(cand)
        case Raise => Raise
        case Return(now) =>
          if !(prior.at.Keys <= now.at.Keys) then Raise
          else
            WalkOk(src);
            WalkOk(cand);
            match StampRows(src, cand, prior, now, changed, |now.order|)
            case Raise => Raise
            case Return(l) => Return(Finish(src, l))
  }

  // ------------------------------------------------------------- what the loop does --

  /** How many of the candidate's first n paths are new. */
  ghost function NewBelow(prior: Rows, order: seq<Path>, n: nat): (k: nat)
    requires n <= |order|
    ensures k <= n
  {
    if n == 0 then 0 else NewBelow(prior, order, n - 1) + if order[n - 1] in prior.at then 0 else 1
  }

  /** What row k of the candidate carries in data. */
  ghost predicate RowDone(src: Image, cand: Image, prior: Rows, now: Rows, changed: set<Path>, data: Image, k: nat)
    requires GoodRows(src, prior) && GoodRows(cand, now) && Layout(data) && InodeCount(data) == InodeCount(cand)
    requires k < |now.order|
  {
    var p := now.order[k];
    && p in now.at
    && (RowInRange(cand, now, p); var node := now.at[p];
        if p in prior.at then
          RowInRange(src, prior, p);
          var was := prior.at[p];
          && was.kind == node.kind && Id(data, node.ino) == Id(src, was.ino)
          && BothRead(src, was.ino, cand, node.ino, node.kind)
          && (if SameContent(src, was.ino, cand, node.ino, node.kind)
              then Revision(data, node.ino) == Revision(src, was.ino)
              else Revision(data, node.ino) == Revision(src, was.ino) + 1 && (node.kind != 2 ==> p in changed))
        else Id(data, node.ino) == Counter(src) + NewBelow(prior, now.order, k + 1) && Revision(data, node.ino) == 1)
    && (now.at[p].ino != RootIno(cand) ==> Word64(data, now.at[p].ino, 2) == 0)
  }

  /** Inodes outside the tree keep the candidate's words. */
  ghost predicate OthersKept(cand: Image, now: Rows, data: Image)
    requires Layout(cand) && Layout(data) && InodeCount(data) == InodeCount(cand)
  {
    forall ino, w :: 0 <= ino < InodeCount(cand) && 0 <= w < 3 && (forall p :: p in now.at ==> now.at[p].ino != ino) ==>
      Word64(data, ino, w) == Word64(cand, ino, w)
  }

  lemma {:induction false} StampRowsInv(src: Image, cand: Image, prior: Rows, now: Rows, changed: set<Path>, n: nat)
    requires GoodRows(src, prior) && GoodRows(cand, now) && n <= |now.order|
    requires StampRows(src, cand, prior, now, changed, n).Return?
    ensures var l := StampRows(src, cand, prior, now, changed, n).value;
      && Blind(cand, l.data) && l.counter == Counter(src) + NewBelow(prior, now.order, n)
      && (forall k :: 0 <= k < n ==> RowDone(src, cand, prior, now, changed, l.data, k))
      && OthersKept(cand, now, l.data)
  {
    hide Blind, RowDone, OthersKept, Assign, Stamp, Word64, RowsOk, Sb, Layout;
    if n == 0 {
      BlindSelf(cand);
      NothingStamped(cand, now);
    } else {
      StampRowsInv(src, cand, prior, now, changed, n - 1);
      var l := StampRows(src, cand, prior, now, changed, n - 1).value;
      var p := now.order[n - 1];
      RowListed(cand, now, n - 1);
      RowInRange(cand, now, p);
      var a := Assign(src, cand, prior, changed, p, now.at[p], l.counter).value;
      AssignBounds(src, cand, prior, changed, p, now.at[p], l.counter);
      StampEffect(l.data, now.at[p].ino, a.id, a.rev);
      var out := Stamp(l.data, now.at[p].ino, a.id, a.rev);
      BlindTrans(cand, l.data, out);
      AssignCounts(src, cand, prior, changed, p, now.at[p], l.counter);
      forall k | 0 <= k < n - 1 ensures RowDone(src, cand, prior, now, changed, out, k) {
        RowKept(src, cand, prior, now, changed, l.data, out, k, n - 1);
      }
      RowStamped(src, cand, prior, now, changed, l, out, n - 1);
      OthersStay(cand, now, l.data, out, p);
    }
  }

  lemma NothingStamped(cand: Image, now: Rows)
    requires Layout(cand)
    ensures OthersKept(cand, now, cand)
  {}

  lemma RowListed(img: Image, rows: Rows, k: nat)
    requires GoodRows(img, rows) && k < |rows.order|
    ensures rows.order[k] in rows.at
  {
    hide GetInode;
  }

  lemma AssignBounds(src: Image, cand: Image, prior: Rows, changed: set<Path>, p: Path, node: Node, counter: nat)
    requires GoodRows(src, prior) && counter <= MAX64 && Assign(src, cand, prior, changed, p, node, counter).Return?
    ensures var a := Assign(src, cand, prior, changed, p, node, counter).value;
      a.id <= MAX64 && a.rev <= MAX64 && a.counter <= MAX64
  {
    hide RowsOk, Layout, Field, Modified;
  }

  lemma AssignCounts(src: Image, cand: Image, prior: Rows, changed: set<Path>, p: Path, node: Node, counter: nat)
    requires GoodRows(src, prior) && Assign(src, cand, prior, changed, p, node, counter).Return?
    ensures Assign(src, cand, prior, changed, p, node, counter).value.counter
            == counter + if p in prior.at then 0 else 1
  {
    hide RowsOk, Layout, Word64, Modified;
  }

  /** Stamping one inode leaves the rows of all others as they were. */
  lemma RowKept(src: Image, cand: Image, prior: Rows, now: Rows, changed: set<Path>, data: Image, out: Image, k: nat,
      n: nat)
    requires GoodRows(src, prior) && GoodRows(cand, now) && k < n < |now.order|
    requires Layout(data) && InodeCount(data) == InodeCount(cand) && Layout(out) && InodeCount(out) == InodeCount(cand)
    requires RowDone(src, cand, prior, now, changed, data, k)
    requires now.order[n] in now.at && OnlyInode(data, out, now.at[now.order[n]].ino)
    ensures RowDone(src, cand, prior, now, changed, out, k)
  {
    hide Layout, Word64, GetInode, OnlyInode, BothRead, SameContent;
    var p := now.order[k];
    RowInRange(cand, now, p);
    OtherInode(data, out, now.at[now.order[n]].ino, now.at[p].ino, 0);
    OtherInode(data, out, now.at[now.order[n]].ino, now.at[p].ino, 1);
    OtherInode(data, out, now.at[now.order[n]].ino, now.at[p].ino, 2);
  }

  lemma RowStamped(src: Image, cand: Image, prior: Rows, now: Rows, changed: set<Path>, l: Progress, out: Image, k: nat)
    requires GoodRows(src, prior) && GoodRows(cand, now) && k < |now.order|
    requires Layout(out) && InodeCount(out) == InodeCount(cand) && now.order[k] in now.at
    requires now.at[now.order[k]].ino < InodeCount(cand)
    requires l.counter == Counter(src) + NewBelow(prior, now.order, k)
    requires Assign(src, cand, prior, changed, now.order[k], now.at[now.order[k]], l.counter).Return?
    requires var a := Assign(src, cand, prior, changed, now.order[k], now.at[now.order[k]], l.counter).value;
      Id(out, now.at[now.order[k]].ino) == a.id && Revision(out, now.at[now.order[k]].ino) == a.rev
    requires Word64(out, now.at[now.order[k]].ino, 2) == 0
    ensures RowDone(src, cand, prior, now, changed, out, k)
  {
    hide Layout, Word64, Modified, RowsOk, BothRead, SameContent;
    var p := now.order[k];
    RowInRange(cand, now, p);
    if p in prior.at { ModifiedMeans(src, cand, prior.at[p], now.at[p]); }
  }

  lemma OthersStay(cand: Image, now: Rows, data: Image, out: Image, p: Path)
    requires Layout(cand) && Layout(data) && Layout(out) && InodeCount(data) == InodeCount(cand) == InodeCount(out)
    requires OthersKept(cand, now, data) && p in now.at && OnlyInode(data, out, now.at[p].ino)
    ensures OthersKept(cand, now, out)
  {
    hide Layout, Word64, OnlyInode;
    forall ino, w | 0 <= ino < InodeCount(cand) && 0 <= w < 3 && (forall q :: q in now.at ==> now.at[q].ino != ino)
      ensures Word64(out, ino, w) == Word64(cand, ino, w)
    {
      OtherInode(data, out, now.at[p].ino, ino, w);
    }
  }

  // ---------------------------------------------------------------- the step theorem --

  /** Everything an accepted update promises about the volume it returns. */
  ghost predicate Repacked(src: Image, cand: Image, changed: set<Path>, out: Image) {
    && Layout(src) && Layout(cand) && Layout(out) && Blind(cand, out)
    && Walk(src).Return? && Walk(cand).Return? && Walk(out) == Walk(cand)
    && |src| >= 76 && |out| >= 76 && Sb(out, 1) == 5 && out[52..76] == src[52..76]
    && InodeCount(out) == InodeCount(cand)
    && var prior, now := Walk(src).value, Walk(cand).value;
    && GoodRows(src, prior) && GoodRows(cand, now) && prior.at.Keys <= now.at.Keys
    && Counter(out) == Counter(src) + NewBelow(prior, now.order, |now.order|)
    && (forall k :: 0 <= k < |now.order| ==> RowDone(src, cand, prior, now, changed, out, k))
    && OthersKept(cand, now, out)
  }

  lemma FinishKeeps(src: Image, cand: Image, prior: Rows, now: Rows, changed: set<Path>, l: Progress)
    requires GoodRows(src, prior) && GoodRows(cand, now) && Blind(cand, l.data) && l.counter <= MAX64
    requires Layout(l.data) && InodeCount(l.data) == InodeCount(cand) && RootIno(l.data) == RootIno(cand)
    requires ROOT in now.at && now.at[ROOT].ino == RootIno(cand)
    requires forall k :: 0 <= k < |now.order| ==> RowDone(src, cand, prior, now, changed, l.data, k)
    requires OthersKept(cand, now, l.data)
    ensures var out := Finish(src, l);
      && Blind(cand, out) && Layout(out) && InodeCount(out) == InodeCount(cand) && Counter(out) == l.counter
      && |src| >= 76 && |out| >= 76 && Sb(out, 1) == 5 && out[52..76] == src[52..76]
      && (forall k :: 0 <= k < |now.order| ==> RowDone(src, cand, prior, now, changed, out, k))
      && OthersKept(cand, now, out)
  {
    hide Blind, RowDone, OthersKept, Stamp, Word64, RowsOk, SetCounter, SetVersion, IdentityByte, OnlyInode;
    RawWhole(src, RootIno(src));
    var mid := SetCounter(l.data, l.counter);
    SetCounterEffect(l.data, l.counter);
    SetVersionEffect(mid, src[EXT_OFF..EXT_END]);
    var out := Finish(src, l);
    BlindTrans(cand, l.data, mid);
    BlindTrans(cand, mid, out);
    forall k | 0 <= k < |now.order| ensures RowDone(src, cand, prior, now, changed, out, k) {
      RowListed(cand, now, k);
      RowInRange(cand, now, now.order[k]);
      var ino := now.at[now.order[k]].ino;
      if ino != RootIno(l.data) {
        OtherInode(l.data, mid, RootIno(l.data), ino, 0);
        OtherInode(l.data, mid, RootIno(l.data), ino, 1);
        OtherInode(l.data, mid, RootIno(l.data), ino, 2);
      }
      RowSame(src, cand, prior, now, changed, l.data, out, k);
    }
    OthersFinish(cand, now, l.data, mid, out);
  }

  lemma RowSame(src: Image, cand: Image, prior: Rows, now: Rows, changed: set<Path>, data: Image, out: Image, k: nat)
    requires GoodRows(src, prior) && GoodRows(cand, now) && k < |now.order|
    requires Layout(data) && InodeCount(data) == InodeCount(cand) && Layout(out) && InodeCount(out) == InodeCount(cand)
    requires RowDone(src, cand, prior, now, changed, data, k)
    requires now.order[k] in now.at && now.at[now.order[k]].ino < InodeCount(cand)
    requires Id(out, now.at[now.order[k]].ino) == Id(data, now.at[now.order[k]].ino)
    requires Revision(out, now.at[now.order[k]].ino) == Revision(data, now.at[now.order[k]].ino)
    requires now.at[now.order[k]].ino != RootIno(cand) ==>
      Word64(out, now.at[now.order[k]].ino, 2) == Word64(data, now.at[now.order[k]].ino, 2)
    ensures RowDone(src, cand, prior, now, changed, out, k)
  {
    hide Layout, Word64, Modified, RowsOk;
  }

  lemma OthersFinish(cand: Image, now: Rows, data: Image, mid: Image, out: Image)
    requires Layout(cand) && Layout(data) && Layout(mid) && Layout(out)
    requires InodeCount(data) == InodeCount(cand) == InodeCount(mid) == InodeCount(out)
    requires RootIno(data) == RootIno(cand) && ROOT in now.at && now.at[ROOT].ino == RootIno(cand)
    requires OthersKept(cand, now, data) && OnlyInode(data, mid, RootIno(data))
    requires forall ino, k :: 0 <= ino < InodeCount(mid) && 0 <= k < 3 ==> Word64(out, ino, k) == Word64(mid, ino, k)
    ensures OthersKept(cand, now, out)
  {
    hide Layout, Word64, OnlyInode;
    forall ino, w | 0 <= ino < InodeCount(cand) && 0 <= w < 3 && (forall q :: q in now.at ==> now.at[q].ino != ino)
      ensures Word64(out, ino, w) == Word64(cand, ino, w)
    {
      assert ino != RootIno(data);
      OtherInode(data, mid, RootIno(data), ino, w);
    }
  }

  /** An accepted update returns a repacked volume. */
  lemma PreserveSound(src: Image, cand: Image, changed: set<Path>)
    requires Layout(src) && Layout(cand) && Preserve(src, cand, changed).Return?
    ensures Repacked(src, cand, changed, Preserve(src, cand, changed).value)
  {
    hide Blind, RowDone, OthersKept, Walk, Layout, RowsOk, StampRows, Finish, NewBelow, Word64;
    var prior, now := Walk(src).value, Walk(cand).value;
    WalkOk(src);
    WalkOk(cand);
    StampRowsInv(src, cand, prior, now, changed, |now.order|);
    var l := StampRows(src, cand, prior, now, changed, |now.order|).value;
    BlindHeader(cand, l.data);
    FinishKeeps(src, cand, prior, now, changed, l);
    BlindReaders(cand, Finish(src, l));
  }
}
