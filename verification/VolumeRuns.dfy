/** Persistent identities over whole runs: a conversion followed by any number of
    accepted updates. */
module VolumeRuns {
  import opened Bits
  import opened Outcomes
  import opened Bytes
  import opened LogitFs
  import opened VolumeWalk
  import opened IdentityBlind
  import opened Identities
  import opened Convert
  import opened Repack

  ghost predicate Readable(img: Image) {
    Layout(img) && Walk(img).Return?
  }

  ghost function Objects(img: Image): (at: map<Path, Node>)
    requires Readable(img)
    ensures forall p :: p in at ==> at[p].ino < InodeCount(img)
    ensures forall p, q :: p in at && q in at && p != q ==> at[p].ino != at[q].ino
  {
    WalkOk(img);
    var rows := Walk(img).value;
    forall p | p in rows.at ensures rows.at[p].ino < InodeCount(img) { RowInRange(img, rows, p); }
    rows.at
  }

  ghost function IdOf(img: Image, p: Path): (v: nat)
    requires Readable(img) && p in Objects(img)
  {
    Id(img, Objects(img)[p].ino)
  }

  ghost function RevisionOf(img: Image, p: Path): (v: nat)
    requires Readable(img) && p in Objects(img)
  {
    Revision(img, Objects(img)[p].ino)
  }

  ghost function KindOf(img: Image, p: Path): (v: nat)
    requires Readable(img) && p in Objects(img)
  {
    Objects(img)[p].kind
  }

  /** Identities are pairwise distinct, positive and at most the root counter. */
  ghost predicate GoodVolume(img: Image) {
    && Readable(img)
    && (forall p :: p in Objects(img) ==> 1 <= IdOf(img, p) <= Counter(img) && RevisionOf(img, p) >= 1)
    && (forall p, q :: p in Objects(img) && q in Objects(img) && p != q ==> IdOf(img, p) != IdOf(img, q))
  }

  // ---------------------------------------------------------------------- conversion --

  lemma WalkedIsUsed(img: Image, p: Path)
    requires Readable(img) && p in Objects(img)
    ensures UsedAt(img, Objects(img)[p].ino)
  {
    hide Walk, Layout, GetInode, UsedAt;
    WalkOk(img);
    InodeUsed(img, Objects(img)[p].ino);
  }

  lemma InodeUsed(img: Image, ino: nat)
    requires Layout(img) && GetInode(img, ino).Return?
    ensures UsedAt(img, ino)
  {
    hide Sb, FromLe;
    RawWhole(img, ino);
    var off := InodeOff(img, ino);
    assert img[off..off + 2] == Raw(img, ino)[0..2];
  }

  /** Conversion yields a good volume with the source's tree, every object at revision 1. */
  lemma ConvertGood(clean: Image, out: Image, ext: seq<Byte>)
    requires Readable(clean) && Converted(clean, out, ext)
    ensures GoodVolume(out) && Walk(out) == Walk(clean)
    ensures forall p :: p in Objects(out) ==> RevisionOf(out, p) == 1
    ensures forall n :: Payload(out, n) == Payload(clean, n)
  {
    hide Blind, Layout, Word64, Walk, GetInode, Payload, Directory, UsedAt, UsedBelow, Headed;
    BlindReaders(clean, out);
    forall p | p in Objects(out)
      ensures 1 <= IdOf(out, p) <= Counter(out) && RevisionOf(out, p) == 1
    {
      WalkedIsUsed(clean, p);
      ConvertedBounded(clean, out, ext, Objects(clean)[p].ino);
    }
    forall p, q | p in Objects(out) && q in Objects(out) && p != q ensures IdOf(out, p) != IdOf(out, q) {
      WalkedIsUsed(clean, p);
      WalkedIsUsed(clean, q);
      var a, b := Objects(clean)[p].ino, Objects(clean)[q].ino;
      if a < b { ConvertedDistinct(clean, out, ext, a, b); } else { ConvertedDistinct(clean, out, ext, b, a); }
    }
  }

  // ------------------------------------------------------------------------ one update --

  /** The bytes of a file, or the names of a directory, are there in both volumes and differ. */
  ghost predicate ContentChanged(a: Image, b: Image, p: Path)
    requires Readable(a) && Readable(b) && p in Objects(a) && p in Objects(b)
  {
    var i, j := Objects(a)[p].ino, Objects(b)[p].ino;
    if KindOf(b, p) == 2 then
      && Directory(a, i).Return? && Directory(b, j).Return?
      && exists n :: HasName(Directory(a, i).value, n) != HasName(Directory(b, j).value, n)
    else Payload(a, i).Return? && Payload(b, j).Return? && Payload(a, i).value != Payload(b, j).value
  }

  /** What one accepted update does to identities, revisions and contents. */
  ghost predicate Updated(src: Image, out: Image, changed: set<Path>) {
    && Readable(src) && Readable(out) && Counter(src) <= Counter(out)
    && (forall p :: p in Objects(src) ==> p in Objects(out))
    && (forall p :: p in Objects(src) ==> KeptObject(src, out, changed, p))
    && (forall p :: p in Objects(out) && p !in Objects(src) ==>
          Counter(src) < IdOf(out, p) <= Counter(out) && RevisionOf(out, p) == 1)
  }

  ghost predicate KeptObject(src: Image, out: Image, changed: set<Path>, p: Path)
    requires Readable(src) && Readable(out) && p in Objects(src) && p in Objects(out)
  {
    && IdOf(out, p) == IdOf(src, p) && KindOf(out, p) == KindOf(src, p)
    && RevisionOf(out, p) == RevisionOf(src, p) + (if ContentChanged(src, out, p) then 1 else 0)
    && (ContentChanged(src, out, p) && KindOf(out, p) != 2 ==> p in changed)
    && BothRead(src, Objects(src)[p].ino, out, Objects(out)[p].ino, KindOf(out, p))
  }

  lemma ChangedMeans(a: Image, b: Image, p: Path)
    requires Readable(a) && Readable(b) && p in Objects(a) && p in Objects(b)
    requires BothRead(a, Objects(a)[p].ino, b, Objects(b)[p].ino, KindOf(b, p))
    ensures ContentChanged(a, b, p) <==> !SameContent(a, Objects(a)[p].ino, b, Objects(b)[p].ino, KindOf(b, p))
  {
    hide Layout, Walk, Directory, Payload, HasName, Objects;
  }

  lemma ContentBlind(src: Image, cand: Image, out: Image, i: nat, j: nat, kind: nat)
    requires Blind(cand, out)
    ensures BothRead(src, i, out, j, kind) <==> BothRead(src, i, cand, j, kind)
    ensures BothRead(src, i, out, j, kind) ==>
      (SameContent(src, i, out, j, kind) <==> SameContent(src, i, cand, j, kind))
  {
    hide Blind, Payload, Directory, HasName;
    BlindPayload(cand, out, j);
    BlindDirectory(cand, out, j);
  }

  lemma {:induction false} NewBelowMono(prior: Rows, order: seq<Path>, a: nat, b: nat)
    requires a <= b <= |order|
    ensures NewBelow(prior, order, a) <= NewBelow(prior, order, b)
    ensures a < b && order[b - 1] !in prior.at ==> NewBelow(prior, order, a) < NewBelow(prior, order, b)
    decreases b
  {
    if a < b { NewBelowMono(prior, order, a, b - 1); }
  }

  lemma RowIndex(img: Image, p: Path) returns (k: nat)
    requires Readable(img) && p in Objects(img)
    ensures k < |Walk(img).value.order| && Walk(img).value.order[k] == p
  {
    WalkOk(img);
    assert p in Walk(img).value.order;
    k :| 0 <= k < |Walk(img).value.order| && Walk(img).value.order[k] == p;
  }

  lemma UpdateOne(src: Image, cand: Image, changed: set<Path>, out: Image, p: Path)
    requires GoodVolume(src) && Repacked(src, cand, changed, out) && Readable(out)
    requires p in Objects(out)
    ensures p in Objects(src) ==> KeptObject(src, out, changed, p)
    ensures p !in Objects(src) ==> Counter(src) < IdOf(out, p) <= Counter(out) && RevisionOf(out, p) == 1
  {
    hide Blind, Layout, Word64, Walk, GetInode, OthersKept, NewBelow, RowsOk, BothRead, SameContent, ContentChanged;
    var k := RowIndex(out, p);
    var prior, now := Walk(src).value, Walk(cand).value;
    assert RowDone(src, cand, prior, now, changed, out, k);
    if p in prior.at {
      ContentBlind(src, cand, out, prior.at[p].ino, now.at[p].ino, now.at[p].kind);
      ChangedMeans(src, out, p);
    } else {
      NewBelowMono(prior, now.order, 0, k + 1);
      NewBelowMono(prior, now.order, k + 1, |now.order|);
    }
  }

  lemma NewDistinct(src: Image, cand: Image, changed: set<Path>, out: Image, p: Path, q: Path)
    requires GoodVolume(src) && Repacked(src, cand, changed, out) && Readable(out)
    requires p in Objects(out) && q in Objects(out) && p != q && p !in Objects(src) && q !in Objects(src)
    ensures IdOf(out, p) != IdOf(out, q)
  {
    hide Blind, Layout, Word64, Walk, GetInode, OthersKept, NewBelow, RowsOk, BothRead, SameContent;
    var i := RowIndex(out, p);
    var j := RowIndex(out, q);
    var prior, now := Walk(src).value, Walk(cand).value;
    assert RowDone(src, cand, prior, now, changed, out, i);
    assert RowDone(src, cand, prior, now, changed, out, j);
    if i < j { NewBelowMono(prior, now.order, i + 1, j + 1); } else { NewBelowMono(prior, now.order, j + 1, i + 1); }
  }

  /** The update theorem: a good volume stays good and evolves exactly as promised. */
  lemma UpdateGood(src: Image, cand: Image, changed: set<Path>)
    requires GoodVolume(src) && Layout(cand) && Preserve(src, cand, changed).Return?
    ensures var out := Preserve(src, cand, changed).value;
      && GoodVolume(out) && Updated(src, out, changed) && Blind(cand, out)
      && out[52..76] == src[52..76]
  {
    hide Blind, Layout, Word64, Walk, KeptObject, RowDone, OthersKept, NewBelow, Preserve, RowsOk, GetInode;
    var out := Preserve(src, cand, changed).value;
    PreserveSound(src, cand, changed);
    forall p | p in Objects(out)
      ensures p in Objects(src) ==> KeptObject(src, out, changed, p)
      ensures p !in Objects(src) ==> Counter(src) < IdOf(out, p) <= Counter(out) && RevisionOf(out, p) == 1
    {
      UpdateOne(src, cand, changed, out, p);
    }
    assert Updated(src, out, changed);
    UpdatedKeepsGood(src, cand, changed, out);
  }

  lemma UpdatedKeepsGood(src: Image, cand: Image, changed: set<Path>, out: Image)
    requires GoodVolume(src) && Repacked(src, cand, changed, out) && Updated(src, out, changed)
    ensures GoodVolume(out)
  {
    hide Blind, Layout, Word64, Walk, RowDone, OthersKept, NewBelow, ContentChanged, RowsOk, GetInode,
        Repacked, Objects;
    forall p | p in Objects(out) ensures 1 <= IdOf(out, p) <= Counter(out) && RevisionOf(out, p) >= 1 {
      if p in Objects(src) { assert KeptObject(src, out, changed, p); }
    }
    forall p, q | p in Objects(out) && q in Objects(out) && p != q ensures IdOf(out, p) != IdOf(out, q) {
      if p in Objects(src) { assert KeptObject(src, out, changed, p); }
      if q in Objects(src) { assert KeptObject(src, out, changed, q); }
      if p !in Objects(src) && q !in Objects(src) { NewDistinct(src, cand, changed, out, p, q); }
    }
  }

  // ------------------------------------------------------------------------------ runs --

  datatype Update = Update(cand: Image, changed: set<Path>)

  /** One accepted update takes volume a to volume b. */
  ghost predicate Step(a: Image, u: Update, b: Image) {
    Layout(a) && Layout(u.cand) && Preserve(a, u.cand, u.changed) == Return(b)
  }

  /** A run: each update starts from the volume the previous one returned. */
  ghost predicate IsRun(vols: seq<Image>, ups: seq<Update>) {
    |vols| == |ups| + 1 && forall i :: 0 <= i < |ups| ==> Step(vols[i], ups[i], vols[i + 1])
  }

  /** What holds between an earlier and a later volume of a run. */
  ghost predicate Evolved(a: Image, b: Image) {
    && Readable(a) && Readable(b) && Counter(a) <= Counter(b)
    && (forall p :: p in Objects(a) ==> p in Objects(b))
    && (forall p :: p in Objects(a) ==>
          IdOf(b, p) == IdOf(a, p) && KindOf(b, p) == KindOf(a, p) && RevisionOf(a, p) <= RevisionOf(b, p))
    && (forall p :: p in Objects(b) && p !in Objects(a) ==> Counter(a) < IdOf(b, p))
  }

  lemma UpdatedEvolves(a: Image, b: Image, changed: set<Path>)
    requires Updated(a, b, changed)
    ensures Evolved(a, b)
  {
    hide Layout, Word64, Walk, ContentChanged, Objects;
    forall p | p in Objects(a)
      ensures p in Objects(b) && IdOf(b, p) == IdOf(a, p) && KindOf(b, p) == KindOf(a, p)
      ensures RevisionOf(a, p) <= RevisionOf(b, p)
    {
      assert KeptObject(a, b, changed, p);
    }
  }

  lemma EvolvedTrans(a: Image, b: Image, c: Image)
    requires Evolved(a, b) && Evolved(b, c)
    ensures Evolved(a, c)
  {
    hide Layout, Word64, Walk, Objects;
  }

  /** Over every run: every volume is good, and what an earlier one holds survives in every later
      one with its identity and kind. */
  lemma {:induction false} RunGood(vols: seq<Image>, ups: seq<Update>, i: nat, j: nat)
    requires IsRun(vols, ups) && GoodVolume(vols[0]) && i <= j < |vols|
    ensures GoodVolume(vols[i]) && GoodVolume(vols[j]) && Evolved(vols[i], vols[j])
    decreases i, j
  {
    hide GoodVolume, Evolved, Step;
    if i < j {
      RunGood(vols, ups, i, j - 1);
      StepGood(vols[j - 1], ups[j - 1], vols[j]);
      EvolvedTrans(vols[i], vols[j - 1], vols[j]);
    } else {
      if i > 0 {
        RunGood(vols, ups, i - 1, i - 1);
        StepGood(vols[i - 1], ups[i - 1], vols[i]);
      }
      EvolvedSelf(vols[i]);
    }
  }

  lemma StepGood(a: Image, u: Update, b: Image)
    requires GoodVolume(a) && Step(a, u, b)
    ensures GoodVolume(b) && Evolved(a, b) && Updated(a, b, u.changed)
  {
    hide GoodVolume, Evolved, Preserve, Updated, Layout, Blind;
    UpdateGood(a, u.cand, u.changed);
    UpdatedEvolves(a, b, u.changed);
  }

  lemma EvolvedSelf(img: Image)
    requires GoodVolume(img)
    ensures Evolved(img, img)
  {
    hide Layout, Word64, Walk, Objects;
  }

  /** No identity is ever reused: between any two moments of a run, an identity names one path. */
  lemma NoReuse(vols: seq<Image>, ups: seq<Update>, i: nat, j: nat, p: Path, q: Path)
    requires IsRun(vols, ups) && GoodVolume(vols[0]) && i <= j < |vols|
    requires Readable(vols[i]) && Readable(vols[j]) && p in Objects(vols[i]) && q in Objects(vols[j])
    requires IdOf(vols[i], p) == IdOf(vols[j], q)
    ensures p == q
  {
    hide Layout, Word64, Walk, Objects, Step;
    RunGood(vols, ups, i, j);
    if q in Objects(vols[i]) {
      assert IdOf(vols[j], q) == IdOf(vols[i], q);
    }
  }

  /** The whole life of a volume: conversion, then any accepted updates. Every object ever seen is in
      the last volume, and every update did exactly what an update promises. */
  lemma LifeOfVolume(clean: Image, ext: seq<Byte>, vols: seq<Image>, ups: seq<Update>, k: nat)
    requires Readable(clean) && IsRun(vols, ups) && Converted(clean, vols[0], ext) && k < |ups|
    ensures GoodVolume(vols[k]) && Updated(vols[k], vols[k + 1], ups[k].changed)
    ensures GoodVolume(vols[|ups|]) && Evolved(vols[k], vols[|ups|]) && Evolved(vols[0], vols[|ups|])
  {
    hide Layout, Word64, Walk, Converted, GoodVolume, Evolved, Updated, Step;
    ConvertGood(clean, vols[0], ext);
    RunGood(vols, ups, k, |ups|);
    RunGood(vols, ups, 0, |ups|);
    StepGood(vols[k], ups[k], vols[k + 1]);
  }
}
