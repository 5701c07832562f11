/** tools/project_volume.py convert: a v4 volume becomes a v5 volume whose used inodes
    are numbered 1, 2, ... in inode order, each at revision 1. */
module Convert {
  import opened Bits
  import opened Outcomes
  import opened Bytes
  import opened LogitFs
  import opened IdentityBlind
  import opened Identities

  predicate Used(img: Image, ino: nat)
    requires InodeOff(img, ino) + 2 <= |img|
  {
    Field(img, InodeOff(img, ino), 2) != 0
  }

  /** How many of the first n inodes are in use. */
  ghost function UsedBelow(img: Image, n: nat): (k: nat)
    requires Layout(img) && n <= InodeCount(img)
    ensures k <= n
  {
    if n == 0 then 0
    else
      RawWhole(img, n - 1);
      UsedBelow(img, n - 1) + if Used(img, n - 1) then 1 else 0
  }

  /** The state of the numbering loop after n inodes. */
  ghost predicate Numbered(src: Image, data: Image, n: nat, next: nat) {
    && Layout(src) && Blind(src, data) && n <= InodeCount(src) && Layout(data) && InodeCount(data) == InodeCount(src)
    && next == UsedBelow(src, n)
    && (forall ino :: 0 <= ino < n && UsedAt(src, ino) ==>
          Id(data, ino) == UsedBelow(src, ino) + 1 && Revision(data, ino) == 1 && Word64(data, ino, 2) == 0)
    && forall ino, k :: 0 <= ino < InodeCount(src) && 0 <= k < 3 && (ino >= n || !UsedAt(src, ino)) ==>
         Word64(data, ino, k) == Word64(src, ino, k)
  }

  ghost predicate UsedAt(img: Image, ino: nat)
    requires Layout(img) && ino < InodeCount(img)
  {
    RawWhole(img, ino);
    Used(img, ino)
  }

  /** An inode is in use when the two bytes of its kind are not zero. */
  lemma UsedMeans(img: Image, ino: nat)
    requires Layout(img) && ino < InodeCount(img)
    ensures var off := Sb(img, 7) * 4096 + ino * 128;
      off + 2 <= |img| && (UsedAt(img, ino) <==> img[off] != 0 || img[off + 1] != 0)
  {
    hide Sb;
    RawWhole(img, ino);
    var two := img[InodeOff(img, ino)..InodeOff(img, ino) + 2];
    assert two[1..][1..] == [] && FromLe(two[1..]) == two[1] + 256 * FromLe([]);
    assert FromLe(two) == two[0] + 256 * FromLe(two[1..]);
  }

  lemma BlindUsed(a: Image, b: Image, ino: nat)
    requires Blind(a, b) && ino < InodeCount(a)
    ensures Layout(b) && ino < InodeCount(b) && (UsedAt(a, ino) <==> UsedAt(b, ino))
  {
    hide Sb, Field;
    BlindHeader(a, b);
    RawWhole(a, ino);
    RawWhole(b, ino);
    BlindRaw(a, b, ino);
    var off := InodeOff(a, ino);
    forall i | off <= i < off + 2 ensures a[i] == b[i] {
      assert a[i] == Raw(a, ino)[i - off] && b[i] == Raw(b, ino)[i - off];
    }
    AgreeField(a, b, off, off + 2, off, 2);
  }

  lemma NumberStep(src: Image, data: Image, n: nat, next: nat)
    requires Numbered(src, data, n, next) && n < InodeCount(src)
    ensures UsedAt(data, n) ==> next + 1 <= MAX64 && Numbered(src, Stamp(data, n, next + 1, 1), n + 1, next + 1)
    ensures !UsedAt(data, n) ==> Numbered(src, data, n + 1, next)
  {
    hide Blind, Sb, Field, Layout, Word64, Stamp;
    BlindUsed(src, data, n);
    if UsedAt(data, n) {
      CountFits(src);
      StampEffect(data, n, next + 1, 1);
      var out := Stamp(data, n, next + 1, 1);
      BlindTrans(src, data, out);
      forall ino | 0 <= ino < n && UsedAt(src, ino)
        ensures Id(out, ino) == UsedBelow(src, ino) + 1 && Revision(out, ino) == 1 && Word64(out, ino, 2) == 0
      {
        OtherInode(data, out, n, ino, 0);
        OtherInode(data, out, n, ino, 1);
        OtherInode(data, out, n, ino, 2);
      }
      forall ino, k | 0 <= ino < InodeCount(src) && 0 <= k < 3 && (ino > n || !UsedAt(src, ino))
        ensures Word64(out, ino, k) == Word64(src, ino, k)
      {
        OtherInode(data, out, n, ino, k);
      }
    }
  }

  lemma CountFits(img: Image)
    ensures InodeCount(img) < MAX64
  {
    FromLeBound(img[16..20]);
    Widths();
  }

  /** The conversion loop and the three header edits. ext is the extension the caller made from
      a fresh volume number and its checksum. */
  method ConvertVolume(clean: Image, ext: seq<Byte>) returns (r: Outcome<Image>)
    requires Layout(clean) && |ext| == EXT_END - EXT_OFF
    ensures r.Return? <==> Sb(clean, 0) == 0x4C4F4749 && Sb(clean, 1) == 4
    ensures r.Return? ==> Converted(clean, r.value, ext)
  {
    hide Blind, Field, Word64, Stamp, SetCounter, SetVersion, Numbered, Layout, IdentityByte;
    if Sb(clean, 0) != MAGIC || Sb(clean, 1) != 4 {
      return Raise;
    }
    SetVersionEffect(clean, ext);
    var data := SetVersion(clean, ext);
    var next := 0;
    StartNumbering(clean, data);
    for ino := 0 to InodeCount(clean)
      invariant |data| == |clean| && Numbered(clean, data, ino, next)
      invariant Layout(data) && InodeCount(data) == InodeCount(clean) && Headed(data, ext)
    {
      NumberStep(clean, data, ino, next);
      RawWhole(data, ino);
      if Used(data, ino) {
        assert UsedAt(data, ino);
        StampEffect(data, ino, next + 1, 1);
        HeadedKept(data, Stamp(data, ino, next + 1, 1), ino, ext);
        next := next + 1;
        data := Stamp(data, ino, next, 1);
      } else {
        assert !UsedAt(data, ino);
      }
    }
    FinishNumbering(clean, data, next, ext);
    r := Return(SetCounter(data, next));
  }

  /** Version 5 and the extension are in place. */
  ghost predicate Headed(img: Image, ext: seq<Byte>) {
    |img| >= 76 && Sb(img, 1) == 5 && img[52..76] == ext
  }

  lemma HeadedKept(a: Image, b: Image, ino: nat, ext: seq<Byte>)
    requires OnlyInode(a, b, ino) && Headed(a, ext)
    ensures Headed(b, ext)
  {
    hide Field;
    AgreeField(a, b, 0, EXT_END, 4, 4);
    assert b[EXT_OFF..EXT_END] == a[EXT_OFF..EXT_END];
  }

  lemma StartNumbering(src: Image, data: Image)
    requires Layout(src) && Blind(src, data) && Layout(data) && InodeCount(data) == InodeCount(src)
    requires forall ino, k :: 0 <= ino < InodeCount(src) && 0 <= k < 3 ==> Word64(data, ino, k) == Word64(src, ino, k)
    ensures Numbered(src, data, 0, 0)
  {}

  /** What a converted volume looks like, down to every byte: version 5 and the extension; every used
      inode with the number of used inodes up to it, revision 1 and a zero word; the count in the root;
      everything else as it was. */
  ghost predicate Converted(src: Image, out: Image, ext: seq<Byte>) {
    && Layout(src) && Blind(src, out) && Layout(out) && InodeCount(out) == InodeCount(src) && Headed(out, ext)
    && Counter(out) == UsedBelow(src, InodeCount(src))
    && (forall ino :: 0 <= ino < InodeCount(src) && UsedAt(src, ino) ==>
          && Id(out, ino) == UsedBelow(src, ino) + 1 && Revision(out, ino) == 1
          && (ino != RootIno(src) ==> Word64(out, ino, 2) == 0))
    && forall ino, k ::
         0 <= ino < InodeCount(src) && 0 <= k < 3 && !UsedAt(src, ino) && (ino != RootIno(src) || k < 2) ==>
         Word64(out, ino, k) == Word64(src, ino, k)
  }

  lemma FinishNumbering(src: Image, data: Image, next: nat, ext: seq<Byte>)
    requires Numbered(src, data, InodeCount(src), next) && Headed(data, ext)
    ensures Layout(data) && Converted(src, SetCounter(data, next), ext)
  {
    hide Blind, Sb, Field, Word64, Stamp, SetCounter;
    CountFits(src);
    SetCounterEffect(data, next);
    var out := SetCounter(data, next);
    BlindTrans(src, data, out);
    HeadedKept(data, out, RootIno(data), ext);
    BlindHeader(src, data);
    forall ino, k | 0 <= ino < InodeCount(src) && 0 <= k < 3 && (ino != RootIno(src) || k < 2)
      ensures Word64(out, ino, k) == Word64(data, ino, k)
    {
      if ino != RootIno(data) { OtherInode(data, out, RootIno(data), ino, k); }
    }
  }

  lemma {:induction false} UsedBelowStrict(img: Image, a: nat, b: nat)
    requires Layout(img) && a < b <= InodeCount(img) && UsedAt(img, a)
    ensures UsedBelow(img, a) + 1 <= UsedBelow(img, b)
    decreases b
  {
    hide Layout, Used;
    if a < b - 1 { UsedBelowStrict(img, a, b - 1); }
  }

  /** Distinct used inodes get distinct identities, none above the counter. */
  lemma ConvertedDistinct(src: Image, out: Image, ext: seq<Byte>, a: nat, b: nat)
    requires Converted(src, out, ext) && a < b < InodeCount(src) && UsedAt(src, a) && UsedAt(src, b)
    ensures Id(out, a) != Id(out, b)
  {
    hide Blind, Layout, Word64;
    UsedBelowStrict(src, a, b);
  }

  lemma ConvertedBounded(src: Image, out: Image, ext: seq<Byte>, a: nat)
    requires Converted(src, out, ext) && a < InodeCount(src) && UsedAt(src, a)
    ensures 1 <= Id(out, a) <= Counter(out)
  {
    hide Blind, Layout, Word64;
    UsedBelowStrict(src, a, InodeCount(src));
  }
}
