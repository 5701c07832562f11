/** tools/project_volume.py: the identity, revision and counter words of a volume, and what each
    in-place edit of them changes and leaves alone. */
module Identities {
  import opened Bits
  import opened Bytes
  import opened LogitFs
  import opened IdentityBlind

  const MAX64: nat := 0xFFFF_FFFF_FFFF_FFFF
  const COUNTER_OFF: nat := 116

  // ------------------------------------------------------------ identity fields --

  /** The three 64-bit words behind byte 100 of an inode: identity, revision, and in the
      root the counter of identities handed out. */
  function Word64(img: Image, ino: nat, k: nat): (v: nat)
    requires Layout(img) && ino < InodeCount(img) && k < 3
    ensures v <= MAX64
  {
    RawWhole(img, ino);
    FromLeBound(img[InodeOff(img, ino) + ID_OFF + 8 * k..InodeOff(img, ino) + ID_OFF + 8 * k + 8]);
    Widths();
    Field(img, InodeOff(img, ino) + ID_OFF + 8 * k, 8)
  }

  function Id(img: Image, ino: nat): (v: nat)
    requires Layout(img) && ino < InodeCount(img)
  {
    Word64(img, ino, 0)
  }

  function Revision(img: Image, ino: nat): (v: nat)
    requires Layout(img) && ino < InodeCount(img)
  {
    Word64(img, ino, 1)
  }

  function Counter(img: Image): (v: nat)
    requires Layout(img)
  {
    Word64(img, RootIno(img), 2)
  }

  /** The words in numbers: three of 8 bytes from byte 100 of each 128-byte inode, in the table that word 7
      of the superblock names; word 10 names the root. */
  lemma WordsAt(img: Image, ino: nat)
    requires Layout(img) && ino < InodeCount(img)
    ensures var off := Sb(img, 7) * 4096 + ino * 128;
      && off + 128 <= |img| && Id(img, ino) == Field(img, off + 100, 8)
      && Revision(img, ino) == Field(img, off + 108, 8)
      && Word64(img, ino, 2) == Field(img, off + 116, 8)
    ensures var root := Sb(img, 7) * 4096 + Sb(img, 10) * 128;
      root + 128 <= |img| && Counter(img) == Field(img, root + 116, 8)
  {
    hide Sb, Field;
    RawWhole(img, ino);
    RawWhole(img, RootIno(img));
  }

  function Three(id: nat, rev: nat, third: nat): (s: seq<Byte>)
    ensures |s| == ID_LEN
  {
    ToLe(id, 8) + ToLe(rev, 8) + ToLe(third, 8)
  }

  /** Packing identity, revision and a zero word into an inode. */
  function Stamp(img: Image, ino: nat, id: nat, rev: nat): (r: Image)
    requires Layout(img) && ino < InodeCount(img)
    ensures |r| == |img|
  {
    RawWhole(img, ino);
    Splice(img, InodeOff(img, ino) + ID_OFF, Three(id, rev, 0))
  }

  /** Packing the counter into the root inode's third word. */
  function SetCounter(img: Image, counter: nat): (r: Image)
    requires Layout(img)
    ensures |r| == |img|
  {
    RawWhole(img, RootIno(img));
    Splice(img, InodeOff(img, RootIno(img)) + COUNTER_OFF, ToLe(counter, 8))
  }

  /** The version word and the volume extension. */
  function SetVersion(img: Image, ext: seq<Byte>): (r: Image)
    requires |img| >= EXT_END && |ext| == EXT_END - EXT_OFF
    ensures |r| == |img|
  {
    Splice(Splice(img, 4, ToLe(5, 4)), EXT_OFF, ext)
  }

  // ------------------------------------------------------- what an edit disturbs --

  /** b differs from a only inside identity words of inode ino. */
  ghost predicate OnlyInode(a: Image, b: Image, ino: nat) {
    && |a| == |b| && Layout(a) && ino < InodeCount(a)
    && forall i :: 0 <= i < |a| && !(InodeOff(a, ino) + ID_OFF <= i < InodeOff(a, ino) + ID_OFF + ID_LEN) ==>
         a[i] == b[i]
  }

  lemma OnlyInodeBlind(a: Image, b: Image, ino: nat)
    requires OnlyInode(a, b, ino)
    ensures Blind(a, b)
  {
    hide Sb;
    RawWhole(a, ino);
    forall i | 0 <= i < |a| && !IdentityByte(Table(a), InodeCount(a), i) ensures a[i] == b[i] {
      if InodeOff(a, ino) + ID_OFF <= i < InodeOff(a, ino) + ID_OFF + ID_LEN {
        IsIdentity(a, ino, i - InodeOff(a, ino));
      }
    }
  }

  lemma IsIdentity(img: Image, ino: nat, k: nat)
    requires Layout(img) && ino < InodeCount(img) && ID_OFF <= k < ID_OFF + ID_LEN
    ensures IdentityByte(Table(img), InodeCount(img), InodeOff(img, ino) + k)
  {
    hide Sb;
    assert (ino * INODE_SIZE + k) % INODE_SIZE == k;
    assert ino * INODE_SIZE + INODE_SIZE <= InodeCount(img) * INODE_SIZE;
  }

  lemma BlindTrans(a: Image, b: Image, c: Image)
    requires Blind(a, b) && Blind(b, c)
    ensures Blind(a, c)
  {
    hide Sb;
    BlindHeader(a, b);
  }

  lemma BlindSelf(a: Image)
    requires Layout(a)
    ensures Blind(a, a)
  {}

  /** Other inodes keep their words. */
  lemma OtherInode(a: Image, b: Image, ino: nat, other: nat, k: nat)
    requires OnlyInode(a, b, ino) && other != ino && other < InodeCount(a) && k < 3
    ensures Layout(b) && InodeCount(b) == InodeCount(a) && Word64(b, other, k) == Word64(a, other, k)
  {
    hide Sb, Field;
    OnlyInodeBlind(a, b, ino);
    BlindHeader(a, b);
    RawWhole(a, other);
    var off := InodeOff(a, other) + ID_OFF + 8 * k;
    Apart(ino, other);
    assert Agree(a, b, off, off + 8);
    AgreeField(a, b, off, off + 8, off, 8);
  }

  lemma Apart(a: nat, b: nat)
    requires a != b
    ensures a * INODE_SIZE + INODE_SIZE <= b * INODE_SIZE || b * INODE_SIZE + INODE_SIZE <= a * INODE_SIZE
  {}

  lemma StampEffect(img: Image, ino: nat, id: nat, rev: nat)
    requires Layout(img) && ino < InodeCount(img) && id <= MAX64 && rev <= MAX64
    ensures OnlyInode(img, Stamp(img, ino, id, rev), ino) && Blind(img, Stamp(img, ino, id, rev))
    ensures Layout(Stamp(img, ino, id, rev)) && InodeCount(Stamp(img, ino, id, rev)) == InodeCount(img)
    ensures Id(Stamp(img, ino, id, rev), ino) == id && Revision(Stamp(img, ino, id, rev), ino) == rev
    ensures Word64(Stamp(img, ino, id, rev), ino, 2) == 0
  {
    hide Sb, Field, ToLe;
    var out := Stamp(img, ino, id, rev);
    RawWhole(img, ino);
    assert OnlyInode(img, out, ino);
    OnlyInodeBlind(img, out, ino);
    BlindHeader(img, out);
    var off := InodeOff(img, ino) + ID_OFF;
    SpliceReads(img, off, Three(id, rev, 0));
    FieldOf(out, off, Three(id, rev, 0), 0, id);
    FieldOf(out, off, Three(id, rev, 0), 8, rev);
    FieldOf(out, off, Three(id, rev, 0), 16, 0);
  }

  /** Reading back a field of a run of bytes that stands in the image. */
  lemma FieldOf(img: Image, off: nat, run: seq<Byte>, at: nat, v: nat)
    requires off + |run| <= |img| && img[off..off + |run|] == run && at + 8 <= |run|
    requires v <= MAX64 && run[at..at + 8] == ToLe(v, 8)
    ensures Field(img, off + at, 8) == v
  {
    hide ToLe;
    assert forall i :: 0 <= i < |run| ==> run[i] == img[off + i];
    assert img[off + at..off + at + 8] == run[at..at + 8];
    Widths();
    LeRoundTrip(v, 8);
  }

  lemma SetCounterEffect(img: Image, counter: nat)
    requires Layout(img) && counter <= MAX64
    ensures var out := SetCounter(img, counter);
      && OnlyInode(img, out, RootIno(img)) && Blind(img, out)
      && Layout(out) && InodeCount(out) == InodeCount(img) && RootIno(out) == RootIno(img)
      && Counter(out) == counter
      && Id(out, RootIno(img)) == Id(img, RootIno(img)) && Revision(out, RootIno(img)) == Revision(img, RootIno(img))
  {
    hide Sb, Field, ToLe;
    var out, ino := SetCounter(img, counter), RootIno(img);
    RawWhole(img, ino);
    assert OnlyInode(img, out, ino);
    OnlyInodeBlind(img, out, ino);
    BlindHeader(img, out);
    var off := InodeOff(img, ino) + COUNTER_OFF;
    SpliceReads(img, off, ToLe(counter, 8));
    FieldOf(out, off, ToLe(counter, 8), 0, counter);
    AgreeField(img, out, off - 16, off, off - 16, 8);
    AgreeField(img, out, off - 16, off, off - 8, 8);
  }

  lemma SetVersionEffect(img: Image, ext: seq<Byte>)
    requires Layout(img) && |ext| == EXT_END - EXT_OFF
    ensures |img| >= EXT_END
    ensures var out := SetVersion(img, ext);
      && Blind(img, out) && Layout(out) && InodeCount(out) == InodeCount(img) && RootIno(out) == RootIno(img)
      && Sb(out, 1) == 5 && out[EXT_OFF..EXT_END] == ext
      && forall ino, k :: 0 <= ino < InodeCount(img) && 0 <= k < 3 ==> Word64(out, ino, k) == Word64(img, ino, k)
  {
    hide ToLe;
    RawWhole(img, RootIno(img));
    var mid := Splice(img, 4, ToLe(5, 4));
    var out := SetVersion(img, ext);
    SpliceReads(img, 4, ToLe(5, 4));
    SpliceReads(mid, EXT_OFF, ext);
    assert out[4..8] == mid[4..8] == ToLe(5, 4);
    Widths();
    LeRoundTrip(5, 4);
    assert Sb(out, 1) == 5;
    BlindVersion(img, out);
  }

  /** Edits in front of the inode table leave every identity word alone. */
  lemma BlindVersion(img: Image, out: Image)
    requires Layout(img) && |img| == |out|
    requires forall i :: 0 <= i < |img| && !(4 <= i < 8) && !(EXT_OFF <= i < EXT_END) ==> img[i] == out[i]
    ensures Blind(img, out) && Layout(out) && InodeCount(out) == InodeCount(img) && RootIno(out) == RootIno(img)
    ensures forall ino, k :: 0 <= ino < InodeCount(img) && 0 <= k < 3 ==> Word64(out, ino, k) == Word64(img, ino, k)
  {
    hide Sb, Field;
    assert Blind(img, out);
    BlindHeader(img, out);
    forall ino, k | 0 <= ino < InodeCount(img) && 0 <= k < 3 ensures Word64(out, ino, k) == Word64(img, ino, k) {
      RawWhole(img, ino);
      var off := InodeOff(img, ino) + ID_OFF + 8 * k;
      AgreeField(img, out, off, off + 8, off, 8);
    }
  }
}
