/** Where a v5 volume keeps its identities, and the fact the whole scheme rests on:
    two images that differ only there read the same, path by path and byte by byte. */
module IdentityBlind {
  import opened Bits
  import opened Bytes
  import opened LogitFs
  import opened VolumeWalk

  const ID_OFF: nat := 100
  const ID_LEN: nat := 24
  const EXT_OFF: nat := 52
  const EXT_END: nat := 76

  /** The regions fsck insists on: superblock, inode table and data follow each other inside
      the image (c/fs/logitfs/fsck.c fsck_super_valid). */
  ghost predicate Layout(img: Image) {
    && Sb(img, 7) >= 1
    && Table(img) + InodeCount(img) * INODE_SIZE <= DataStart(img) * BS <= |img|
    && RootIno(img) < InodeCount(img)
  }

  /** The version word, the volume extension, and 24 bytes of each inode. */
  ghost predicate IdentityByte(table: nat, count: nat, i: nat) {
    || 4 <= i < 8
    || 52 <= i < 76
    || (table <= i < table + count * 128 && 100 <= (i - table) % 128 < 124)
  }

  ghost predicate Blind(a: Image, b: Image) {
    && |a| == |b| && Layout(a)
    && forall i :: 0 <= i < |a| && !IdentityByte(Table(a), InodeCount(a), i) ==> a[i] == b[i]
  }

  lemma BlindSb(a: Image, b: Image, k: nat)
    requires Blind(a, b) && k < 13 && k != 1
    ensures Sb(a, k) == Sb(b, k)
  {
    forall i | 4 * k <= i < 4 * k + 4 ensures a[i] == b[i] {
      assert !IdentityByte(Table(a), InodeCount(a), i);
    }
    AgreeField(a, b, 4 * k, 4 * k + 4, 4 * k, 4);
  }

  lemma BlindHeader(a: Image, b: Image)
    requires Blind(a, b)
    ensures InodeCount(a) == InodeCount(b) && TotalBlocks(a) == TotalBlocks(b) && DataStart(a) == DataStart(b)
    ensures RootIno(a) == RootIno(b) && Table(a) == Table(b) && Layout(b)
  {
    hide Field;
    BlindSb(a, b, 3);
    BlindSb(a, b, 4);
    BlindSb(a, b, 7);
    BlindSb(a, b, 9);
    BlindSb(a, b, 10);
  }

  lemma RawWhole(img: Image, ino: nat)
    requires Layout(img) && ino < InodeCount(img)
    ensures InodeOff(img, ino) + INODE_SIZE <= |img| && |Raw(img, ino)| == INODE_SIZE
    ensures Raw(img, ino) == img[InodeOff(img, ino)..InodeOff(img, ino) + INODE_SIZE]
  {
    hide Sb;
    assert ino * INODE_SIZE + INODE_SIZE <= InodeCount(img) * INODE_SIZE;
  }

  /** The first hundred bytes of an inode are not identity bytes. */
  lemma BlindRaw(a: Image, b: Image, ino: nat)
    requires Blind(a, b) && ino < InodeCount(a)
    ensures |Raw(a, ino)| == |Raw(b, ino)| == INODE_SIZE
    ensures Agree(Raw(a, ino), Raw(b, ino), 0, ID_OFF)
    ensures Agree(Raw(a, ino), Raw(b, ino), ID_OFF + ID_LEN, INODE_SIZE)
  {
    hide Sb;
    BlindHeader(a, b);
    RawWhole(a, ino);
    RawWhole(b, ino);
    var off := InodeOff(a, ino);
    forall k | 0 <= k < INODE_SIZE && !(ID_OFF <= k < ID_OFF + ID_LEN) ensures Raw(a, ino)[k] == Raw(b, ino)[k] {
      NotIdentity(a, ino, k);
      assert Raw(a, ino)[k] == a[off + k] && Raw(b, ino)[k] == b[off + k];
    }
  }

  lemma NotIdentity(img: Image, ino: nat, k: nat)
    requires Layout(img) && ino < InodeCount(img) && k < INODE_SIZE && !(ID_OFF <= k < ID_OFF + ID_LEN)
    ensures !IdentityByte(Table(img), InodeCount(img), InodeOff(img, ino) + k)
  {
    hide Sb;
    assert (ino * INODE_SIZE + k) % INODE_SIZE == k;
  }

  lemma BlindInode(a: Image, b: Image, ino: nat)
    requires Blind(a, b)
    ensures GetInode(a, ino).Return? <==> GetInode(b, ino).Return?
    ensures GetInode(a, ino).Return? ==>
      && GetInode(a, ino).value.kind == GetInode(b, ino).value.kind
      && GetInode(a, ino).value.size == GetInode(b, ino).value.size
  {
    hide Sb, Blind, Raw, Field;
    BlindHeader(a, b);
    if ino < InodeCount(a) {
      BlindRaw(a, b, ino);
      AgreeField(Raw(a, ino), Raw(b, ino), 0, ID_OFF, 0, 2);
      AgreeField(Raw(a, ino), Raw(b, ino), 0, ID_OFF, 4, 4);
    }
  }

  lemma BlindBlock(a: Image, b: Image, n: nat)
    requires Blind(a, b)
    ensures GetBlock(a, n) == GetBlock(b, n)
  {
    hide Sb;
    BlindHeader(a, b);
    if DataStart(a) <= n < TotalBlocks(a) {
      assert n * BS >= DataStart(a) * BS;
      forall i | n * BS <= i < |a| ensures a[i] == b[i] {
        assert !IdentityByte(Table(a), InodeCount(a), i);
      }
      CutEqual(a, b, n * BS, (n + 1) * BS);
    }
  }

  lemma CutEqual(s: seq<Byte>, t: seq<Byte>, a: nat, b: nat)
    requires a <= b && |s| == |t| && forall i :: a <= i < |s| ==> s[i] == t[i]
    ensures Cut(s, a, b) == Cut(t, a, b)
  {}

  lemma BlindPointer(a: Image, b: Image, n: nat, j: nat)
    requires Blind(a, b) && j < PPB
    ensures Pointer(a, n, j) == Pointer(b, n, j)
  {
    hide Blind, GetBlock, Field;
    BlindBlock(a, b, n);
  }

  lemma BlindBlockOf(a: Image, b: Image, ra: seq<Byte>, rb: seq<Byte>, i: nat)
    requires Blind(a, b) && |ra| == |rb| == INODE_SIZE && Agree(ra, rb, 0, ID_OFF)
    ensures BlockOf(a, ra, i) == BlockOf(b, rb, i)
  {
    hide Blind, Field, Pointer, Agree;
    if i < NDIRECT {
      AgreeField(ra, rb, 0, ID_OFF, OFF_DIRECT + 4 * i, 4);
    } else if i < NDIRECT + PPB {
      AgreeField(ra, rb, 0, ID_OFF, OFF_INDIRECT, 4);
      BlindPointer(a, b, Field(ra, OFF_INDIRECT, 4), i - NDIRECT);
    } else if i < NDIRECT + PPB + PPB * PPB {
      AgreeField(ra, rb, 0, ID_OFF, OFF_DINDIRECT, 4);
      var k := i - NDIRECT - PPB;
      BlindPointer(a, b, Field(ra, OFF_DINDIRECT, 4), k / PPB);
      var p := Pointer(a, Field(ra, OFF_DINDIRECT, 4), k / PPB);
      if p.Return? { BlindPointer(a, b, p.value, k % PPB); }
    }
  }

  lemma {:induction false} BlindBlocks(a: Image, b: Image, ra: seq<Byte>, rb: seq<Byte>, n: nat)
    requires Blind(a, b) && |ra| == |rb| == INODE_SIZE && Agree(ra, rb, 0, ID_OFF)
    ensures Blocks(a, ra, n) == Blocks(b, rb, n)
  {
    hide Blind, BlockOf, GetBlock, Agree;
    if n > 0 {
      BlindBlocks(a, b, ra, rb, n - 1);
      BlindBlockOf(a, b, ra, rb, n - 1);
      if BlockOf(a, ra, n - 1).Return? { BlindBlock(a, b, BlockOf(a, ra, n - 1).value); }
    }
  }

  lemma BlindPayload(a: Image, b: Image, ino: nat)
    requires Blind(a, b)
    ensures Payload(a, ino) == Payload(b, ino)
  {
    hide Blind, Blocks, GetInode, Agree;
    BlindInode(a, b, ino);
    if GetInode(a, ino).Return? {
      BlindRaw(a, b, ino);
      BlindBlocks(a, b, Raw(a, ino), Raw(b, ino), BlockCount(GetInode(a, ino).value.size));
    }
  }

  lemma BlindDirectory(a: Image, b: Image, ino: nat)
    requires Blind(a, b)
    ensures Directory(a, ino) == Directory(b, ino)
  {
    hide Blind, GetInode, Payload, Records;
    BlindInode(a, b, ino);
    BlindPayload(a, b, ino);
  }

  lemma {:induction false} BlindWalkFrom(a: Image, b: Image, ino: nat, path: Path, st: WalkState)
    requires Blind(a, b)
    ensures WalkFrom(a, ino, path, st) == WalkFrom(b, ino, path, st)
    decreases Unseen(a, st.seen), 0, 0
  {
    hide Blind, GetInode, Directory, Put, Unseen;
    if ino !in st.seen {
      BlindInode(a, b, ino);
      BlindDirectory(a, b, ino);
      var n := GetInode(a, ino);
      if n.Return? && n.value.kind == T_DIR && Directory(a, ino).Return? {
        UnseenDrops(a, st.seen, ino);
        BlindWalkAll(a, b, Directory(a, ino).value, path,
                     WalkState(Put(st.rows, path, Node(ino, n.value.kind)), st.seen + {ino}));
      }
    }
  }

  lemma {:induction false} BlindWalkAll(a: Image, b: Image, es: seq<Entry>, path: Path, st: WalkState)
    requires Blind(a, b)
    ensures WalkAll(a, es, path, st) == WalkAll(b, es, path, st)
    decreases Unseen(a, st.seen), 1, |es|
  {
    hide Blind, Child, Unseen;
    if es != [] {
      BlindWalkFrom(a, b, es[0].child, Child(path, es[0].name), st);
      var r := WalkFrom(a, es[0].child, Child(path, es[0].name), st);
      if r.Return? {
        UnseenMono(a, st.seen, r.value.seen);
        BlindWalkAll(a, b, es[1..], path, r.value);
      }
    }
  }

  /** Editing identities changes neither the tree nor any content. */
  lemma BlindReaders(a: Image, b: Image)
    requires Blind(a, b)
    ensures Walk(a) == Walk(b) && Layout(b) && Table(a) == Table(b) && RootIno(a) == RootIno(b)
    ensures InodeCount(a) == InodeCount(b)
    ensures forall n :: Payload(a, n) == Payload(b, n)
    ensures forall n :: Directory(a, n) == Directory(b, n)
  {
    hide Blind, WalkFrom, Payload, Directory, Sb;
    BlindHeader(a, b);
    BlindWalkFrom(a, b, RootIno(a), ROOT, NOTHING);
    forall n ensures Payload(a, n) == Payload(b, n) { BlindPayload(a, b, n); }
    forall n ensures Directory(a, n) == Directory(b, n) { BlindDirectory(a, b, n); }
  }
}
