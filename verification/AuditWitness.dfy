/** Two volumes that both readers open and whose only file lookup finds, on which the licence audit's
    reader (tools/license_audit.py) and payload (tools/disk_profile.py) differ. */
module AuditWitness {
  import opened Bits
  import opened Outcomes
  import opened Bytes
  import opened LogitFs
  import opened AuditReader
  import opened AuditAgreement

  // ----------------------------------------------------------- opening and looking up --

  const VERSION: nat := 4

  /** Both readers open the image: magic, format version and block size. */
  predicate Opens(img: Image) {
    Sb(img, 0) == MAGIC && Sb(img, 1) == VERSION && Sb(img, 2) == BS
  }

  /** The first n records of a directory block, without free ones and dot entries. */
  function BlockEntries(data: seq<Byte>, n: nat): (es: seq<Entry>)
    requires n * DIRENT <= |data|
  {
    if n == 0 then []
    else
      var rec := data[(n - 1) * DIRENT..n * DIRENT];
      var name, child := UpToNul(rec[4..]), Field(rec, 0, 4);
      BlockEntries(data, n - 1)
      + if child == 0 || name == [] || name == [DOT] || name == [DOT, DOT] then [] else [Entry(name, child)]
  }

  /** _readdir's loop over the generator; a directory block must be there as far as it is used. */
  function ReadDir(img: Image, blocks: seq<nat>, remain: nat): (r: Outcome<seq<Entry>>) {
    if blocks == [] || remain == 0 then Return([])
    else
      var data, n := FileBlock(img, blocks[0]), Min(BS, remain) / DIRENT;
      var rest := ReadDir(img, blocks[1..], remain - Min(BS, remain));
      if |data| < n * DIRENT || rest.Raise? then Raise else Return(BlockEntries(data, n) + rest.value)
  }

  /** lookup of one name in the root directory. */
  function Lookup(img: Image, name: seq<Byte>): (r: Option<nat>) {
    var raw := AuditRaw(img, RootIno(img));
    if |raw| < RAW_MIN || Field(raw, 0, 2) != T_DIR then None
    else
      var s, size := BlockStream(img, raw), Field(raw, 4, 4);
      var es := ReadDir(img, s.blocks, size);
      if es.Raise? || (s.failed && |s.blocks| <= BlockCount(size)) then None else Named(es.value, name)
  }

  /** The last entry with this name. */
  function Named(es: seq<Entry>, name: seq<Byte>): (r: Option<nat>) {
    if es == [] then None
    else if es[|es| - 1].name == name then Some(es[|es| - 1].child)
    else Named(es[..|es| - 1], name)
  }

  // ------------------------------------------------------------------ the two volumes --

  const INO: nat := 1
  const INO_AT: nat := 8320
  const NAME: seq<Byte> := [102]

  /** Superblock, block 1 the bitmap, block 2 the inode table of 32 inodes, data from block 3 on. Inode 0
      is the root directory; its block 3 lists inode 1, which is a file. */
  function VolumeByte(total: Byte, i: nat): (b: Byte) {
    match i
    case 0 => 0x49
    case 1 => 0x47
    case 2 => 0x4F
    case 3 => 0x4C
    case 4 => 4        // version
    case 9 => 16       // block size 4096
    case 12 => total   // blocks
    case 16 => 32      // inodes
    case 20 => 1       // bitmap: start and length
    case 24 => 1
    case 28 => 2       // inode table: start and length
    case 32 => 1
    case 36 => 3       // data
    case 8192 => 2     // inode 0: a directory of one record in block 3
    case 8196 => 64
    case 8200 => 3
    case 8320 => 1     // inode 1: a file
    case 12288 => 1    // the record: inode 1, named f
    case 12292 => 102
    case _ => 0
  }

  /** Everything but inode 1 is as above. */
  ghost predicate IsVolume(img: Image, total: Byte) {
    && |img| >= 4 * BS
    && forall i :: 0 <= i < |img| && !(INO_AT <= i < INO_AT + INODE_SIZE) ==> img[i] == VolumeByte(total, i)
  }

  const STRAY_LEN: nat := 16384

  /** An empty file whose unused indirect pointer names block 7, behind the end of the image. */
  function StrayImage(): (img: Image)
    ensures |img| == STRAY_LEN && IsVolume(img, 4)
    ensures forall i :: INO_AT <= i < INO_AT + INODE_SIZE ==> img[i] == if i == 8376 then 7 else VolumeByte(4, i)
  {
    seq(STRAY_LEN, i requires 0 <= i => if i == 8376 then 7 else VolumeByte(4, i))
  }

  const CUT_LEN: nat := 24480

  function CutByte(i: nat): (b: Byte) {
    match i
    case 8324 => 10    // size 4106
    case 8325 => 16
    case 8328 => 5     // direct pointers
    case 8332 => 4
    case _ => VolumeByte(6, i)
  }

  /** A file of 4106 bytes in blocks 5 and 4, on an image that ends 4000 bytes into block 5. */
  function CutImage(): (img: Image)
    ensures |img| == CUT_LEN && IsVolume(img, 6)
    ensures forall i :: INO_AT <= i < INO_AT + INODE_SIZE ==> img[i] == CutByte(i)
  {
    seq(CUT_LEN, i requires 0 <= i => CutByte(i))
  }

  // ----------------------------------------------------------------- reading the words --

  lemma {:induction false} ZeroLe(s: seq<Byte>)
    requires forall i :: 0 <= i < |s| ==> s[i] == 0
    ensures FromLe(s) == 0
  {
    if s != [] { ZeroLe(s[1..]); }
  }

  /** A field whose bytes after the first are zero. */
  lemma LowByte(s: seq<Byte>, off: nat, n: nat)
    requires n > 0 && off + n <= |s| && forall i :: off < i < off + n ==> s[i] == 0
    ensures Field(s, off, n) == s[off]
  {
    ZeroLe(s[off..off + n][1..]);
  }

  lemma VolumeWords(img: Image, total: Byte)
    requires IsVolume(img, total)
    ensures Opens(img) && TotalBlocks(img) == total && InodeCount(img) == 32
    ensures Sb(img, 7) == 2 && DataStart(img) == 3 && RootIno(img) == 0
  {
    hide Field;
    FourBytes(img, 0, 0x49, 0x47, 0x4F, 0x4C);
    FourBytes(img, 4, 4, 0, 0, 0);
    FourBytes(img, 8, 0, 16, 0, 0);
    FourBytes(img, 12, total, 0, 0, 0);
    FourBytes(img, 16, 32, 0, 0, 0);
    FourBytes(img, 28, 2, 0, 0, 0);
    FourBytes(img, 36, 3, 0, 0, 0);
    FourBytes(img, 40, 0, 0, 0, 0);
  }

  lemma RawIs(img: Image, total: Byte, ino: nat)
    requires IsVolume(img, total) && ino < 2 && Sb(img, 7) == 2
    ensures var at := 8192 + ino * INODE_SIZE; Raw(img, ino) == img[at..at + INODE_SIZE]
  {
    hide Sb;
  }

  /** The direct pointers of an inode, byte by byte below 256. */
  lemma DirectIs(raw: seq<Byte>, p: seq<nat>)
    requires |raw| >= RAW_MIN && |p| == NDIRECT
    requires forall i :: 0 <= i < NDIRECT ==> raw[OFF_DIRECT + 4 * i] == p[i]
    requires forall i :: OFF_DIRECT <= i < OFF_INDIRECT && i % 4 != 0 ==> raw[i] == 0
    ensures Direct(raw) == p
  {
    hide Field;
    forall i | 0 <= i < NDIRECT ensures Direct(raw)[i] == p[i] {
      LowByte(raw, OFF_DIRECT + 4 * i, 4);
    }
  }

  lemma {:induction false} AllZero(ptrs: seq<nat>)
    requires forall i :: 0 <= i < |ptrs| ==> ptrs[i] == 0
    ensures NonZero(ptrs) == []
  {
    if ptrs != [] { AllZero(ptrs[1..]); }
  }

  /** The file is the root directory's only entry. */
  lemma FileFound(img: Image, total: Byte)
    requires IsVolume(img, total) && RootIno(img) == 0 && Sb(img, 7) == 2
    ensures Lookup(img, NAME) == Some(INO)
  {
    hide Field, Sb, RootIno, AuditRaw, BlockStream, ReadDir, Named;
    SameInode(img, 0);
    RawIs(img, total, 0);
    var raw := Raw(img, 0);
    assert forall i :: 0 <= i < INODE_SIZE ==> raw[i] == img[8192 + i] == VolumeByte(total, 8192 + i);
    LowByte(raw, 0, 2);
    LowByte(raw, 4, 4);
    RootStream(img, raw);
    RootEntries(img, total);
    OnlyNamed();
  }

  lemma OnlyNamed()
    ensures Named([Entry(NAME, INO)], NAME) == Some(INO)
  {}

  lemma RootStream(img: Image, raw: seq<Byte>)
    requires |raw| == INODE_SIZE && raw[8] == 3 && forall i :: 9 <= i < INODE_SIZE ==> raw[i] == 0
    ensures BlockStream(img, raw) == Stream([3], false)
  {
    hide Field, Direct, NonZero;
    LowByte(raw, OFF_INDIRECT, 4);
    LowByte(raw, OFF_DINDIRECT, 4);
    var p: seq<nat> := [3, 0, 0, 0, 0, 0, 0, 0, 0, 0, 0, 0];
    DirectIs(raw, p);
    FirstOnly(p);
  }

  lemma FirstOnly(p: seq<nat>)
    requires p != [] && p[0] != 0 && forall i :: 1 <= i < |p| ==> p[i] == 0
    ensures NonZero(p) == [p[0]]
  {
    AllZero(p[1..]);
  }

  lemma RootEntries(img: Image, total: Byte)
    requires IsVolume(img, total)
    ensures ReadDir(img, [3], DIRENT) == Return([Entry(NAME, INO)])
  {
    hide Field, UpToNul;
    var data := FileBlock(img, 3);
    assert data == img[12288..16384];
    var rec := data[0..DIRENT];
    assert rec == img[12288..12352];
    assert forall i :: 0 <= i < DIRENT ==> rec[i] == VolumeByte(total, 12288 + i);
    LowByte(rec, 0, 4);
    ShortName(rec[4..]);
    assert BlockEntries(data, 0) == [];
    var es := BlockEntries(data, 1);
    assert es == [Entry(NAME, INO)];
    var one: seq<nat> := [3];
    assert one[1..] == [] && ReadDir(img, [], 0) == Return([]) && es + [] == es;
  }

  lemma ShortName(s: seq<Byte>)
    requires |s| >= 2 && s[0] == 102 && s[1] == 0
    ensures UpToNul(s) == NAME
  {
    assert UpToNul(s[1..]) == [];
  }

  // ------------------------------------------------------------------- where they differ --

  /** The empty file reads as empty with one reader and raises with the other. */
  lemma StrayDiffers()
    ensures var img := StrayImage();
      && Opens(img) && Lookup(img, NAME) == Some(INO) && |img| >= TotalBlocks(img) * BS
      && Payload(img, INO) == Return([]) && AuditFile(img, INO) == Raise
  {
    hide Field, Opens, Sb, StrayImage, VolumeByte, IsVolume, Lookup;
    var img := StrayImage();
    VolumeWords(img, 4);
    FileFound(img, 4);
    StrayInode(img);
    var raw := Raw(img, INO);
    assert GetInode(img, INO) == Return(Inode(T_FILE, 0, raw));
    assert BlockCount(0) == 0 && Blocks(img, raw, 0) == Return([]);
    SameInode(img, INO);
    StrayStream(img, raw);
  }

  lemma StrayInode(img: Image)
    requires img == StrayImage() && Sb(img, 7) == 2
    ensures var raw := Raw(img, INO);
      && |raw| == INODE_SIZE && Field(raw, 0, 2) == T_FILE && Field(raw, 4, 4) == 0 && Field(raw, OFF_INDIRECT, 4) == 7
      && forall i :: 8 <= i < 56 ==> raw[i] == 0
  {
    hide Field, Sb, StrayImage;
    RawIs(img, 4, INO);
    var raw := Raw(img, INO);
    assert raw[0] == 1 && raw[OFF_INDIRECT] == 7;
    assert forall i :: 1 <= i < INODE_SIZE && i != OFF_INDIRECT ==> raw[i] == 0;
    LowByte(raw, 0, 2);
    LowByte(raw, 4, 4);
    LowByte(raw, OFF_INDIRECT, 4);
  }

  lemma StrayStream(img: Image, raw: seq<Byte>)
    requires |img| == STRAY_LEN && |raw| == INODE_SIZE && Field(raw, OFF_INDIRECT, 4) == 7
    requires forall i :: 8 <= i < 56 ==> raw[i] == 0
    ensures BlockStream(img, raw) == Stream([], true)
  {
    hide Field, Direct, NonZero;
    var p: seq<nat> := [0, 0, 0, 0, 0, 0, 0, 0, 0, 0, 0, 0];
    DirectIs(raw, p);
    AllZero(p);
    assert PointerStream(img, 7) == Stream([], true);
  }

  /** On the image that ends early both readers return, but not the same bytes, and payload's result is
      not the file the block map describes. */
  lemma CutDiffers()
    ensures var img := CutImage();
      && Opens(img) && Lookup(img, NAME) == Some(INO)
      && Payload(img, INO).Return? && AuditFile(img, INO).Return? && AuditFile(img, INO) != Payload(img, INO)
      && !IsFile(img, Raw(img, INO), 4106, Payload(img, INO).value)
  {
    hide Field, Opens, Sb, CutImage, IsVolume, VolumeByte, Lookup, BlockOf, StrayBlock, CutShort, IsFile;
    var img := CutImage();
    VolumeWords(img, 6);
    FileFound(img, 6);
    CutInode(img);
    var raw := Raw(img, INO);
    assert GetInode(img, INO) == Return(Inode(T_FILE, 4106, raw));
    CutMap(img, raw);
    CutConditions(img, raw);
    assert Blocks(img, raw, 0) == Return([]);
    assert Blocks(img, raw, 1).Return? && Blocks(img, raw, 2).Return?;
    ReadersAgree(img, INO);
    PayloadBytes(img, INO);
  }

  lemma CutInode(img: Image)
    requires img == CutImage() && Sb(img, 7) == 2
    ensures var raw := Raw(img, INO);
      && |raw| == INODE_SIZE && Field(raw, 0, 2) == T_FILE && Field(raw, 4, 4) == 4106
      && Direct(raw) == [5, 4, 0, 0, 0, 0, 0, 0, 0, 0, 0, 0]
      && Field(raw, OFF_INDIRECT, 4) == 0 && Field(raw, OFF_DINDIRECT, 4) == 0
  {
    hide Field, Sb, CutImage, Direct, CutByte;
    RawIs(img, 6, INO);
    var raw := Raw(img, INO);
    assert forall i :: 0 <= i < INODE_SIZE ==> raw[i] == CutByte(INO_AT + i);
    CutFields(raw);
    CutDirect(raw);
  }

  lemma CutDirect(raw: seq<Byte>)
    requires |raw| == INODE_SIZE && forall i :: 0 <= i < INODE_SIZE ==> raw[i] == CutByte(INO_AT + i)
    ensures Direct(raw) == [5, 4, 0, 0, 0, 0, 0, 0, 0, 0, 0, 0]
  {
    hide Field, Direct;
    DirectIs(raw, [5, 4, 0, 0, 0, 0, 0, 0, 0, 0, 0, 0]);
  }

  lemma CutFields(raw: seq<Byte>)
    requires |raw| == INODE_SIZE && forall i :: 0 <= i < INODE_SIZE ==> raw[i] == CutByte(INO_AT + i)
    ensures Field(raw, 0, 2) == T_FILE && Field(raw, 4, 4) == 4106
    ensures Field(raw, OFF_INDIRECT, 4) == 0 && Field(raw, OFF_DINDIRECT, 4) == 0
  {
    hide Field;
    LowByte(raw, 0, 2);
    FourBytes(raw, 4, 10, 16, 0, 0);
    LowByte(raw, OFF_INDIRECT, 4);
    LowByte(raw, OFF_DINDIRECT, 4);
  }

  lemma CutMap(img: Image, raw: seq<Byte>)
    requires |raw| == INODE_SIZE && Direct(raw) == [5, 4, 0, 0, 0, 0, 0, 0, 0, 0, 0, 0]
    ensures BlockOf(img, raw, 0) == Return(5) && BlockOf(img, raw, 1) == Return(4)
  {
    hide Field;
    assert Direct(raw)[0] == 5 && Direct(raw)[1] == 4;
  }

  lemma CutConditions(img: Image, raw: seq<Byte>)
    requires |img| == CUT_LEN && |raw| == INODE_SIZE
    requires Field(raw, OFF_INDIRECT, 4) == 0 && Field(raw, OFF_DINDIRECT, 4) == 0
    requires BlockOf(img, raw, 0) == Return(5) && BlockOf(img, raw, 1) == Return(4)
    ensures BlockCount(4106) == 2 && CutShort(img, raw, 4106) && !StrayBlock(img, raw, 2) && !HoldsFile(img, raw, 4106)
  {
    hide Field, BlockOf, FileBlock;
    assert BlockCount(4106) == 2 && Used(4106, 1) == 10 && Used(4106, 0) == BS;
    assert !Starts(img, raw, 0, BS) && Starts(img, raw, 1, 11);
  }
}
