/** tools/disk_profile.py CheckedImage: reading inodes, file contents and directories
    out of a LogitFS image. Anything the tool refuses is Raise. */
module LogitFs {
  import opened Bits
  import opened Outcomes
  import opened Bytes
  import Utf8

  const BS: nat := 4096
  const INODE_SIZE: nat := 128
  const NDIRECT: nat := 12
  const PPB: nat := 1024
  const DIRENT: nat := 64
  const OFF_DIRECT: nat := 8
  const OFF_INDIRECT: nat := 56
  const OFF_DINDIRECT: nat := 60
  const MAGIC: nat := 0x4C4F4749
  const T_FILE: nat := 1
  const T_DIR: nat := 2

  type Image = s: seq<Byte> | |s| >= 52 witness seq(52, _ => 0)

  /** Word i of the superblock. */
  function Sb(img: Image, i: nat): (v: nat)
    requires i < 13
  {
    Field(img, 4 * i, 4)
  }

  function InodeCount(img: Image): (n: nat) { Sb(img, 4) }
  function TotalBlocks(img: Image): (n: nat) { Sb(img, 3) }
  function DataStart(img: Image): (n: nat) { Sb(img, 9) }
  function RootIno(img: Image): (n: nat) { Sb(img, 10) }
  function Table(img: Image): (off: nat) { Sb(img, 7) * BS }
  function InodeOff(img: Image, ino: nat): (off: nat) { Table(img) + ino * INODE_SIZE }

  function Raw(img: Image, ino: nat): (raw: seq<Byte>)
    ensures |raw| <= INODE_SIZE
  {
    Cut(img, InodeOff(img, ino), InodeOff(img, ino) + INODE_SIZE)
  }

  datatype Inode = Inode(kind: nat, size: nat, raw: seq<Byte>)

  /** inode(number): in range, readable, and a file or a directory. */
  function GetInode(img: Image, ino: nat): (r: Outcome<Inode>)
    ensures r.Return? ==> ino < InodeCount(img) && |r.value.raw| >= 8 && r.value.raw == Raw(img, ino)
    ensures r.Return? ==> r.value.kind == T_FILE || r.value.kind == T_DIR
  {
    if ino >= InodeCount(img) then Raise
    else
      var raw := Raw(img, ino);
      if |raw| < 8 then Raise
      else
        var kind := Field(raw, 0, 2);
        if kind != T_FILE && kind != T_DIR then Raise
        else Return(Inode(kind, Field(raw, 4, 4), raw))
  }

  /** block(number): a data block, cut short at the end of the image. */
  function GetBlock(img: Image, b: nat): (r: Outcome<seq<Byte>>)
    ensures r.Return? ==> DataStart(img) <= b < TotalBlocks(img) && |r.value| <= BS
  {
    if !(DataStart(img) <= b < TotalBlocks(img)) then Raise
    else Return(Cut(img, b * BS, (b + 1) * BS))
  }

  /** Pointer j of an indirect block; unpacking needs the whole block. */
  function Pointer(img: Image, b: nat, j: nat): (r: Outcome<nat>)
    requires j < PPB
  {
    var blk := GetBlock(img, b);
    if blk.Raise? || |blk.value| != BS then Raise else Return(Field(blk.value, 4 * j, 4))
  }

  /** The block number behind logical block i: 12 direct, 1024 indirect, 1024 * 1024 double indirect. */
  function BlockOf(img: Image, raw: seq<Byte>, i: nat): (r: Outcome<nat>) {
    if i < NDIRECT then
      if |raw| < OFF_INDIRECT then Raise else Return(Field(raw, OFF_DIRECT + 4 * i, 4))
    else if i < NDIRECT + PPB then
      if |raw| < OFF_DINDIRECT then Raise
      else Pointer(img, Field(raw, OFF_INDIRECT, 4), i - NDIRECT)
    else if i < NDIRECT + PPB + PPB * PPB then
      if |raw| < OFF_DINDIRECT + 4 then Raise
      else
        var k := i - NDIRECT - PPB;
        match Pointer(img, Field(raw, OFF_DINDIRECT, 4), k / PPB)
        case Raise => Raise
        case Return(b) => Pointer(img, b, k % PPB)
    else Raise
  }

  /** The first n logical blocks, one after the other. */
  function Blocks(img: Image, raw: seq<Byte>, n: nat): (r: Outcome<seq<Byte>>) {
    if n == 0 then Return([])
    else match Blocks(img, raw, n - 1)
      case Raise => Raise
      case Return(front) =>
        match BlockOf(img, raw, n - 1)
        case Raise => Raise
        case Return(b) =>
          match GetBlock(img, b)
          case Raise => Raise
          case Return(blk) => Return(front + blk)
  }

  function BlockCount(size: nat): (n: nat)
    ensures n * BS >= size && (n > 0 ==> (n - 1) * BS < size)
  {
    (size + BS - 1) / BS
  }

  /** What payload promises: the first `size` bytes under the block map. */
  function Payload(img: Image, ino: nat): (r: Outcome<seq<Byte>>) {
    match GetInode(img, ino)
    case Raise => Raise
    case Return(node) =>
      if |node.raw| < OFF_INDIRECT then Raise
      else match Blocks(img, node.raw, BlockCount(node.size))
        case Raise => Raise
        case Return(all) => Return(Cut(all, 0, node.size))
  }

  // ----------------------------------------------------------- reading a file --

  lemma {:induction false} BlocksRaise(img: Image, raw: seq<Byte>, n: nat, i: nat)
    requires i < n
    requires BlockOf(img, raw, i).Raise? || GetBlock(img, BlockOf(img, raw, i).value).Raise?
    ensures Blocks(img, raw, n).Raise?
  {
    hide BlockOf, GetBlock;
    if i < n - 1 { BlocksRaise(img, raw, n - 1, i); }
  }

  /** The first n pointers of an indirect block, read as a whole. */
  method Pointers(img: Image, b: nat, n: nat) returns (r: Outcome<seq<nat>>)
    requires 0 < n <= PPB
    ensures r.Raise? ==> forall j :: 0 <= j < PPB ==> Pointer(img, b, j).Raise?
    ensures r.Return? ==> |r.value| == n && forall j :: 0 <= j < n ==> Pointer(img, b, j) == Return(r.value[j])
  {
    var blk := GetBlock(img, b);
    if blk.Raise? || |blk.value| != BS {
      return Raise;
    }
    var ptrs := [];
    for j := 0 to n
      invariant |ptrs| == j && forall k :: 0 <= k < j ==> Pointer(img, b, k) == Return(ptrs[k])
    {
      ptrs := ptrs + [Field(blk.value, 4 * j, 4)];
    }
    r := Return(ptrs);
  }

  /** blocks are the numbers of the first |blocks| logical blocks. */
  ghost predicate Mapped(img: Image, raw: seq<Byte>, blocks: seq<nat>) {
    forall k :: 0 <= k < |blocks| ==> BlockOf(img, raw, k) == Return(blocks[k])
  }

  method DoubleIndirect(img: Image, raw: seq<Byte>, blocks: seq<nat>, count: nat) returns (r: Outcome<seq<nat>>)
    requires |raw| >= OFF_DINDIRECT + 4 && Mapped(img, raw, blocks)
    requires |blocks| == NDIRECT + PPB < count <= NDIRECT + PPB + PPB * PPB
    ensures r.Raise? ==> Blocks(img, raw, count).Raise?
    ensures r.Return? ==> |r.value| == count && Mapped(img, raw, r.value)
  {
    hide Pointer, GetBlock, Field;
    var remaining := count - |blocks|;
    var n := (remaining + PPB - 1) / PPB;
    var outer := Field(raw, OFF_DINDIRECT, 4);
    var inners := Pointers(img, outer, n);
    if inners.Raise? {
      BlocksRaise(img, raw, count, NDIRECT + PPB);
      return Raise;
    }
    var all := blocks;
    for m := 0 to n
      invariant |all| == if m == n then count else NDIRECT + PPB + m * PPB
      invariant Mapped(img, raw, all)
    {
      var take := if count - |all| < PPB then count - |all| else PPB;
      var ptrs := Pointers(img, inners.value[m], take);
      if ptrs.Raise? {
        InnerSlot(img, raw, m, 0, inners.value[m]);
        BlocksRaise(img, raw, count, NDIRECT + PPB + m * PPB);
        return Raise;
      }
      forall k | |all| <= k < |all| + take ensures BlockOf(img, raw, k) == Return((all + ptrs.value)[k]) {
        InnerSlot(img, raw, m, k - |all|, inners.value[m]);
      }
      all := all + ptrs.value;
    }
    r := Return(all);
  }

  lemma InnerSlot(img: Image, raw: seq<Byte>, m: nat, j: nat, inner: nat)
    requires |raw| >= OFF_DINDIRECT + 4 && m < PPB && j < PPB
    requires Pointer(img, Field(raw, OFF_DINDIRECT, 4), m) == Return(inner)
    ensures BlockOf(img, raw, NDIRECT + PPB + m * PPB + j) == Pointer(img, inner, j)
  {
    assert (m * PPB + j) / PPB == m && (m * PPB + j) % PPB == j;
  }

  /** The pointer-collecting part of payload. */
  method CollectBlocks(img: Image, raw: seq<Byte>, count: nat) returns (r: Outcome<seq<nat>>)
    requires |raw| >= OFF_INDIRECT
    ensures r.Raise? ==> Blocks(img, raw, count).Raise?
    ensures r.Return? ==> |r.value| == count && Mapped(img, raw, r.value)
  {
    if count > NDIRECT + PPB + PPB * PPB {
      BlocksRaise(img, raw, count, NDIRECT + PPB + PPB * PPB);
      return Raise;
    }
    var blocks := [];
    for i := 0 to if count < NDIRECT then count else NDIRECT
      invariant |blocks| == i && Mapped(img, raw, blocks)
    {
      blocks := blocks + [Field(raw, OFF_DIRECT + 4 * i, 4)];
    }
    if count > NDIRECT {
      if |raw| < OFF_DINDIRECT {
        BlocksRaise(img, raw, count, NDIRECT);
        return Raise;
      }
      var n := if count - NDIRECT < PPB then count - NDIRECT else PPB;
      var ptrs := Pointers(img, Field(raw, OFF_INDIRECT, 4), n);
      if ptrs.Raise? {
        BlocksRaise(img, raw, count, NDIRECT);
        return Raise;
      }
      blocks := blocks + ptrs.value;
    }
    if count > |blocks| {
      if |raw| < OFF_DINDIRECT + 4 {
        BlocksRaise(img, raw, count, NDIRECT + PPB);
        return Raise;
      }
      r := DoubleIndirect(img, raw, blocks, count);
      return;
    }
    r := Return(blocks);
  }

  /** payload(number). */
  method ReadPayload(img: Image, ino: nat) returns (r: Outcome<seq<Byte>>)
    ensures r == Payload(img, ino)
  {
    var node := GetInode(img, ino);
    if node.Raise? || |node.value.raw| < OFF_INDIRECT {
      return Raise;
    }
    var raw, count := node.value.raw, BlockCount(node.value.size);
    var blocks := CollectBlocks(img, raw, count);
    if blocks.Raise? {
      return Raise;
    }
    var data := [];
    for i := 0 to count
      invariant Blocks(img, raw, i) == Return(data)
    {
      var blk := GetBlock(img, blocks.value[i]);
      if blk.Raise? {
        BlocksRaise(img, raw, count, i);
        return Raise;
      }
      data := data + blk.value;
    }
    r := Return(Cut(data, 0, node.value.size));
  }

  /** v is the byte that the block map names for offset i of a file. */
  ghost predicate Located(img: Image, raw: seq<Byte>, i: nat, v: Byte) {
    && BlockOf(img, raw, i / BS).Return?
    && var b := BlockOf(img, raw, i / BS).value;
    && DataStart(img) <= b < TotalBlocks(img) && b * BS + i % BS < |img|
    && v == img[b * BS + i % BS]
  }

  /** The first n logical blocks lie whole in the image. */
  ghost predicate WholeBlocks(img: Image, raw: seq<Byte>, n: nat) {
    forall k :: 0 <= k < n ==> BlockOf(img, raw, k).Return? && (BlockOf(img, raw, k).value + 1) * BS <= |img|
  }

  /** How much of logical block k a file of this size uses. */
  function Used(size: nat, k: nat): (n: nat)
    requires k < BlockCount(size)
    ensures 0 < n <= BS && (k + 1 < BlockCount(size) ==> n == BS)
  {
    if size - k * BS < BS then size - k * BS else BS
  }

  /** The image holds every byte the file uses. */
  ghost predicate HoldsFile(img: Image, raw: seq<Byte>, size: nat) {
    forall k :: 0 <= k < BlockCount(size) ==>
      BlockOf(img, raw, k).Return? && BlockOf(img, raw, k).value * BS + Used(size, k) <= |img|
  }

  /** p is the file the block map describes: its size, and every byte the one the map names. */
  ghost predicate IsFile(img: Image, raw: seq<Byte>, size: nat, p: seq<Byte>) {
    |p| == size && forall i :: 0 <= i < size ==> Located(img, raw, i, p[i])
  }

  /** Whenever payload returns, it returns the file the block map describes exactly when the image
      holds every byte of it; an image cut short gives a shorter or shifted result. */
  lemma PayloadBytes(img: Image, ino: nat)
    requires Payload(img, ino).Return?
    ensures var raw, size := Raw(img, ino), GetInode(img, ino).value.size;
      HoldsFile(img, raw, size) <==> IsFile(img, raw, size, Payload(img, ino).value)
  {
    hide BlockOf, Blocks;
    var raw, size := Raw(img, ino), GetInode(img, ino).value.size;
    if HoldsFile(img, raw, size) && size > 0 {
      HeldFile(img, raw, size);
    }
    if IsFile(img, raw, size, Payload(img, ino).value) {
      FileHeld(img, raw, size, Payload(img, ino).value);
    }
    if size == 0 { NoBlocks(img, raw); }
  }

  lemma NoBlocks(img: Image, raw: seq<Byte>)
    ensures Blocks(img, raw, 0) == Return([]) && BlockCount(0) == 0
  {}

  lemma FileHeld(img: Image, raw: seq<Byte>, size: nat, p: seq<Byte>)
    requires IsFile(img, raw, size, p)
    ensures HoldsFile(img, raw, size)
  {
    hide BlockOf;
    forall k | 0 <= k < BlockCount(size)
      ensures BlockOf(img, raw, k).Return? && BlockOf(img, raw, k).value * BS + Used(size, k) <= |img|
    {
      var i := k * BS + Used(size, k) - 1;
      assert i / BS == k && i % BS == Used(size, k) - 1;
      assert Located(img, raw, i, p[i]);
    }
  }

  lemma HeldFile(img: Image, raw: seq<Byte>, size: nat)
    requires size > 0 && HoldsFile(img, raw, size) && Blocks(img, raw, BlockCount(size)).Return?
    ensures IsFile(img, raw, size, Cut(Blocks(img, raw, BlockCount(size)).value, 0, size))
  {
    hide BlockOf, Located, GetBlock;
    var m: nat := BlockCount(size) - 1;
    forall k | 0 <= k < m ensures BlockOf(img, raw, k).Return? && (BlockOf(img, raw, k).value + 1) * BS <= |img| {
      assert Used(size, k) == BS;
    }
    BlocksBytes(img, raw, m);
    var front, b, used := Blocks(img, raw, m).value, BlockOf(img, raw, m).value, Used(size, m);
    var blk := GetBlock(img, b).value;
    BlockCut(img, b, used);
    var p := Cut(front + blk, 0, size);
    forall i | 0 <= i < size ensures Located(img, raw, i, p[i]) {
      if i >= |front| {
        var k := i - |front|;
        assert p[i] == blk[k];
        BlockByte(img, raw, m, k, b);
      }
    }
  }

  lemma BlockCut(img: Image, b: nat, used: nat)
    requires GetBlock(img, b).Return? && b * BS + used <= |img| && used <= BS
    ensures |GetBlock(img, b).value| >= used
    ensures forall k :: 0 <= k < used ==> GetBlock(img, b).value[k] == img[b * BS + k]
    ensures DataStart(img) <= b < TotalBlocks(img)
  {}

  lemma {:induction false} BlocksBytes(img: Image, raw: seq<Byte>, n: nat)
    requires WholeBlocks(img, raw, n) && Blocks(img, raw, n).Return?
    ensures |Blocks(img, raw, n).value| == n * BS
    ensures forall i :: 0 <= i < n * BS ==> Located(img, raw, i, Blocks(img, raw, n).value[i])
  {
    hide BlockOf, Located, GetBlock;
    if n > 0 {
      BlocksBytes(img, raw, n - 1);
      var b := BlockOf(img, raw, n - 1).value;
      var blk := GetBlock(img, b).value;
      BlockCut(img, b, BS);
      forall k | 0 <= k < BS ensures Located(img, raw, (n - 1) * BS + k, blk[k]) {
        BlockByte(img, raw, n - 1, k, b);
      }
      var front := Blocks(img, raw, n - 1).value;
      forall i | 0 <= i < n * BS ensures Located(img, raw, i, (front + blk)[i]) {
        if i >= |front| { assert Located(img, raw, (n - 1) * BS + (i - |front|), blk[i - |front|]); }
      }
    }
  }

  /** An image that holds all its blocks holds every block it returns. */
  lemma {:induction false} AllWhole(img: Image, raw: seq<Byte>, n: nat)
    requires |img| >= TotalBlocks(img) * BS && Blocks(img, raw, n).Return?
    ensures WholeBlocks(img, raw, n)
  {
    hide BlockOf, GetBlock;
    if n > 0 {
      AllWhole(img, raw, n - 1);
      var blk := WholeBlock(img, BlockOf(img, raw, n - 1).value);
    }
  }

  lemma WholeBlock(img: Image, b: nat) returns (blk: seq<Byte>)
    requires |img| >= TotalBlocks(img) * BS && GetBlock(img, b).Return?
    ensures GetBlock(img, b).value == blk && |blk| == BS && DataStart(img) <= b < TotalBlocks(img)
    ensures (b + 1) * BS <= |img| && blk == img[b * BS..(b + 1) * BS]
  {
    assert (b + 1) * BS <= TotalBlocks(img) * BS;
    blk := GetBlock(img, b).value;
  }

  lemma BlockByte(img: Image, raw: seq<Byte>, m: nat, k: nat, b: nat)
    requires k < BS && BlockOf(img, raw, m) == Return(b)
    requires DataStart(img) <= b < TotalBlocks(img) && b * BS + k < |img|
    ensures Located(img, raw, m * BS + k, img[b * BS + k])
  {
    hide BlockOf;
    assert (m * BS + k) / BS == m && (m * BS + k) % BS == k;
  }

  // ------------------------------------------------------ reading a directory --

  /** bytes.decode("utf-8") accepts what is the encoding of a text. */
  predicate ValidUtf8(s: seq<Byte>) {
    Utf8.Encode(Utf8.Decode(s)) == s
  }

  datatype Entry = Entry(name: seq<Byte>, child: nat)

  /** A path, name by name. */
  type Parts = seq<seq<Byte>>

  const SLASH: Byte := 47
  const DOT: Byte := 46

  predicate NameTaken(es: seq<Entry>, name: seq<Byte>) {
    exists i :: 0 <= i < |es| && es[i].name == name
  }

  ghost predicate NamesDistinct(es: seq<Entry>) {
    forall i, j :: 0 <= i < j < |es| ==> es[i].name != es[j].name
  }

  /** A name the walker accepts as a path component. */
  predicate ComponentName(name: seq<Byte>) {
    name != [] && 0 !in name && SLASH !in name && name != [DOT] && name != [DOT, DOT] && ValidUtf8(name)
  }

  /** One 64-byte directory record after the entries already taken. */
  function AddRecord(es: seq<Entry>, rec: seq<Byte>): (r: Outcome<seq<Entry>>)
    requires |rec| == DIRENT
  {
    var child, field := Field(rec, 0, 4), rec[4..];
    if field[0] == 0 then Return(es)
    else if 0 !in field then Raise
    else
      var name := UpToNul(field);
      if !ValidUtf8(name) || name == [DOT] || name == [DOT, DOT] || SLASH in name || NameTaken(es, name) then Raise
      else Return(es + [Entry(name, child)])
  }

  /** The first n records of a directory's bytes. */
  function Records(data: seq<Byte>, n: nat): (r: Outcome<seq<Entry>>)
    requires n * DIRENT <= |data|
  {
    if n == 0 then Return([])
    else match Records(data, n - 1)
      case Raise => Raise
      case Return(es) => AddRecord(es, data[(n - 1) * DIRENT..n * DIRENT])
  }

  /** directory(number): its entries in order. */
  function Directory(img: Image, ino: nat): (r: Outcome<seq<Entry>>) {
    match GetInode(img, ino)
    case Raise => Raise
    case Return(node) =>
      if node.kind != T_DIR then Raise
      else match Payload(img, ino)
        case Raise => Raise
        case Return(data) =>
          if |data| % DIRENT != 0 then Raise else Records(data, |data| / DIRENT)
  }

  lemma {:induction false} RecordsOk(data: seq<Byte>, n: nat)
    requires n * DIRENT <= |data| && Records(data, n).Return?
    ensures NamesDistinct(Records(data, n).value)
    ensures forall i :: 0 <= i < |Records(data, n).value| ==> ComponentName(Records(data, n).value[i].name)
  {
    if n > 0 {
      hide AddRecord, ComponentName, NamesDistinct;
      RecordsOk(data, n - 1);
      var es, rec := Records(data, n - 1).value, data[(n - 1) * DIRENT..n * DIRENT];
      RecordsNext(data, n);
      AddRecordOk(es, rec);
    }
  }

  lemma RecordsNext(data: seq<Byte>, n: nat)
    requires 0 < n && n * DIRENT <= |data| && Records(data, n).Return?
    ensures Records(data, n - 1).Return?
    ensures Records(data, n) == AddRecord(Records(data, n - 1).value, data[(n - 1) * DIRENT..n * DIRENT])
  {
    hide AddRecord;
  }

  /** A record adds at most one entry, with a proper name that is new. */
  lemma AddRecordOk(es: seq<Entry>, rec: seq<Byte>)
    requires |rec| == DIRENT && AddRecord(es, rec).Return?
    requires NamesDistinct(es) && forall i :: 0 <= i < |es| ==> ComponentName(es[i].name)
    ensures NamesDistinct(AddRecord(es, rec).value)
    ensures forall i :: 0 <= i < |AddRecord(es, rec).value| ==> ComponentName(AddRecord(es, rec).value[i].name)
  {
    hide ValidUtf8, Field;
    var field := rec[4..];
    if field[0] != 0 {
      var name := UpToNul(field);
      assert name != [] && ComponentName(name);
      assert forall i :: 0 <= i < |es| ==> es[i].name != name;
    }
  }

  /** The names of a directory are distinct path components. */
  lemma DirectoryOk(img: Image, ino: nat)
    requires Directory(img, ino).Return?
    ensures NamesDistinct(Directory(img, ino).value)
    ensures forall i :: 0 <= i < |Directory(img, ino).value| ==> ComponentName(Directory(img, ino).value[i].name)
  {
    var data := Payload(img, ino).value;
    RecordsOk(data, |data| / DIRENT);
  }

  lemma {:induction false} RecordsRaise(data: seq<Byte>, n: nat, m: nat)
    requires n <= m && m * DIRENT <= |data| && Records(data, n).Raise?
    ensures Records(data, m).Raise?
  {
    hide AddRecord;
    if n < m { RecordsRaise(data, n, m - 1); }
  }

  /** The loop of directory(number). */
  method ReadDirectory(img: Image, ino: nat) returns (r: Outcome<seq<Entry>>)
    ensures r == Directory(img, ino)
  {
    hide AddRecord, GetInode, Payload;
    var node := GetInode(img, ino);
    if node.Raise? || node.value.kind != T_DIR {
      return Raise;
    }
    var data := ReadPayload(img, ino);
    if data.Raise? || |data.value| % DIRENT != 0 {
      return Raise;
    }
    var n := |data.value| / DIRENT;
    var es := [];
    for i := 0 to n
      invariant Records(data.value, i) == Return(es)
    {
      var next := AddRecord(es, data.value[i * DIRENT..(i + 1) * DIRENT]);
      if next.Raise? {
        RecordsRaise(data.value, i + 1, n);
        return Raise;
      }
      es := next.value;
    }
    r := Return(es);
  }
}
