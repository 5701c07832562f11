/** The on-disk format of LogitFS (tools/mkfs.py, read by tools/disk_profile.py) written out in numbers:
    what the readers take for an inode, a block map and a directory record. */
module FsLayout {
  import opened Bits
  import opened Outcomes
  import opened Bytes
  import opened LogitFs
  import Utf8

  // -------------------------------------------------------------------------- inodes --

  /** Inode ino lies at 128 * ino in the table that word 7 of the superblock names: its kind in two
      bytes, its size in four at 4. It is refused exactly when the number is out of range, the image ends
      in front of byte 8, or it is neither file nor directory. */
  lemma InodeIs(img: Image, ino: nat)
    ensures var off := Field(img, 28, 4) * 4096 + ino * 128;
      && (GetInode(img, ino).Return? <==> ino < Field(img, 16, 4) && off + 8 <= |img| && Field(img, off, 2) in {1, 2})
      && (GetInode(img, ino).Return? ==>
            && GetInode(img, ino).value.kind == Field(img, off, 2)
            && GetInode(img, ino).value.size == Field(img, off + 4, 4))
  {
    hide FromLe;
    var off := Field(img, 28, 4) * 4096 + ino * 128;
    assert off == InodeOff(img, ino);
    if off + 8 <= |img| {
      var raw := Raw(img, ino);
      assert forall i :: 0 <= i < |raw| ==> raw[i] == img[off + i];
      assert raw[0..2] == img[off..off + 2] && raw[4..8] == img[off + 4..off + 8];
    }
  }

  /** The data blocks are those from word 9 to word 3 of the superblock, 4096 bytes each. */
  lemma BlockIs(img: Image, b: nat)
    ensures GetBlock(img, b).Return? <==> Field(img, 36, 4) <= b < Field(img, 12, 4)
    ensures GetBlock(img, b).Return? && 4096 * b + 4096 <= |img| ==>
      GetBlock(img, b).value == img[4096 * b..4096 * b + 4096]
  {}

  /** Word j of a block. */
  ghost predicate WordIn(img: Image, b: nat, j: nat, v: nat) {
    && Field(img, 36, 4) <= b < Field(img, 12, 4) && 4096 * b + 4096 <= |img| && j < 1024
    && v == Field(img, 4096 * b + 4 * j, 4)
  }

  lemma PointerIs(img: Image, b: nat, j: nat, v: nat)
    requires j < 1024
    ensures Pointer(img, b, j) == Return(v) <==> WordIn(img, b, j, v)
  {
    hide FromLe;
    if 4096 * b + 4096 <= |img| {
      Within(img, 4096 * b, 4096 * b + 4096, 4 * j, 4 * j + 4);
    }
  }

  lemma Within(s: seq<Byte>, a: nat, b: nat, c: nat, d: nat)
    requires a <= b <= |s| && c <= d <= b - a
    ensures s[a..b][c..d] == s[a + c..a + d]
  {
    var t := s[a..b];
    assert forall k :: 0 <= k < d - c ==> t[c..d][k] == t[c + k] == s[a + c + k];
  }

  /** Word j of the block that word i of a block names. */
  ghost predicate WordBehind(img: Image, b: nat, i: nat, j: nat, v: nat) {
    exists inner: nat :: WordIn(img, b, i, inner) && WordIn(img, inner, j, v)
  }

  /** Logical block i: pointers at 8 to 55 of the inode, then the words of the block named at 56, then
      those of the blocks named by the words of the block named at 60. */
  lemma MapIs(img: Image, raw: seq<Byte>, i: nat, b: nat)
    requires |raw| >= 64
    ensures i < 12 ==> BlockOf(img, raw, i) == Return(Field(raw, 8 + 4 * i, 4))
    ensures 12 <= i < 1036 ==> (BlockOf(img, raw, i) == Return(b) <==> WordIn(img, Field(raw, 56, 4), i - 12, b))
    ensures 1036 <= i < 1049612 ==> (BlockOf(img, raw, i) == Return(b) <==>
      WordBehind(img, Field(raw, 60, 4), (i - 1036) / 1024, (i - 1036) % 1024, b))
    ensures 1049612 <= i ==> BlockOf(img, raw, i) == Raise
  {
    hide Field, Pointer, WordIn;
    if 12 <= i < 1036 {
      PointerIs(img, Field(raw, 56, 4), i - 12, b);
    } else if 1036 <= i < 1049612 {
      var k := i - 1036;
      var outer := Pointer(img, Field(raw, 60, 4), k / 1024);
      if outer.Return? {
        PointerIs(img, Field(raw, 60, 4), k / 1024, outer.value);
        PointerIs(img, outer.value, k % 1024, b);
      }
      forall inner: nat | WordIn(img, Field(raw, 60, 4), k / 1024, inner) ensures outer == Return(inner) {
        PointerIs(img, Field(raw, 60, 4), k / 1024, inner);
      }
    }
  }

  lemma {:induction false} BlocksReturn(img: Image, raw: seq<Byte>, n: nat)
    ensures Blocks(img, raw, n).Return? <==>
            forall k :: 0 <= k < n ==> BlockOf(img, raw, k).Return? && GetBlock(img, BlockOf(img, raw, k).value).Return?
  {
    hide BlockOf, GetBlock;
    if n > 0 { BlocksReturn(img, raw, n - 1); }
  }

  /** A file can be read exactly when its inode holds the direct pointers and each of its blocks of 4096
      bytes has a pointer into the data area. */
  lemma PayloadReturns(img: Image, ino: nat)
    ensures Payload(img, ino).Return? <==>
            (GetInode(img, ino).Return? && |Raw(img, ino)| >= 56
             && forall k :: 0 <= k < (GetInode(img, ino).value.size + 4095) / 4096 ==>
                  BlockOf(img, Raw(img, ino), k).Return? && GetBlock(img, BlockOf(img, Raw(img, ino), k).value).Return?)
  {
    hide BlockOf, GetBlock, GetInode, Blocks;
    if GetInode(img, ino).Return? {
      BlocksReturn(img, Raw(img, ino), BlockCount(GetInode(img, ino).value.size));
    }
  }

  // --------------------------------------------------------------------- directories --

  /** Record r of a directory is in use when its name does not start with a NUL. */
  ghost predicate InUse(data: seq<Byte>, r: nat) { 64 * r + 64 <= |data| && data[64 * r + 4] != 0 }

  /** The records in use among the first n, in order. */
  ghost function UsedRecords(data: seq<Byte>, n: nat): (u: seq<nat>) {
    if n == 0 then [] else UsedRecords(data, n - 1) + if InUse(data, n - 1) then [n - 1] else []
  }

  /** Record r carries this name: its bytes from 4 on, ended by a NUL inside the record. */
  ghost predicate NameAt(data: seq<Byte>, r: nat, name: seq<Byte>) {
    && 64 * r + 64 <= |data| && |name| < 60 && 0 !in name
    && data[64 * r + 4..64 * r + 4 + |name|] == name && data[64 * r + 4 + |name|] == 0
  }

  /** A name that is UTF-8, has no slash and is neither "." nor "..". */
  ghost predicate Proper(name: seq<Byte>) {
    (exists t: Utf8.Text :: Utf8.Encode(t) == name) && 47 !in name && name != [46] && name != [46, 46]
  }

  ghost predicate Legible(data: seq<Byte>, r: nat) { exists name :: NameAt(data, r, name) && Proper(name) }

  /** Every record in use has a proper name, and no two the same. */
  ghost predicate AllLegible(data: seq<Byte>, n: nat) {
    && (forall r :: 0 <= r < n && InUse(data, r) ==> Legible(data, r))
    && (forall r, q, name :: 0 <= r < q < n && InUse(data, r) && InUse(data, q) && NameAt(data, r, name) ==>
          !NameAt(data, q, name))
  }

  /** es are the records in use, in order: the child's number in four bytes, then the name. */
  ghost predicate AreEntries(data: seq<Byte>, n: nat, es: seq<Entry>) {
    && |es| == |UsedRecords(data, n)|
    && forall i :: 0 <= i < |es| ==> IsEntry(data, UsedRecords(data, n)[i], es[i])
  }

  ghost predicate IsEntry(data: seq<Byte>, r: nat, e: Entry) {
    NameAt(data, r, e.name) && e.child == Field(data, 64 * r, 4)
  }

  lemma {:induction false} UpToNulIs(s: seq<Byte>, name: seq<Byte>)
    requires 0 !in name && |name| < |s| && s[..|name|] == name && s[|name|] == 0
    ensures UpToNul(s) == name
    decreases |s|
  {
    if name != [] {
      assert s[0] == name[0] && name[0] in name;
      assert forall x :: x in name[1..] ==> x in name;
      assert s[1..][..|name[1..]|] == name[1..];
      UpToNulIs(s[1..], name[1..]);
      assert name == [name[0]] + name[1..];
    }
  }

  lemma {:induction false} UpToNulEnds(s: seq<Byte>)
    requires 0 in s
    ensures |UpToNul(s)| < |s| && s[|UpToNul(s)|] == 0
  {
    if s[0] != 0 {
      assert 0 in s[1..];
      UpToNulEnds(s[1..]);
    }
  }

  /** The name field of one record. */
  lemma NameIs(data: seq<Byte>, r: nat, name: seq<Byte>)
    requires 64 * r + 64 <= |data|
    ensures var field := data[64 * r..64 * r + 64][4..];
      NameAt(data, r, name) <==> 0 in field && UpToNul(field) == name
  {
    hide UpToNul;
    var off := 64 * r + 4;
    var field := data[off..off + 60];
    Within(data, off - 4, off + 60, 4, 64);
    assert data[64 * r..64 * r + 64][4..] == field;
    if |name| < 60 { Within(data, off, off + 60, 0, |name|); }
    if NameAt(data, r, name) {
      assert field[|name|] == 0;
      UpToNulIs(field, name);
    }
    if 0 in field && UpToNul(field) == name { UpToNulEnds(field); }
  }

  lemma ProperIs(name: seq<Byte>)
    ensures Proper(name) <==> ValidUtf8(name) && SLASH !in name && name != [DOT] && name != [DOT, DOT]
  {
    hide Utf8.Encode, Utf8.Decode;
    if exists t: Utf8.Text :: Utf8.Encode(t) == name {
      var t: Utf8.Text :| Utf8.Encode(t) == name;
      Utf8.DecodeEncode(t);
    }
  }

  /** One record more. */
  lemma AddRecordIs(data: seq<Byte>, r: nat, es: seq<Entry>)
    requires 64 * r + 64 <= |data|
    ensures var rec := data[64 * r..64 * r + 64];
      && (!InUse(data, r) ==> AddRecord(es, rec) == Return(es))
      && (InUse(data, r) ==> (AddRecord(es, rec).Return? <==>
            (Legible(data, r) && forall i :: 0 <= i < |es| ==> !NameAt(data, r, es[i].name))))
      && (InUse(data, r) && AddRecord(es, rec).Return? ==>
            exists e :: AddRecord(es, rec).value == es + [e] && IsEntry(data, r, e))
  {
    hide FromLe, UpToNul, NameAt, Proper, ValidUtf8;
    var rec := data[64 * r..64 * r + 64];
    var field := rec[4..];
    assert field[0] == data[64 * r + 4] && rec[0..4] == data[64 * r..64 * r + 4];
    var name := UpToNul(field);
    NameIs(data, r, name);
    ProperIs(name);
    forall x ensures NameAt(data, r, x) <==> 0 in field && name == x { NameIs(data, r, x); }
    if InUse(data, r) && AddRecord(es, rec).Return? { assert IsEntry(data, r, Entry(name, Field(rec, 0, 4))); }
  }

  lemma {:induction false} RecordsIs(data: seq<Byte>, n: nat)
    requires 64 * n <= |data|
    ensures Records(data, n).Return? <==> AllLegible(data, n)
    ensures Records(data, n).Return? ==> AreEntries(data, n, Records(data, n).value)
  {
    hide AddRecord, InUse, Legible, NameAt, IsEntry;
    if n > 0 {
      RecordsIs(data, n - 1);
      var before := Records(data, n - 1);
      if before.Return? {
        AddRecordIs(data, n - 1, before.value);
        if InUse(data, n - 1) {
          NamesSeen(data, n - 1, before.value);
        }
      }
    }
  }

  /** A name stands in one of the records in use exactly when it has been taken. */
  lemma NamesSeen(data: seq<Byte>, n: nat, es: seq<Entry>)
    requires AreEntries(data, n, es) && AllLegible(data, n)
    ensures (forall i :: 0 <= i < |es| ==> !NameAt(data, n, es[i].name)) <==>
            (forall r, name :: 0 <= r < n && InUse(data, r) && NameAt(data, r, name) ==> !NameAt(data, n, name))
  {
    hide InUse, Legible, NameAt;
    if forall i :: 0 <= i < |es| ==> !NameAt(data, n, es[i].name) {
      forall r, name | 0 <= r < n && InUse(data, r) && NameAt(data, r, name) ensures !NameAt(data, n, name) {
        var i := UsedPlace(data, n, r);
        OneName(data, r, name, es[i].name);
      }
    }
    forall i | 0 <= i < |es| ensures 0 <= UsedRecords(data, n)[i] < n && InUse(data, UsedRecords(data, n)[i]) {
      UsedIsUsed(data, n, i);
    }
  }

  lemma OneName(data: seq<Byte>, r: nat, a: seq<Byte>, b: seq<Byte>)
    requires NameAt(data, r, a) && NameAt(data, r, b)
    ensures a == b
  {
    NameIs(data, r, a);
    NameIs(data, r, b);
  }

  lemma {:induction false} UsedPlace(data: seq<Byte>, n: nat, r: nat) returns (i: nat)
    requires r < n && InUse(data, r)
    ensures i < |UsedRecords(data, n)| && UsedRecords(data, n)[i] == r
  {
    if r == n - 1 { i := |UsedRecords(data, n - 1)|; } else { i := UsedPlace(data, n - 1, r); }
  }

  lemma {:induction false} UsedIsUsed(data: seq<Byte>, n: nat, i: nat)
    requires i < |UsedRecords(data, n)|
    ensures UsedRecords(data, n)[i] < n && InUse(data, UsedRecords(data, n)[i])
  {
    if i < |UsedRecords(data, n - 1)| { UsedIsUsed(data, n - 1, i); }
  }

  /** A directory is read exactly when its bytes are there, are whole records and are all legible, and its
      entries are then the records in use, in order. */
  lemma DirectoryIs(img: Image, ino: nat)
    ensures Directory(img, ino).Return? <==>
            (GetInode(img, ino).Return? && GetInode(img, ino).value.kind == 2 && Payload(img, ino).Return?
             && |Payload(img, ino).value| % 64 == 0
             && AllLegible(Payload(img, ino).value, |Payload(img, ino).value| / 64))
    ensures Directory(img, ino).Return? ==>
      AreEntries(Payload(img, ino).value, |Payload(img, ino).value| / 64, Directory(img, ino).value)
  {
    hide GetInode, Payload, AllLegible, AreEntries, Records;
    if Payload(img, ino).Return? {
      var data := Payload(img, ino).value;
      RecordsIs(data, |data| / 64);
    }
  }
}
