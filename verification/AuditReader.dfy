/** tools/license_audit.py _LogitFS: a second reader of the same images that takes every non-zero
    pointer in turn instead of computing the block map. */
module AuditReader {
  import opened Bits
  import opened Outcomes
  import opened Bytes
  import opened LogitFs

  /** _block: no range check, short at the end of the file. */
  function FileBlock(img: Image, b: nat): (r: seq<Byte>)
    ensures |r| <= BS
  {
    Cut(img, b * BS, (b + 1) * BS)
  }

  const IPB: nat := 32

  /** The inode's bytes as _inode finds them: inside one block of the table. */
  function AuditRaw(img: Image, ino: nat): (r: seq<Byte>) {
    Cut(FileBlock(img, Sb(img, 7) + ino / IPB), ino % IPB * INODE_SIZE, ino % IPB * INODE_SIZE + INODE_SIZE)
  }

  lemma CutCut(s: seq<Byte>, a: nat, b: nat, c: nat, d: nat)
    requires a <= b && c <= d <= b - a
    ensures Cut(Cut(s, a, b), c, d) == Cut(s, a + c, a + d)
  {
    var t := Cut(s, a, b);
    if |s| > a && |t| > c {
      assert forall i :: 0 <= i < |t| ==> t[i] == s[a + i];
      assert Cut(t, c, d) == Cut(s, a + c, a + d);
    }
  }

  /** Both readers look at the same inode bytes. */
  lemma SameInode(img: Image, ino: nat)
    ensures AuditRaw(img, ino) == Raw(img, ino)
  {
    hide Cut, Sb;
    var q, r := ino / IPB, ino % IPB;
    var a := (Sb(img, 7) + q) * BS;
    CutCut(img, a, a + BS, r * INODE_SIZE, r * INODE_SIZE + INODE_SIZE);
    assert InodeOff(img, ino) == a + r * INODE_SIZE;
  }

  // ------------------------------------------------------------------- the generator --

  /** What a generator yields before it ends or raises. */
  datatype Stream = Stream(blocks: seq<nat>, failed: bool)

  function Then(a: Stream, b: Stream): (r: Stream) {
    if a.failed then a else Stream(a.blocks + b.blocks, b.failed)
  }

  /** The non-zero pointers, in order. */
  function NonZero(ptrs: seq<nat>): (r: seq<nat>) {
    if ptrs == [] then [] else (if ptrs[0] == 0 then [] else [ptrs[0]]) + NonZero(ptrs[1..])
  }

  /** The pointers of a whole block. */
  function PointersOf(blk: seq<Byte>): (r: seq<nat>)
    requires |blk| == BS
    ensures |r| == PPB && forall j :: 0 <= j < PPB ==> r[j] == Field(blk, 4 * j, 4)
  {
    seq(PPB, j requires 0 <= j < PPB => Field(blk, 4 * j, 4))
  }

  /** A pointer block: skipped if it is block 0, an error if the file ends inside it. */
  function PointerStream(img: Image, b: nat): (r: Stream) {
    if b == 0 then Stream([], false)
    else if |FileBlock(img, b)| != BS then Stream([], true)
    else Stream(NonZero(PointersOf(FileBlock(img, b))), false)
  }

  function OuterStream(img: Image, outer: seq<nat>): (r: Stream) {
    if outer == [] then Stream([], false) else Then(PointerStream(img, outer[0]), OuterStream(img, outer[1..]))
  }

  function DoubleStream(img: Image, b: nat): (r: Stream) {
    if b == 0 then Stream([], false)
    else if |FileBlock(img, b)| != BS then Stream([], true)
    else OuterStream(img, PointersOf(FileBlock(img, b)))
  }

  function Direct(raw: seq<Byte>): (r: seq<nat>)
    requires |raw| >= OFF_INDIRECT
    ensures |r| == NDIRECT && forall i :: 0 <= i < NDIRECT ==> r[i] == Field(raw, OFF_DIRECT + 4 * i, 4)
  {
    seq(NDIRECT, i requires 0 <= i < NDIRECT => Field(raw, OFF_DIRECT + 4 * i, 4))
  }

  const RAW_MIN: nat := OFF_DINDIRECT + 4

  /** _blocks */
  function BlockStream(img: Image, raw: seq<Byte>): (r: Stream)
    requires |raw| >= RAW_MIN
  {
    Then(Stream(NonZero(Direct(raw)), false),
         Then(PointerStream(img, Field(raw, OFF_INDIRECT, 4)), DoubleStream(img, Field(raw, OFF_DINDIRECT, 4))))
  }

  // ------------------------------------------------------------------------ read_file --

  function Min(a: nat, b: nat): (r: nat) { if a < b then a else b }

  /** The bytes taken from a list of blocks until size is used up. */
  function Taken(img: Image, blocks: seq<nat>, size: nat): (r: seq<Byte>) {
    if blocks == [] || size == 0 then []
    else Cut(FileBlock(img, blocks[0]), 0, Min(BS, size)) + Taken(img, blocks[1..], size - Min(BS, size))
  }

  /** read_file: the generator's error surfaces unless the loop stops at an earlier yield. */
  function AuditFile(img: Image, ino: nat): (r: Outcome<seq<Byte>>) {
    var raw := AuditRaw(img, ino);
    if |raw| < RAW_MIN || Field(raw, 0, 2) != T_FILE then Raise
    else
      var s, size := BlockStream(img, raw), Field(raw, 4, 4);
      if s.failed && |s.blocks| <= BlockCount(size) then Raise else Return(Taken(img, s.blocks, size))
  }

  /** The loop of read_file over the generator. */
  method ReadFile(img: Image, ino: nat) returns (r: Outcome<seq<Byte>>)
    ensures r == AuditFile(img, ino)
  {
    hide BlockStream, FileBlock, AuditRaw;
    var raw := AuditRaw(img, ino);
    if |raw| < RAW_MIN || Field(raw, 0, 2) != T_FILE {
      return Raise;
    }
    var s := BlockStream(img, raw);
    ghost var size := Field(raw, 4, 4);
    var remain := Field(raw, 4, 4);
    var out: seq<Byte> := [];
    var k := 0;
    assert s.blocks[0..] == s.blocks;
    while k < |s.blocks|
      invariant k <= |s.blocks| && k <= BlockCount(size) && remain == size - Min(size, k * BS)
      invariant out + Taken(img, s.blocks[k..], remain) == Taken(img, s.blocks, size)
    {
      if remain <= 0 {
        assert out + [] == out;
        r := Return(out);
        return;
      }
      var take := Min(BS, remain);
      assert s.blocks[k..][1..] == s.blocks[k + 1..];
      ghost var was := out;
      out := out + Cut(FileBlock(img, s.blocks[k]), 0, take);
      assert out + Taken(img, s.blocks[k + 1..], remain - take) == was + Taken(img, s.blocks[k..], remain);
      remain := remain - take;
      k := k + 1;
    }
    if s.failed {
      return Raise;
    }
    assert s.blocks[k..] == [] && out + [] == out;
    r := Return(out);
  }

  // -------------------------------------------------------- the first blocks are the same --

  ghost predicate NoZero(w: seq<nat>) { forall i :: 0 <= i < |w| ==> w[i] != 0 }

  /** Non-zero pointers at the front are not skipped. */
  lemma {:induction false} NonZeroStarts(ptrs: seq<nat>, w: seq<nat>)
    requires w <= ptrs && NoZero(w)
    ensures w <= NonZero(ptrs) && (|w| == |ptrs| ==> NonZero(ptrs) == w)
  {
    if w != [] {
      assert ptrs[0] == w[0];
      assert w[1..] <= ptrs[1..];
      NonZeroStarts(ptrs[1..], w[1..]);
      assert w == [w[0]] + w[1..];
    }
  }

  lemma ThenStarts(x: seq<nat>, b: Stream, w: seq<nat>)
    requires w <= b.blocks
    ensures x + w <= Then(Stream(x, false), b).blocks
  {}

  lemma ThenKeeps(a: Stream, b: Stream, w: seq<nat>)
    requires w <= a.blocks
    ensures w <= Then(a, b).blocks
  {}

  /** The pointers payload reads from a block are the ones the generator sees. */
  lemma PointerSame(img: Image, b: nat, j: nat)
    requires j < PPB && Pointer(img, b, j).Return? && DataStart(img) >= 1
    ensures b != 0 && |FileBlock(img, b)| == BS && Pointer(img, b, j) == Return(PointersOf(FileBlock(img, b))[j])
  {}

  lemma StreamStarts(img: Image, b: nat, w: seq<nat>)
    requires DataStart(img) >= 1 && 0 < |w| <= PPB && NoZero(w)
    requires forall j :: 0 <= j < |w| ==> Pointer(img, b, j) == Return(w[j])
    ensures w <= PointerStream(img, b).blocks && !PointerStream(img, b).failed
    ensures |w| == PPB ==> PointerStream(img, b).blocks == w
  {
    hide Pointer, FileBlock, NonZero, PointersOf;
    PointerSame(img, b, 0);
    var ptrs := PointersOf(FileBlock(img, b));
    forall j | 0 <= j < |w| ensures w[j] == ptrs[j] { PointerSame(img, b, j); }
    assert w <= ptrs;
    NonZeroStarts(ptrs, w);
  }

  /** w lists the data pointers below a list of inner pointer blocks. */
  ghost predicate Below(img: Image, outer: seq<nat>, w: seq<nat>) {
    |w| <= |outer| * PPB && forall k :: 0 <= k < |w| ==> Pointer(img, outer[k / PPB], k % PPB) == Return(w[k])
  }

  lemma {:induction false} OuterStarts(img: Image, outer: seq<nat>, w: seq<nat>)
    requires DataStart(img) >= 1 && NoZero(w) && Below(img, outer, w)
    ensures w <= OuterStream(img, outer).blocks
    decreases |outer|
  {
    hide Pointer, PointerStream;
    if w != [] {
      var n := Min(|w|, PPB);
      var x, y := w[..n], w[n..];
      forall j | 0 <= j < n ensures Pointer(img, outer[0], j) == Return(x[j]) {
        assert Pointer(img, outer[j / PPB], j % PPB) == Return(w[j]);
      }
      StreamStarts(img, outer[0], x);
      if n < |w| {
        forall k | 0 <= k < |y| ensures Pointer(img, outer[1..][k / PPB], k % PPB) == Return(y[k]) {
          var k' := k + PPB;
          assert Pointer(img, outer[k' / PPB], k' % PPB) == Return(w[k']);
        }
        OuterStarts(img, outer[1..], y);
        ThenStarts(x, OuterStream(img, outer[1..]), y);
        assert w == x + y;
      } else {
        ThenKeeps(PointerStream(img, outer[0]), OuterStream(img, outer[1..]), x);
        assert w == x;
      }
    }
  }

  lemma DoubleStarts(img: Image, raw: seq<Byte>, w: seq<nat>)
    requires DataStart(img) >= 1 && |raw| >= RAW_MIN && NoZero(w) && 0 < |w| <= PPB * PPB
    requires forall k :: 0 <= k < |w| ==> BlockOf(img, raw, NDIRECT + PPB + k) == Return(w[k])
    ensures w <= DoubleStream(img, Field(raw, OFF_DINDIRECT, 4)).blocks
  {
    hide Pointer, FileBlock, PointersOf, OuterStream, Field;
    var b := Field(raw, OFF_DINDIRECT, 4);
    assert BlockOf(img, raw, NDIRECT + PPB + 0) == Return(w[0]);
    PointerSame(img, b, 0);
    var outer := PointersOf(FileBlock(img, b));
    forall k | 0 <= k < |w| ensures Pointer(img, outer[k / PPB], k % PPB) == Return(w[k]) {
      assert BlockOf(img, raw, NDIRECT + PPB + k) == Return(w[k]);
      PointerSame(img, b, k / PPB);
    }
    OuterStarts(img, outer, w);
  }

  /** The generator starts with exactly the blocks of the block map. */
  lemma StreamIsMap(img: Image, raw: seq<Byte>, w: seq<nat>)
    requires DataStart(img) >= 1 && |raw| >= RAW_MIN && NoZero(w) && Mapped(img, raw, w)
    requires |w| <= NDIRECT + PPB + PPB * PPB
    ensures w <= BlockStream(img, raw).blocks
  {
    hide Pointer, NonZero, PointerStream, DoubleStream, Field;
    var direct := Direct(raw);
    var ind, dbl := PointerStream(img, Field(raw, OFF_INDIRECT, 4)), DoubleStream(img, Field(raw, OFF_DINDIRECT, 4));
    var n := Min(|w|, NDIRECT);
    var x, rest := w[..n], w[n..];
    assert x <= direct;
    NonZeroStarts(direct, x);
    assert w == x + rest;
    if rest == [] {
      assert w == x;
      ThenKeeps(Stream(NonZero(direct), false), Then(ind, dbl), w);
    } else {
      var m := Min(|rest|, PPB);
      var y, z := rest[..m], rest[m..];
      assert rest == y + z;
      forall j | 0 <= j < m ensures Pointer(img, Field(raw, OFF_INDIRECT, 4), j) == Return(y[j]) {
        assert BlockOf(img, raw, NDIRECT + j) == Return(w[NDIRECT + j]);
      }
      StreamStarts(img, Field(raw, OFF_INDIRECT, 4), y);
      if z == [] {
        assert rest == y;
        ThenKeeps(ind, dbl, y);
      } else {
        forall k | 0 <= k < |z| ensures BlockOf(img, raw, NDIRECT + PPB + k) == Return(z[k]) {
          assert BlockOf(img, raw, NDIRECT + PPB + k) == Return(w[NDIRECT + PPB + k]);
        }
        DoubleStarts(img, raw, z);
        ThenStarts(y, dbl, z);
      }
      ThenStarts(x, Then(ind, dbl), rest);
    }
  }
}
