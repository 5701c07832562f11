/** When the licence audit's reader (tools/license_audit.py) and payload (tools/disk_profile.py) agree on
    a file: the exact conditions, on the image's own fields. */
module AuditAgreement {
  import opened Bits
  import opened Outcomes
  import opened Bytes
  import opened LogitFs
  import opened AuditReader

  // -------------------------------------------------------------------- agreement --

  /** The bytes read_file returns when its loop ends normally: every block but the last as far as the
      image holds it, and of the last at most what the file uses. */
  function Joined(img: Image, front: seq<Byte>, last: nat, used: nat): (r: seq<Byte>) {
    front + Cut(FileBlock(img, last), 0, used)
  }

  /** Taking block by block from block k on completes what the first k blocks hold. */
  lemma {:induction false} TakenFrom(img: Image, raw: seq<Byte>, w: seq<nat>, k: nat, m: nat, used: nat, more: seq<nat>)
    requires Mapped(img, raw, w) && k <= m == |w| - 1 && 0 < used <= BS
    requires Blocks(img, raw, m + 1).Return? && Blocks(img, raw, k).Return? && Blocks(img, raw, m).Return?
    ensures Blocks(img, raw, k).value + Taken(img, w[k..] + more, (m - k) * BS + used)
      == Joined(img, Blocks(img, raw, m).value, w[m], used)
    decreases m - k
  {
    hide BlockOf, Blocks, GetBlock, FileBlock;
    var front, left := Blocks(img, raw, k).value, (m - k) * BS + used;
    var list, blk := w[k..] + more, FileBlock(img, w[k]);
    assert list[0] == w[k] && list[1..] == w[k + 1..] + more;
    if k == m {
      assert Taken(img, list[1..], 0) == [];
      assert Taken(img, list, left) == Cut(blk, 0, left) + [];
      assert Cut(blk, 0, left) + [] == Cut(blk, 0, left);
    } else {
      NextBlock(img, raw, w, k);
      TakenFrom(img, raw, w, k + 1, m, used, more);
      var rest := Taken(img, list[1..], left - BS);
      assert Cut(blk, 0, BS) == blk;
      assert front + (blk + rest) == (front + blk) + rest;
    }
  }

  lemma NextBlock(img: Image, raw: seq<Byte>, w: seq<nat>, k: nat)
    requires Mapped(img, raw, w) && k < |w|
    requires Blocks(img, raw, |w|).Return? && Blocks(img, raw, k).Return?
    ensures Blocks(img, raw, k + 1) == Return(Blocks(img, raw, k).value + FileBlock(img, w[k]))
  {
    hide BlockOf, GetBlock;
    if GetBlock(img, w[k]).Raise? { BlocksRaise(img, raw, |w|, k); }
    FileBlockIs(img, w[k]);
  }

  lemma FileBlockIs(img: Image, b: nat)
    requires GetBlock(img, b).Return?
    ensures FileBlock(img, b) == GetBlock(img, b).value
  {}

  lemma {:induction false} BlocksPrefix(img: Image, raw: seq<Byte>, k: nat, n: nat)
    requires k <= n && Blocks(img, raw, n).Return?
    ensures Blocks(img, raw, k).Return?
  {
    hide BlockOf, GetBlock;
    if k < n { BlocksPrefix(img, raw, k, n - 1); }
  }

  /** The block numbers behind a payload that returned. */
  lemma {:induction false} MapOf(img: Image, raw: seq<Byte>, n: nat) returns (w: seq<nat>)
    requires Blocks(img, raw, n).Return? && DataStart(img) >= 1
    ensures |w| == n && Mapped(img, raw, w) && NoZero(w)
  {
    hide BlockOf, GetBlock;
    if n == 0 {
      w := [];
    } else {
      w := MapOf(img, raw, n - 1);
      var b := BlockOf(img, raw, n - 1).value;
      InDataArea(img, b);
      w := w + [b];
    }
  }

  lemma InDataArea(img: Image, b: nat)
    requires GetBlock(img, b).Return?
    ensures b >= DataStart(img)
  {}

  lemma MapSize(img: Image, raw: seq<Byte>, n: nat)
    requires Blocks(img, raw, n).Return?
    ensures n <= NDIRECT + PPB + PPB * PPB
  {
    hide Blocks;
    if n > NDIRECT + PPB + PPB * PPB { BlocksRaise(img, raw, n, NDIRECT + PPB + PPB * PPB); }
  }

  /** The generator's error reaches read_file's loop. */
  ghost predicate Overreaches(img: Image, raw: seq<Byte>, n: nat)
    requires |raw| >= RAW_MIN
  {
    BlockStream(img, raw).failed && |BlockStream(img, raw).blocks| <= n
  }

  // ------------------------------------------------ the same, on the image's own fields --

  /** A pointer block that is set but does not lie whole in the file. */
  predicate Unreadable(img: Image, b: nat) { b != 0 && |FileBlock(img, b)| != BS }

  /** How many of n slots are left behind the first k. */
  function Left(n: nat, k: nat): (r: nat) { if n > k then n - k else 0 }

  /** A pointer block that can be passed without a yield once its first k slots are used: not set, or
      whole and zero from slot k on. */
  predicate Quiet(img: Image, b: nat, k: nat) {
    b == 0 || (|FileBlock(img, b)| == BS && forall j :: k <= j < PPB ==> PointersOf(FileBlock(img, b))[j] == 0)
  }

  predicate DirectQuiet(raw: seq<Byte>, n: nat)
    requires |raw| >= RAW_MIN
  {
    forall i :: n <= i < NDIRECT ==> Direct(raw)[i] == 0
  }

  /** Inner block m is unreadable, lies behind data slot k, and no data pointer is set in between. */
  predicate StrayInner(img: Image, outer: seq<nat>, k: nat, m: nat)
    requires m < |outer|
  {
    k <= m * PPB && Unreadable(img, outer[m]) && forall i :: 0 <= i < m ==> Quiet(img, outer[i], Left(k, i * PPB))
  }

  predicate HasStrayInner(img: Image, outer: seq<nat>, k: nat) {
    exists m :: 0 <= m < |outer| && StrayInner(img, outer, k, m)
  }

  /** Some pointer block behind data slot n is set and unreadable, and every data pointer between slot
      n and it is zero: the indirect block, the double-indirect block, or one of its inner blocks. */
  predicate StrayBlock(img: Image, raw: seq<Byte>, n: nat)
    requires |raw| >= RAW_MIN
  {
    var ind, dbl := Field(raw, OFF_INDIRECT, 4), Field(raw, OFF_DINDIRECT, 4);
    && DirectQuiet(raw, n)
    && (|| (n <= NDIRECT && Unreadable(img, ind))
        || (n <= NDIRECT + PPB && Quiet(img, ind, Left(n, NDIRECT)) && Unreadable(img, dbl))
        || (Quiet(img, ind, Left(n, NDIRECT)) && dbl != 0 && |FileBlock(img, dbl)| == BS
            && HasStrayInner(img, PointersOf(FileBlock(img, dbl)), Left(n, NDIRECT + PPB))))
  }

  /** Behind k leading non-zero pointers, the others are zero exactly when k are yielded. */
  lemma {:induction false} NonZeroCount(ptrs: seq<nat>, k: nat)
    requires k <= |ptrs| && forall i :: 0 <= i < k ==> ptrs[i] != 0
    ensures |NonZero(ptrs)| >= k
    ensures |NonZero(ptrs)| == k <==> forall j :: k <= j < |ptrs| ==> ptrs[j] == 0
    decreases |ptrs|
  {
    if ptrs != [] {
      var t := ptrs[1..];
      assert forall j :: 0 <= j < |t| ==> t[j] == ptrs[j + 1];
      assert forall j :: 0 < j < |ptrs| ==> ptrs[j] == t[j - 1];
      NonZeroCount(t, if k > 0 then k - 1 else 0);
    }
  }

  /** The slots of a file in one pointer block: the first k, all set. */
  ghost predicate UsesFirst(img: Image, b: nat, k: nat) {
    k > 0 ==> (
      && b != 0 && |FileBlock(img, b)| == BS
      && forall j :: 0 <= j < k && j < PPB ==> PointersOf(FileBlock(img, b))[j] != 0)
  }

  lemma BlockCounted(img: Image, b: nat, k: nat)
    requires UsesFirst(img, b, k)
    ensures var s, used := PointerStream(img, b), Min(k, PPB);
      && (s.failed <==> Unreadable(img, b)) && (Unreadable(img, b) ==> k == 0 && s.blocks == [])
      && |s.blocks| >= used && (!s.failed ==> (|s.blocks| == used <==> Quiet(img, b, k)))
  {
    hide NonZero, PointersOf, FileBlock;
    if b != 0 && |FileBlock(img, b)| == BS {
      NonZeroCount(PointersOf(FileBlock(img, b)), Min(k, PPB));
    }
  }

  /** The slots of a file below a list of inner blocks: the first k, all set. */
  ghost predicate UsesInner(img: Image, outer: seq<nat>, k: nat) {
    k <= |outer| * PPB && forall m :: 0 <= m < |outer| ==> UsesFirst(img, outer[m], Left(k, m * PPB))
  }

  lemma InnerTail(img: Image, outer: seq<nat>, k: nat)
    requires UsesInner(img, outer, k) && outer != []
    ensures UsesFirst(img, outer[0], k) && UsesInner(img, outer[1..], Left(k, PPB))
  {
    hide UsesFirst;
    assert UsesFirst(img, outer[0], Left(k, 0 * PPB));
    forall m | 0 <= m < |outer[1..]| ensures UsesFirst(img, outer[1..][m], Left(Left(k, PPB), m * PPB)) {
      assert UsesFirst(img, outer[m + 1], Left(k, (m + 1) * PPB));
    }
  }

  /** A stray inner block is the first one, or one further on behind a quiet first block. */
  lemma StrayTail(img: Image, outer: seq<nat>, k: nat)
    requires outer != []
    ensures HasStrayInner(img, outer, k) <==>
      (k == 0 && Unreadable(img, outer[0])) || (Quiet(img, outer[0], k) && HasStrayInner(img, outer[1..], Left(k, PPB)))
  {
    hide Quiet, Unreadable;
    var t, k' := outer[1..], Left(k, PPB);
    forall m | 0 < m < |outer|
      ensures StrayInner(img, outer, k, m) <==> Quiet(img, outer[0], k) && StrayInner(img, t, k', m - 1)
    {
      StrayShift(img, outer, k, m);
    }
    if k == 0 && Unreadable(img, outer[0]) { assert StrayInner(img, outer, k, 0); }
    if Quiet(img, outer[0], k) && HasStrayInner(img, t, k') {
      var m :| 0 <= m < |t| && StrayInner(img, t, k', m);
      assert StrayInner(img, outer, k, m + 1);
    }
    if HasStrayInner(img, outer, k) {
      var m :| 0 <= m < |outer| && StrayInner(img, outer, k, m);
      if m > 0 { assert StrayInner(img, t, k', m - 1); }
    }
  }

  lemma StrayShift(img: Image, outer: seq<nat>, k: nat, m: nat)
    requires 0 < m < |outer|
    ensures StrayInner(img, outer, k, m)
            <==> (Quiet(img, outer[0], k) && StrayInner(img, outer[1..], Left(k, PPB), m - 1))
  {
    hide Quiet, Unreadable;
    var t, k' := outer[1..], Left(k, PPB);
    assert Left(k, 0 * PPB) == k;
    forall i | 0 <= i < m - 1
      ensures Quiet(img, t[i], Left(k', i * PPB)) <==> Quiet(img, outer[i + 1], Left(k, (i + 1) * PPB))
    {
      assert Left(k', i * PPB) == Left(k, (i + 1) * PPB);
    }
    if StrayInner(img, outer, k, m) {
      assert Quiet(img, outer[0], Left(k, 0 * PPB));
      forall i | 0 <= i < m - 1 ensures Quiet(img, t[i], Left(k', i * PPB)) {
        assert Quiet(img, outer[i + 1], Left(k, (i + 1) * PPB));
      }
    }
    if Quiet(img, outer[0], k) && StrayInner(img, t, k', m - 1) {
      forall i | 0 <= i < m ensures Quiet(img, outer[i], Left(k, i * PPB)) {
        if i > 0 { assert Quiet(img, t[i - 1], Left(k', (i - 1) * PPB)); }
      }
    }
  }

  /** Below the double-indirect block the error comes too early exactly at a stray inner block. */
  lemma {:induction false} OuterCounted(img: Image, outer: seq<nat>, k: nat)
    requires UsesInner(img, outer, k)
    ensures var s := OuterStream(img, outer);
      |s.blocks| >= k && (s.failed && |s.blocks| == k <==> HasStrayInner(img, outer, k))
      && (!s.failed || |s.blocks| > k ==> !HasStrayInner(img, outer, k))
    decreases |outer|
  {
    hide PointerStream, UsesFirst, UsesInner, Quiet, Unreadable, HasStrayInner;
    if outer == [] {
      NoInner(img, k);
    } else {
      InnerTail(img, outer, k);
      StrayTail(img, outer, k);
      BlockCounted(img, outer[0], k);
      OuterCounted(img, outer[1..], Left(k, PPB));
      QuietReadable(img, outer[0], k);
    }
  }

  lemma NoInner(img: Image, k: nat)
    requires UsesInner(img, [], k)
    ensures k == 0 && !HasStrayInner(img, [], k)
  {}

  lemma QuietReadable(img: Image, b: nat, k: nat)
    ensures Quiet(img, b, k) ==> !Unreadable(img, b)
  {}

  /** A file's slots, read off its block map. */
  lemma MapUses(img: Image, raw: seq<Byte>, n: nat)
    requires DataStart(img) >= 1 && |raw| >= RAW_MIN && n <= NDIRECT + PPB + PPB * PPB
    requires forall i :: 0 <= i < n ==> BlockOf(img, raw, i).Return? && BlockOf(img, raw, i).value != 0
    ensures forall i :: 0 <= i < Min(n, NDIRECT) ==> Direct(raw)[i] != 0
    ensures UsesFirst(img, Field(raw, OFF_INDIRECT, 4), Left(n, NDIRECT))
    ensures n > NDIRECT + PPB ==> UsesDouble(img, Field(raw, OFF_DINDIRECT, 4), Left(n, NDIRECT + PPB))
  {
    hide Pointer, FileBlock, PointersOf, Field;
    var ind := Field(raw, OFF_INDIRECT, 4);
    forall i | 0 <= i < Min(n, NDIRECT) ensures Direct(raw)[i] != 0 {
      assert BlockOf(img, raw, i).Return?;
    }
    if n > NDIRECT {
      assert BlockOf(img, raw, NDIRECT + 0).Return?;
      PointerSame(img, ind, 0);
      forall j | 0 <= j < n - NDIRECT && j < PPB ensures PointersOf(FileBlock(img, ind))[j] != 0 {
        assert BlockOf(img, raw, NDIRECT + j).Return?;
        PointerSame(img, ind, j);
      }
    }
    if n > NDIRECT + PPB { MapUsesDouble(img, raw, n); }
  }

  ghost predicate UsesDouble(img: Image, b: nat, k: nat) {
    b != 0 && |FileBlock(img, b)| == BS && UsesInner(img, PointersOf(FileBlock(img, b)), k)
  }

  lemma MapUsesDouble(img: Image, raw: seq<Byte>, n: nat)
    requires DataStart(img) >= 1 && |raw| >= RAW_MIN && NDIRECT + PPB < n <= NDIRECT + PPB + PPB * PPB
    requires forall i :: 0 <= i < n ==> BlockOf(img, raw, i).Return? && BlockOf(img, raw, i).value != 0
    ensures UsesDouble(img, Field(raw, OFF_DINDIRECT, 4), n - NDIRECT - PPB)
  {
    hide Pointer, FileBlock, PointersOf, Field, UsesFirst;
    var b, k := Field(raw, OFF_DINDIRECT, 4), n - NDIRECT - PPB;
    assert BlockOf(img, raw, NDIRECT + PPB).Return?;
    PointerSame(img, b, 0);
    var outer := PointersOf(FileBlock(img, b));
    forall m | 0 <= m < PPB ensures UsesFirst(img, outer[m], Left(k, m * PPB)) {
      AllPointers(img, b, 0, m);
      PointerSame(img, b, m);
      forall j | 0 <= j < PPB && m * PPB + j < k
        ensures Pointer(img, outer[m], j).Return? && Pointer(img, outer[m], j).value != 0 {
        InnerSlot(img, raw, m, j, outer[m]);
        assert BlockOf(img, raw, NDIRECT + PPB + m * PPB + j).Return?;
      }
      InnerUses(img, outer[m], Left(k, m * PPB));
    }
  }

  lemma InnerUses(img: Image, b: nat, k: nat)
    requires DataStart(img) >= 1
    requires forall j :: 0 <= j < PPB && j < k ==> Pointer(img, b, j).Return? && Pointer(img, b, j).value != 0
    ensures UsesFirst(img, b, k)
  {
    hide Pointer, FileBlock, PointersOf;
    if k > 0 {
      PointerSame(img, b, 0);
      forall j | 0 <= j < k && j < PPB ensures PointersOf(FileBlock(img, b))[j] != 0 {
        PointerSame(img, b, j);
      }
    }
  }

  lemma DirectCounted(raw: seq<Byte>, n: nat)
    requires |raw| >= RAW_MIN && forall i :: 0 <= i < Min(n, NDIRECT) ==> Direct(raw)[i] != 0
    ensures |NonZero(Direct(raw))| >= Min(n, NDIRECT)
    ensures |NonZero(Direct(raw))| == Min(n, NDIRECT) <==> DirectQuiet(raw, n)
  {
    hide NonZero, Field;
    NonZeroCount(Direct(raw), Min(n, NDIRECT));
  }

  lemma DoubleCounted(img: Image, b: nat, n: nat)
    requires n > NDIRECT + PPB ==> UsesDouble(img, b, Left(n, NDIRECT + PPB))
    ensures var s, k := DoubleStream(img, b), Left(n, NDIRECT + PPB);
      && |s.blocks| >= k
      && (s.failed && |s.blocks| == k <==>
          || (n <= NDIRECT + PPB && Unreadable(img, b))
          || (b != 0 && |FileBlock(img, b)| == BS && HasStrayInner(img, PointersOf(FileBlock(img, b)), k)))
  {
    hide FileBlock, PointersOf, OuterStream, HasStrayInner, UsesInner;
    var k := Left(n, NDIRECT + PPB);
    if b != 0 && |FileBlock(img, b)| == BS {
      if k == 0 { UsesNone(img, PointersOf(FileBlock(img, b))); }
      OuterCounted(img, PointersOf(FileBlock(img, b)), k);
    }
  }

  lemma UsesNone(img: Image, outer: seq<nat>)
    ensures UsesInner(img, outer, 0)
  {}

  /** The error reaches the loop exactly when the image has a stray pointer block behind the file. */
  lemma OverreachIsStray(img: Image, raw: seq<Byte>, n: nat)
    requires DataStart(img) >= 1 && |raw| >= RAW_MIN && n <= NDIRECT + PPB + PPB * PPB
    requires forall i :: 0 <= i < n ==> BlockOf(img, raw, i).Return? && BlockOf(img, raw, i).value != 0
    ensures Overreaches(img, raw, n) <==> StrayBlock(img, raw, n)
  {
    hide BlockOf, PointerStream, DoubleStream, NonZero, Direct, Field, UsesFirst, UsesDouble, Quiet,
        Unreadable, HasStrayInner, DirectQuiet, FileBlock, PointersOf;
    var ind, dbl := Field(raw, OFF_INDIRECT, 4), Field(raw, OFF_DINDIRECT, 4);
    MapUses(img, raw, n);
    DirectCounted(raw, n);
    BlockCounted(img, ind, Left(n, NDIRECT));
    QuietReadable(img, ind, Left(n, NDIRECT));
    DoubleCounted(img, dbl, n);
  }

  // ----------------------------------------------------------- images that end early --

  /** A block in front of the file's last one ends beyond the image, while of the last block more is
      there than the file uses. */
  ghost predicate CutShort(img: Image, raw: seq<Byte>, size: nat) {
    var n := BlockCount(size);
    && n > 0 && Used(size, n - 1) < BS && Starts(img, raw, n - 1, Used(size, n - 1) + 1)
    && exists k :: 0 <= k < n - 1 && !Starts(img, raw, k, BS)
  }

  /** The image holds the first `used` bytes of logical block k. */
  ghost predicate Starts(img: Image, raw: seq<Byte>, k: nat, used: nat) {
    BlockOf(img, raw, k).Return? && BlockOf(img, raw, k).value * BS + used <= |img|
  }

  lemma BlockHeld(img: Image, b: nat, used: nat)
    requires used <= BS
    ensures |FileBlock(img, b)| >= used <==> used == 0 || b * BS + used <= |img|
  {}

  /** The blocks of a file are as long as their number says exactly when none ends beyond the image. */
  lemma {:induction false} FrontLength(img: Image, raw: seq<Byte>, m: nat)
    requires Blocks(img, raw, m).Return?
    ensures |Blocks(img, raw, m).value| <= m * BS
    ensures |Blocks(img, raw, m).value| == m * BS <==> forall k :: 0 <= k < m ==> Starts(img, raw, k, BS)
  {
    hide BlockOf, GetBlock, FileBlock;
    if m > 0 {
      FrontLength(img, raw, m - 1);
      var b := BlockOf(img, raw, m - 1).value;
      FileBlockIs(img, b);
      BlockHeld(img, b, BS);
      assert Starts(img, raw, m - 1, BS) <==> |FileBlock(img, b)| == BS;
    }
  }

  /** Cutting the last block first, or the whole afterwards. */
  lemma CutLast(front: seq<Byte>, last: seq<Byte>, m: nat, used: nat)
    requires |front| <= m * BS
    ensures front + Cut(last, 0, used) == Cut(front + last, 0, m * BS + used) <==> |front| == m * BS || |last| <= used
  {
    var size := m * BS + used;
    if |front| == m * BS {
      assert front + Cut(last, 0, used) == Cut(front + last, 0, size);
    } else if |last| <= used {
      assert Cut(last, 0, used) == last && Cut(front + last, 0, size) == front + last;
    } else {
      assert |front + Cut(last, 0, used)| == |front| + used < |Cut(front + last, 0, size)|;
    }
  }

  /** Both readers join the same blocks; the results agree exactly when the image does not cut one
      short in front of a longer last block. */
  lemma JoinedAgree(img: Image, raw: seq<Byte>, w: seq<nat>, m: nat, size: nat)
    requires |w| == m + 1 == BlockCount(size) && Mapped(img, raw, w)
    requires Blocks(img, raw, m).Return? && Blocks(img, raw, m + 1).Return?
    ensures Joined(img, Blocks(img, raw, m).value, w[m], Used(size, m)) == Cut(Blocks(img, raw, m + 1).value, 0, size)
            <==> !CutShort(img, raw, size)
  {
    hide BlockOf, Blocks, GetBlock, FileBlock, Cut;
    var front, last, used := Blocks(img, raw, m).value, FileBlock(img, w[m]), Used(size, m);
    NextBlock(img, raw, w, m);
    FrontLength(img, raw, m);
    CutLast(front, last, m, used);
    assert size == m * BS + used;
    if used < BS { BlockHeld(img, w[m], used + 1); }
  }

  // ---------------------------------------------------------------------- the theorem --

  /** Whenever payload returns for a regular file: the audit's reader raises if the image ends inside
      the inode or has a stray pointer block behind the file; otherwise it returns, and the same bytes
      exactly when the image does not cut the file short. */
  lemma ReadersAgree(img: Image, ino: nat)
    requires DataStart(img) >= 1 && Payload(img, ino).Return? && GetInode(img, ino).value.kind == T_FILE
    ensures var raw, size := Raw(img, ino), GetInode(img, ino).value.size;
      if |raw| < 64 || StrayBlock(img, raw, BlockCount(size)) then AuditFile(img, ino) == Raise
      else AuditFile(img, ino).Return? && (AuditFile(img, ino) == Payload(img, ino) <==> !CutShort(img, raw, size))
  {
    hide BlockOf, BlockStream, Taken, Blocks, AuditRaw, StrayBlock, CutShort;
    SameInode(img, ino);
    var raw := Raw(img, ino);
    if |raw| >= RAW_MIN {
      var size, n := Field(raw, 4, 4), BlockCount(Field(raw, 4, 4));
      MapSize(img, raw, n);
      var w := MapOf(img, raw, n);
      OverreachIsStray(img, raw, n);
      StreamIsMap(img, raw, w);
      var s := BlockStream(img, raw);
      var more := s.blocks[n..];
      assert s.blocks == w[0..] + more;
      StartEmpty(img, raw, s.blocks, size);
      if n > 0 {
        BlocksPrefix(img, raw, 0, n);
        BlocksPrefix(img, raw, n - 1, n);
        TakenFrom(img, raw, w, 0, n - 1, Used(size, n - 1), more);
        JoinedAgree(img, raw, w, n - 1, size);
        assert [] + Taken(img, s.blocks, size) == Taken(img, s.blocks, size);
      }
    }
  }

  lemma StartEmpty(img: Image, raw: seq<Byte>, blocks: seq<nat>, size: nat)
    ensures Blocks(img, raw, 0) == Return([]) && Cut([], 0, size) == [] && Taken(img, blocks, 0) == []
    ensures BlockCount(size) == 0 ==> size == 0 && !CutShort(img, raw, size)
  {}

  /** An image that holds all its blocks cuts no file short. */
  lemma WholeImage(img: Image, ino: nat)
    requires |img| >= TotalBlocks(img) * BS && Payload(img, ino).Return?
    ensures !CutShort(img, Raw(img, ino), GetInode(img, ino).value.size)
  {
    hide BlockOf, Blocks;
    var raw, n := Raw(img, ino), BlockCount(GetInode(img, ino).value.size);
    AllWhole(img, raw, n);
    forall k | 0 <= k < n ensures Starts(img, raw, k, BS) {}
  }

  /** No pointer beyond the file's last block is set, at any level. */
  ghost predicate Tidy(img: Image, raw: seq<Byte>, n: nat)
    requires |raw| >= RAW_MIN
  {
    && (n <= NDIRECT ==> Field(raw, OFF_INDIRECT, 4) == 0)
    && (n <= NDIRECT + PPB ==> Field(raw, OFF_DINDIRECT, 4) == 0)
    && forall m :: 0 <= m < PPB && n <= NDIRECT + PPB + m * PPB ==>
         Pointer(img, Field(raw, OFF_DINDIRECT, 4), m) in {Raise, Return(0)}
  }

  lemma {:induction false} OuterEnds(img: Image, outer: seq<nat>)
    requires forall m :: 0 <= m < |outer| ==> outer[m] == 0 || |FileBlock(img, outer[m])| == BS
    ensures !OuterStream(img, outer).failed
  {
    hide FileBlock, NonZero;
    if outer != [] {
      assert forall m :: 0 <= m < |outer[1..]| ==> outer[1..][m] == outer[m + 1];
      OuterEnds(img, outer[1..]);
    }
  }

  lemma DoubleEnds(img: Image, raw: seq<Byte>, n: nat)
    requires DataStart(img) >= 1 && |raw| >= RAW_MIN && Tidy(img, raw, n) && n > NDIRECT + PPB
    requires forall i :: 0 <= i < n ==> BlockOf(img, raw, i).Return?
    ensures !DoubleStream(img, Field(raw, OFF_DINDIRECT, 4)).failed
  {
    hide FileBlock, PointersOf, Pointer, Field, OuterStream;
    var b := Field(raw, OFF_DINDIRECT, 4);
    assert BlockOf(img, raw, NDIRECT + PPB).Return?;
    PointerSame(img, b, 0);
    var outer := PointersOf(FileBlock(img, b));
    forall m | 0 <= m < PPB ensures outer[m] == 0 || |FileBlock(img, outer[m])| == BS {
      AllPointers(img, b, 0, m);
      PointerSame(img, b, m);
      if NDIRECT + PPB + m * PPB < n {
        InnerSlot(img, raw, m, 0, outer[m]);
        PointerSame(img, outer[m], 0);
      }
    }
    OuterEnds(img, outer);
  }

  lemma AllPointers(img: Image, b: nat, j: nat, m: nat)
    requires j < PPB && m < PPB && Pointer(img, b, j).Return?
    ensures Pointer(img, b, m).Return?
  {}

  /** On a tidy file the generator never overreaches: the readers agree unless the file is cut short. */
  lemma TidyAgree(img: Image, ino: nat)
    requires DataStart(img) >= 1 && Payload(img, ino).Return? && GetInode(img, ino).value.kind == T_FILE
    requires |Raw(img, ino)| >= RAW_MIN && Tidy(img, Raw(img, ino), BlockCount(GetInode(img, ino).value.size))
    ensures AuditFile(img, ino) == Payload(img, ino) <==> !CutShort(img, Raw(img, ino), GetInode(img, ino).value.size)
  {
    hide BlockOf, Blocks, AuditRaw, AuditFile, NonZero, Field, DoubleStream, StrayBlock, CutShort;
    var raw := Raw(img, ino);
    var n := BlockCount(GetInode(img, ino).value.size);
    var w := MapOf(img, raw, n);
    TidyIndirect(img, raw, n);
    if n > NDIRECT + PPB {
      DoubleEnds(img, raw, n);
    } else {
      NoDouble(img);
    }
    MapSize(img, raw, n);
    OverreachIsStray(img, raw, n);
    ReadersAgree(img, ino);
  }

  lemma NoDouble(img: Image)
    ensures !DoubleStream(img, 0).failed
  {}

  lemma TidyIndirect(img: Image, raw: seq<Byte>, n: nat)
    requires DataStart(img) >= 1 && |raw| >= RAW_MIN && Tidy(img, raw, n)
    requires forall i :: 0 <= i < n ==> BlockOf(img, raw, i).Return?
    ensures !PointerStream(img, Field(raw, OFF_INDIRECT, 4)).failed
  {
    hide FileBlock, PointersOf, Pointer, Field, NonZero;
    if n > NDIRECT {
      assert BlockOf(img, raw, NDIRECT).Return?;
      PointerSame(img, Field(raw, OFF_INDIRECT, 4), 0);
    }
  }
}
