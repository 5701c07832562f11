/** tools/genlegacy.py _qtrle_pack_group and _qtrle_frame_rowmajor, against the decoder of
    c/lib/video/legacy_qtrle.c for 2, 4 and 8 bits per pixel. */
module QtrleFrame {
  import opened Bits
  import opened Outcomes
  import opened Buffers
  import opened QtrleRuns

  /** Bits per pixel of the palette depths. */
  type Depth = d: nat | d in {1, 2, 4, 8} witness 1

  function Base(d: Depth): (b: nat)
    ensures b >= 2
  {
    if d == 1 then 2 else if d == 2 then 4 else if d == 4 then 16 else 256
  }

  function PerByte(d: Depth): (n: nat) { if d == 1 then 8 else if d == 2 then 4 else if d == 4 then 2 else 1 }

  /** QTRLE_GROUP */
  function GroupSize(d: Depth): (n: nat) { if d == 1 || d == 2 then 16 else if d == 4 then 8 else 4 }

  function GroupBytes(d: Depth): (n: nat)
    ensures n * PerByte(d) == GroupSize(d)
  {
    if d == 1 then 2 else 4
  }

  // -------------------------------------------------------------------------- packing --

  /** Pixels cut to their width. */
  function Masked(vals: Group, base: nat): (r: Group)
    requires base > 0
    ensures |r| == |vals| && forall i :: 0 <= i < |vals| ==> r[i] == Remainder(vals[i], base)
  {
    seq(|vals|, i requires 0 <= i < |vals| => Remainder(vals[i], base))
  }

  /** Pixels shifted together, the first one highest. */
  function Horner(vals: Group, base: nat): (n: nat)
    requires base > 0
  {
    if vals == [] then 0 else Horner(vals[..|vals| - 1], base) * base + Remainder(vals[|vals| - 1], base)
  }

  function Digits(x: nat, base: nat, n: nat): (r: Group)
    requires base > 0
    ensures |r| == n
    decreases n
  {
    if n == 0 then [] else Digits(Quotient(x, base), base, n - 1) + [Remainder(x, base)]
  }

  lemma {:induction false} DigitsHorner(vals: Group, base: nat)
    requires base > 0
    ensures Digits(Horner(vals, base), base, |vals|) == Masked(vals, base)
  {
    if vals != [] {
      var front, last := vals[..|vals| - 1], vals[|vals| - 1];
      DigitsHorner(front, base);
      DivModUnique(Horner(vals, base), base, Horner(front, base), Remainder(last, base));
      assert Masked(vals, base) == Masked(front, base) + [Remainder(last, base)];
    }
  }

  function Power(base: nat, n: nat): (p: nat) { if n == 0 then 1 else base * Power(base, n - 1) }

  lemma PowerNext(base: nat, n: nat)
    ensures Power(base, 0) == 1 && (n > 0 ==> Power(base, n) == base * Power(base, n - 1))
  {}

  lemma {:induction false} HornerBound(vals: Group, base: nat)
    requires base > 0
    ensures Horner(vals, base) < Power(base, |vals|)
  {
    hide Power, Remainder;
    PowerNext(base, |vals|);
    if vals != [] {
      var front := vals[..|vals| - 1];
      HornerBound(front, base);
      DigitBound(Horner(front, base), Power(base, |front|), base);
    }
  }

  lemma DigitBound(h: nat, p: nat, base: nat)
    requires h < p
    ensures h * base + base <= base * p
  {
    MulMono(h + 1, p, base);
  }

  lemma ByteFull(d: Depth)
    ensures Power(Base(d), PerByte(d)) == 256
  {
    if d == 1 {
      assert Power(2, 4) == 16;
      assert Power(2, 8) == 2 * (2 * (2 * (2 * Power(2, 4))));
    } else if d == 2 {
      assert Power(4, 4) == 4 * (4 * (4 * (4 * Power(4, 0))));
    } else if d == 4 {
      assert Power(16, 2) == 16 * (16 * Power(16, 0));
    } else {
      assert Power(256, 1) == 256 * Power(256, 0);
    }
  }

  function PackByte(vals: Group, d: Depth): (b: Byte)
    requires |vals| == PerByte(d)
  {
    HornerBound(vals, Base(d));
    ByteFull(d);
    Horner(vals, Base(d))
  }

  /** _qtrle_pack_group, byte by byte: n bytes' worth of pixels. */
  function Pack(vals: Group, n: nat, d: Depth): (r: seq<Byte>)
    requires |vals| == n * PerByte(d)
    ensures |r| == n
    decreases n
  {
    if n == 0 then [] else [PackByte(vals[..PerByte(d)], d)] + Pack(vals[PerByte(d)..], n - 1, d)
  }

  function Unpack(b: seq<Byte>, d: Depth): (r: Group)
    ensures |r| == |b| * PerByte(d)
  {
    if b == [] then [] else Digits(b[0], Base(d), PerByte(d)) + Unpack(b[1..], d)
  }

  /** The pixels of one byte as the decoder takes them: whole, two nibbles, four pairs or eight bits, the
      highest first. */
  lemma UnpackByte(x: Byte)
    ensures Unpack([x], 8) == [x] && Unpack([x], 4) == [x / 16, x % 16]
    ensures Unpack([x], 2) == [x / 64, x / 16 % 4, x / 4 % 4, x % 4]
    ensures Unpack([x], 1) == [x / 128, x / 64 % 2, x / 32 % 2, x / 16 % 2, x / 8 % 2, x / 4 % 2, x / 2 % 2, x % 2]
  {
    hide Unpack, Digits, Quotient, Remainder;
    UnpackOne(x, 8);
    OneDigit(x);
    UnpackOne(x, 4);
    NibbleDigits(x);
    UnpackOne(x, 2);
    PairDigits(x);
    UnpackOne(x, 1);
    BitDigits(x);
  }

  lemma NibbleDigits(x: Byte)
    ensures Digits(x, 16, 2) == [x / 16, x % 16]
  {
    hide Digits;
    TwoDigits(x, 16);
  }

  lemma UnpackOne(x: Byte, d: Depth)
    ensures Unpack([x], d) == Digits(x, Base(d), PerByte(d))
  {
    hide Digits;
    assert [x][1..] == [] && Unpack([], d) == [];
    assert Digits(x, Base(d), PerByte(d)) + [] == Digits(x, Base(d), PerByte(d));
  }

  lemma OneDigit(x: Byte)
    ensures Digits(x, 256, 1) == [x]
  {
    assert Digits(x / 256, 256, 0) == [];
  }

  lemma PairDigits(x: Byte)
    ensures Digits(x, 4, 4) == [x / 64, x / 16 % 4, x / 4 % 4, x % 4]
  {
    hide Digits;
    FourDigits(x, 4);
    assert x / 4 / 4 == x / 16 && x / 16 / 4 == x / 64;
  }

  lemma BitDigits(x: Byte)
    ensures Digits(x, 2, 8) == [x / 128, x / 64 % 2, x / 32 % 2, x / 16 % 2, x / 8 % 2, x / 4 % 2, x / 2 % 2, x % 2]
  {
    hide Digits;
    EightDigits(x);
    FourDigits(x / 16, 2);
    assert x / 16 / 2 == x / 32 && x / 32 / 2 == x / 64 && x / 64 / 2 == x / 128;
  }

  lemma TwoDigits(x: nat, base: nat)
    requires base > 0
    ensures Digits(x, base, 2) == [x / base % base, x % base]
  {
    assert Digits(x / base / base, base, 0) == [];
    assert Digits(x / base, base, 1) == [] + [x / base % base];
  }

  lemma FourDigits(x: nat, base: nat)
    requires base == 2 || base == 4
    ensures Digits(x, base, 4) == [x / base / base / base % base, x / base / base % base, x / base % base, x % base]
  {
    TwoDigits(x / base / base, base);
    assert Digits(x, base, 3 + 1) == Digits(x / base, base, 3) + [x % base];
    assert Digits(x / base, base, 2 + 1) == Digits(x / base / base, base, 2) + [x / base % base];
  }

  lemma EightDigits(x: nat)
    ensures Digits(x, 2, 8) == Digits(x / 16, 2, 4) + [x / 8 % 2, x / 4 % 2, x / 2 % 2, x % 2]
  {
    hide Digits;
    DigitsNext(x, 7);
    DigitsNext(x / 2, 6);
    DigitsNext(x / 4, 5);
    DigitsNext(x / 8, 4);
    assert x / 2 / 2 == x / 4 && x / 4 / 2 == x / 8 && x / 8 / 2 == x / 16;
  }

  lemma DigitsNext(x: nat, n: nat)
    ensures Digits(x, 2, n + 1) == Digits(x / 2, 2, n) + [x % 2]
  {}

  /** Pixels and bytes of a group at each depth. */
  lemma GroupsIs()
    ensures GroupSize(1) == 16 && GroupSize(2) == 16 && GroupSize(4) == 8 && GroupSize(8) == 4
    ensures GroupBytes(1) == 2 && GroupBytes(2) == GroupBytes(4) == GroupBytes(8) == 4
  {}

  lemma MaskedSplit(vals: Group, m: nat, base: nat)
    requires m <= |vals| && base > 0
    ensures Masked(vals, base) == Masked(vals[..m], base) + Masked(vals[m..], base)
  {
    hide Remainder;
  }

  lemma {:induction false} UnpackPack(vals: Group, n: nat, d: Depth)
    requires |vals| == n * PerByte(d)
    ensures Unpack(Pack(vals, n, d), d) == Masked(vals, Base(d))
    decreases n
  {
    hide Digits, Horner, Masked, Base;
    if n > 0 {
      var m := PerByte(d);
      DigitsHorner(vals[..m], Base(d));
      UnpackPack(vals[m..], n - 1, d);
      assert Pack(vals, n, d)[1..] == Pack(vals[m..], n - 1, d);
      MaskedSplit(vals, m, Base(d));
    } else {
      assert Masked(vals, Base(d)) == [];
    }
  }

  lemma {:induction false} UnpackAppend(a: seq<Byte>, b: seq<Byte>, d: Depth)
    ensures Unpack(a + b, d) == Unpack(a, d) + Unpack(b, d)
  {
    hide Digits;
    if a == [] {
      assert a + b == b;
    } else {
      assert (a + b)[1..] == a[1..] + b;
      UnpackAppend(a[1..], b, d);
    }
  }

  // ----------------------------------------------------------------------- operations --

  ghost predicate Sized(gs: Groups, d: Depth) { forall i :: 0 <= i < |gs| ==> |gs[i]| == GroupSize(d) }

  function PackGroup(g: Group, d: Depth): (r: seq<Byte>)
    requires |g| == GroupSize(d)
    ensures |r| == GroupBytes(d)
  {
    Pack(g, GroupBytes(d), d)
  }

  ghost function PackGroups(gs: Groups, d: Depth): (r: seq<Byte>)
    requires Sized(gs, d)
    ensures |r| == |gs| * GroupBytes(d)
  {
    if gs == [] then [] else PackGroup(gs[0], d) + PackGroups(gs[1..], d)
  }

  /** The pixels of a list of groups, cut to their width. */
  ghost function Pixels(gs: Groups, d: Depth): (r: Group)
    requires Sized(gs, d)
    ensures |r| == |gs| * GroupSize(d)
  {
    if gs == [] then [] else Masked(gs[0], Base(d)) + Pixels(gs[1..], d)
  }

  lemma {:induction false} GroupsBack(gs: Groups, d: Depth)
    requires Sized(gs, d)
    ensures Unpack(PackGroups(gs, d), d) == Pixels(gs, d)
  {
    hide Unpack, Pack;
    if gs == [] {
      NoBytes(d);
    } else {
      UnpackPack(gs[0], GroupBytes(d), d);
      GroupsBack(gs[1..], d);
      UnpackAppend(PackGroup(gs[0], d), PackGroups(gs[1..], d), d);
    }
  }

  lemma NoBytes(d: Depth)
    ensures Unpack([], d) == []
  {}

  lemma {:induction false} PixelsAppend(a: Groups, b: Groups, d: Depth)
    requires Sized(a, d) && Sized(b, d)
    ensures Sized(a + b, d) && Pixels(a + b, d) == Pixels(a, d) + Pixels(b, d)
  {
    hide Masked;
    if a == [] {
      assert a + b == b;
    } else {
      assert (a + b)[1..] == a[1..] + b;
      PixelsAppend(a[1..], b, d);
    }
  }

  /** Op byte and payload. */
  ghost function OpBytes(op: Op, d: Depth): (r: seq<Byte>)
    requires OpOk(op) && Sized(Covered(op), d)
    ensures |r| > 0 && r[0] != 0 && r[0] != END
  {
    match op
    case Repeat(n, g) =>
      assert Covered(op)[0] == g;
      [256 - n] + PackGroup(g, d)
    case Copy(gs) => [|gs|] + PackGroups(gs, d)
  }

  const END: Byte := 255

  ghost predicate OpsOk(ops: seq<Op>, d: Depth) {
    AllOk(ops) && forall i :: 0 <= i < |ops| ==> Sized(Covered(ops[i]), d)
  }

  ghost function OpsBytes(ops: seq<Op>, d: Depth): (r: seq<Byte>)
    requires OpsOk(ops, d)
  {
    if ops == [] then [] else OpBytes(ops[0], d) + OpsBytes(ops[1..], d)
  }

  // -------------------------------------------------------------------------- decoding --

  datatype Decoded = Decoded(frame: Group, rest: seq<Byte>)

  /** n copies of a group of pixels. */
  function Replay(g: Group, n: nat): (r: Group)
    ensures |r| == n * |g|
  {
    if n == 0 then []
    else
      assert n * |g| == |g| + (n - 1) * |g|;
      g + Replay(g, n - 1)
  }

  /** The operations of one row, from pixel ptr on, up to the end mark. */
  function DecodeOps(frame: Group, ptr: nat, b: seq<Byte>, d: Depth): (r: Option<Decoded>)
    requires ptr <= |frame|
    ensures r.Some? ==> |r.value.frame| == |frame|
    decreases |b|
  {
    if b == [] then None
    else if b[0] == 255 then Some(Decoded(frame, b[1..]))
    else if b[0] == 0 then
      if |b| < 2 then None
      else
        var to: int := ptr + GroupSize(d) * Back(b[1]);
        if !(0 <= to <= |frame|) then None else DecodeOps(frame, to, b[2..], d)
    else if b[0] >= 128 then
      var n := 256 - b[0];
      if |b| < 1 + GroupBytes(d) then None
      else
        var out := Replay(Unpack(b[1..1 + GroupBytes(d)], d), n);
        if ptr + |out| > |frame| then None
        else DecodeOps(Overlay(frame, ptr, out), ptr + |out|, b[1 + GroupBytes(d)..], d)
    else
      var n := b[0] * GroupBytes(d);
      if |b| < 1 + n then None
      else
        var out := Unpack(b[1..1 + n], d);
        if ptr + |out| > |frame| then None
        else DecodeOps(Overlay(frame, ptr, out), ptr + |out|, b[1 + n..], d)
  }

  /** A skip byte counts from 1. */
  function Back(b: nat): (n: int) { b - 1 }

  function DecodeRows(frame: Group, row: nat, width: nat, lines: nat, b: seq<Byte>, d: Depth): (r: Option<Group>)
    decreases lines
  {
    if lines == 0 then Some(frame)
    else if b == [] then None
    else
      var ptr: int := row + GroupSize(d) * Back(b[0]);
      if !(0 <= ptr <= |frame|) then None
      else
        var one := DecodeOps(frame, ptr, b[1..], d);
        if one.None? then None else DecodeRows(one.value.frame, row + width, width, lines - 1, one.value.rest, d)
  }

  // ------------------------------------------------------------------------- round trip --

  lemma {:induction false} ReplayPixels(g: Group, n: nat, d: Depth)
    requires |g| == GroupSize(d)
    ensures Sized(Times(g, n), d) && Replay(Masked(g, Base(d)), n) == Pixels(Times(g, n), d)
    decreases n
  {
    hide Masked;
    if n > 0 {
      ReplayPixels(g, n - 1, d);
      assert Times(g, n)[1..] == Times(g, n - 1);
    }
  }

  lemma OverlayTwice<T>(s: seq<T>, at: nat, x: seq<T>, y: seq<T>)
    requires at + |x| + |y| <= |s|
    ensures Overlay(Overlay(s, at, x), at + |x|, y) == Overlay(s, at, x + y)
  {
    var t := Overlay(s, at, x);
    assert t[..at + |x|] == s[..at] + x && t[at + |x| + |y|..] == s[at + |x| + |y|..];
  }

  lemma RepeatBack(frame: Group, ptr: nat, n: nat, g: Group, tail: seq<Byte>, d: Depth)
    requires 2 <= n <= LONGEST && |g| == GroupSize(d) && Sized(Times(g, n), d)
    requires ptr + |Pixels(Times(g, n), d)| <= |frame|
    ensures var px := Pixels(Times(g, n), d);
      DecodeOps(frame, ptr, [256 - n] + (PackGroup(g, d) + tail), d)
      == DecodeOps(Overlay(frame, ptr, px), ptr + |px|, tail, d)
  {
    hide Unpack, Pack, Overlay, Pixels, Base, Masked, Replay, GroupBytes, GroupSize, PerByte;
    var b := [256 - n] + (PackGroup(g, d) + tail);
    var w := GroupBytes(d);
    OpSlices(256 - n, PackGroup(g, d), tail);
    UnpackPack(g, w, d);
    ReplayPixels(g, n, d);
  }

  lemma OpSlices(n: Byte, body: seq<Byte>, tail: seq<Byte>)
    ensures var b := [n] + (body + tail);
      |b| >= 1 + |body| && b[0] == n && b[1..1 + |body|] == body && b[1 + |body|..] == tail
  {}

  lemma CopyStep(frame: Group, ptr: nat, n: Byte, body: seq<Byte>, tail: seq<Byte>, d: Depth)
    requires 1 <= n <= LONGEST && |body| == n * GroupBytes(d) && ptr + |Unpack(body, d)| <= |frame|
    ensures var px := Unpack(body, d);
      DecodeOps(frame, ptr, [n] + (body + tail), d) == DecodeOps(Overlay(frame, ptr, px), ptr + |px|, tail, d)
  {
    hide Unpack, Overlay, Replay, GroupBytes, GroupSize, PerByte;
    OpSlices(n, body, tail);
  }

  lemma CopyBack(frame: Group, ptr: nat, gs: Groups, tail: seq<Byte>, d: Depth)
    requires 1 <= |gs| <= LONGEST && Sized(gs, d) && ptr + |Pixels(gs, d)| <= |frame|
    ensures var px := Pixels(gs, d);
      DecodeOps(frame, ptr, [|gs|] + (PackGroups(gs, d) + tail), d)
      == DecodeOps(Overlay(frame, ptr, px), ptr + |px|, tail, d)
  {
    hide Unpack, Overlay, Pixels, PackGroups, DecodeOps, Sized;
    GroupsBack(gs, d);
    CopyStep(frame, ptr, |gs|, PackGroups(gs, d), tail, d);
  }

  /** One operation decodes to the groups it covers. */
  lemma OpBack(frame: Group, ptr: nat, op: Op, tail: seq<Byte>, d: Depth)
    requires OpOk(op) && Sized(Covered(op), d) && ptr + |Pixels(Covered(op), d)| <= |frame|
    ensures var px := Pixels(Covered(op), d);
      DecodeOps(frame, ptr, OpBytes(op, d) + tail, d) == DecodeOps(Overlay(frame, ptr, px), ptr + |px|, tail, d)
  {
    hide DecodeOps, Overlay, Pixels, PackGroups, PackGroup, GroupSize, GroupBytes;
    match op
    case Repeat(n, g) =>
      assert Covered(op)[0] == g;
      ConcatAssoc([256 - n], PackGroup(g, d), tail);
      RepeatBack(frame, ptr, n, g, tail, d);
    case Copy(gs) =>
      ConcatAssoc([|gs|], PackGroups(gs, d), tail);
      CopyBack(frame, ptr, gs, tail, d);
  }

  lemma {:induction false} OpsBack(frame: Group, ptr: nat, ops: seq<Op>, tail: seq<Byte>, d: Depth)
    requires OpsOk(ops, d) && Sized(CoveredAll(ops), d) && ptr + |Pixels(CoveredAll(ops), d)| <= |frame|
    ensures var px := Pixels(CoveredAll(ops), d);
      DecodeOps(frame, ptr, OpsBytes(ops, d) + tail, d) == DecodeOps(Overlay(frame, ptr, px), ptr + |px|, tail, d)
    decreases |ops|
  {
    hide DecodeOps, OpBytes, Overlay, Covered, OpOk;
    if ops == [] {
      NoPixels(d);
      OverlayNothing(frame, ptr);
      assert OpsBytes(ops, d) + tail == tail;
    } else {
      var op, more := ops[0], ops[1..];
      SizedParts(Covered(op), CoveredAll(more), d);
      PixelsAppend(Covered(op), CoveredAll(more), d);
      var x, y := Pixels(Covered(op), d), Pixels(CoveredAll(more), d);
      ConcatAssoc(OpBytes(op, d), OpsBytes(more, d), tail);
      OpBack(frame, ptr, op, OpsBytes(more, d) + tail, d);
      OpsBack(Overlay(frame, ptr, x), ptr + |x|, more, tail, d);
      OverlayTwice(frame, ptr, x, y);
    }
  }

  lemma SizedParts(a: Groups, b: Groups, d: Depth)
    requires Sized(a + b, d)
    ensures Sized(a, d) && Sized(b, d)
  {
    assert forall i :: 0 <= i < |a| ==> a[i] == (a + b)[i];
    assert forall i :: 0 <= i < |b| ==> b[i] == (a + b)[|a| + i];
  }

  lemma NoPixels(d: Depth)
    ensures Pixels([], d) == [] && CoveredAll([]) == []
  {}

  lemma OverlayNothing<T>(s: seq<T>, at: nat)
    requires at <= |s|
    ensures Overlay(s, at, []) == s
  {
    assert s[..at] + [] + s[at..] == s;
  }

  /** Start byte, operations, end mark. */
  ghost function RowBytes(ops: seq<Op>, d: Depth): (r: seq<Byte>)
    requires OpsOk(ops, d)
  {
    [1] + (OpsBytes(ops, d) + [END])
  }

  ghost predicate RowsOk(all: seq<seq<Op>>, width: nat, d: Depth) {
    forall i :: 0 <= i < |all| ==>
      OpsOk(all[i], d) && Sized(CoveredAll(all[i]), d) && |CoveredAll(all[i])| * GroupSize(d) == width
  }

  ghost function FrameBytes(all: seq<seq<Op>>, width: nat, d: Depth): (r: seq<Byte>)
    requires RowsOk(all, width, d)
  {
    if all == [] then [] else RowBytes(all[0], d) + FrameBytes(all[1..], width, d)
  }

  ghost function FramePixels(all: seq<seq<Op>>, width: nat, d: Depth): (r: Group)
    requires RowsOk(all, width, d)
    ensures |r| == |all| * width
  {
    if all == [] then []
    else
      assert |all| * width == width + (|all| - 1) * width;
      Pixels(CoveredAll(all[0]), d) + FramePixels(all[1..], width, d)
  }

  lemma RowConcat(ops: seq<Byte>, rest: seq<Byte>)
    ensures var b := [1] + (ops + [END]) + rest; b[0] == 1 && b[1..] == ops + ([END] + rest)
  {}

  /** The first row and the rest. */
  lemma FrameCons(all: seq<seq<Op>>, width: nat, d: Depth)
    requires RowsOk(all, width, d) && all != []
    ensures RowsOk(all[1..], width, d) && |all| * width == width + |all[1..]| * width
    ensures OpsOk(all[0], d) && Sized(CoveredAll(all[0]), d) && |Pixels(CoveredAll(all[0]), d)| == width
    ensures var b := FrameBytes(all, width, d);
      |b| > 0 && b[0] == 1 && b[1..] == OpsBytes(all[0], d) + ([END] + FrameBytes(all[1..], width, d))
    ensures FramePixels(all, width, d) == Pixels(CoveredAll(all[0]), d) + FramePixels(all[1..], width, d)
  {
    hide OpsBytes, Pixels, CoveredAll, OpsOk, Sized, GroupSize, RowsOk;
    FirstRowOk(all, width, d);
    assert |all| * width == width + (|all| - 1) * width;
    RowConcat(OpsBytes(all[0], d), FrameBytes(all[1..], width, d));
  }

  lemma FirstRowOk(all: seq<seq<Op>>, width: nat, d: Depth)
    requires RowsOk(all, width, d) && all != []
    ensures RowsOk(all[1..], width, d)
    ensures OpsOk(all[0], d) && Sized(CoveredAll(all[0]), d) && |Pixels(CoveredAll(all[0]), d)| == width
  {
    hide OpsOk, Sized, CoveredAll, Pixels, GroupSize;
    assert forall i :: 0 <= i < |all[1..]| ==> all[1..][i] == all[i + 1];
  }

  /** Expanding a frame paints every row where it belongs. */
  lemma {:induction false} FrameBack(frame: Group, row: nat, width: nat, all: seq<seq<Op>>, d: Depth)
    requires RowsOk(all, width, d) && row + |all| * width <= |frame|
    ensures DecodeRows(frame, row, width, |all|, FrameBytes(all, width, d), d)
            == Some(Overlay(frame, row, FramePixels(all, width, d)))
    decreases |all|
  {
    hide DecodeOps, OpsBytes, Overlay, Pixels, CoveredAll, OpsOk, Sized, FrameBytes, FramePixels, RowsOk;
    if all == [] {
      NoRows(width, d);
      OverlayNothing(frame, row);
    } else {
      FrameCons(all, width, d);
      var px, more := Pixels(CoveredAll(all[0]), d), all[1..];
      var rest := FrameBytes(more, width, d);
      OpsBack(frame, row, all[0], [END] + rest, d);
      RowEnds(Overlay(frame, row, px), row + width, rest, d);
      FrameBack(Overlay(frame, row, px), row + width, width, more, d);
      OverlayTwice(frame, row, px, FramePixels(more, width, d));
    }
  }

  lemma NoRows(width: nat, d: Depth)
    ensures RowsOk([], width, d) && FrameBytes([], width, d) == [] && FramePixels([], width, d) == []
  {}

  lemma RowEnds(frame: Group, ptr: nat, rest: seq<Byte>, d: Depth)
    requires ptr <= |frame|
    ensures DecodeOps(frame, ptr, [END] + rest, d) == Some(Decoded(frame, rest))
  {
    assert ([END] + rest)[1..] == rest;
  }

  // --------------------------------------------------------------------- the generator --

  /** A row in groups. */
  function Split(row: Group, n: nat, d: Depth): (gs: Groups)
    requires |row| == n * GroupSize(d)
    ensures |gs| == n && forall i :: 0 <= i < n ==> |gs[i]| == GroupSize(d)
    decreases n
  {
    if n == 0 then [] else [row[..GroupSize(d)]] + Split(row[GroupSize(d)..], n - 1, d)
  }

  lemma {:induction false} SplitPixels(row: Group, n: nat, d: Depth)
    requires |row| == n * GroupSize(d)
    ensures Sized(Split(row, n, d), d) && Pixels(Split(row, n, d), d) == Masked(row, Base(d))
    decreases n
  {
    hide Masked, Base, GroupSize;
    if n == 0 {
      assert Masked(row, Base(d)) == [];
    } else {
      SplitPixels(row[GroupSize(d)..], n - 1, d);
      assert Split(row, n, d)[1..] == Split(row[GroupSize(d)..], n - 1, d);
      MaskedSplit(row, GroupSize(d), Base(d));
    }
  }

  /** Whole groups only, and no stretch too long for one operation. */
  ghost predicate RowFits(row: Group, d: Depth) {
    |row| % GroupSize(d) == 0 && Short(Split(row, |row| / GroupSize(d), d))
  }

  ghost predicate SizedOps(ops: seq<Op>, d: Depth) { OpsOk(ops, d) && Sized(CoveredAll(ops), d) }

  lemma {:induction false} OpsSized(ops: seq<Op>, d: Depth)
    requires AllOk(ops) && Sized(CoveredAll(ops), d)
    ensures OpsOk(ops, d)
  {
    hide Covered, OpOk;
    if ops != [] {
      SizedParts(Covered(ops[0]), CoveredAll(ops[1..]), d);
      OpsSized(ops[1..], d);
    }
  }

  /** The bytes of one row: refused exactly when the row does not fit. */
  method EncodeRow(row: Group, d: Depth) returns (r: Outcome<seq<Byte>>, ghost ops: seq<Op>)
    ensures r.Return? <==> RowFits(row, d)
    ensures r.Return? ==> SizedOps(ops, d) && r.value == RowBytes(ops, d)
    ensures r.Return? ==> |CoveredAll(ops)| * GroupSize(d) == |row|
    ensures r.Return? ==> Pixels(CoveredAll(ops), d) == Masked(row, Base(d))
  {
    hide CoveredAll, Pixels, Masked, Short, OpsBytes, OpBytes, OpOk, Covered;
    ops := [];
    if |row| % GroupSize(d) != 0 {
      return Raise, ops;
    }
    var n := |row| / GroupSize(d);
    var gs := Split(row, n, d);
    var list := RowOps(gs);
    if list.Raise? {
      return Raise, ops;
    }
    ops := list.value;
    SplitPixels(row, n, d);
    OpsSized(ops, d);
    var body := EncodeOps(list.value, d);
    r := Return([1] + (body + [END]));
  }

  method EncodeOps(ops: seq<Op>, d: Depth) returns (out: seq<Byte>)
    requires OpsOk(ops, d)
    ensures out == OpsBytes(ops, d)
  {
    hide OpBytes, Covered, OpOk, AllOk;
    out := [];
    assert ops[0..] == ops;
    for k := 0 to |ops|
      invariant OpsOk(ops[k..], d) && out + OpsBytes(ops[k..], d) == OpsBytes(ops, d)
    {
      assert ops[k..][1..] == ops[k + 1..] && ops[k..][0] == ops[k];
      TailOk(ops[k..], d);
      var one := EncodeOp(ops[k], d);
      ConcatAssoc(out, one, OpsBytes(ops[k + 1..], d));
      out := out + one;
    }
    assert out + [] == out;
  }

  lemma TailOk(ops: seq<Op>, d: Depth)
    requires OpsOk(ops, d) && ops != []
    ensures OpsOk(ops[1..], d) && OpOk(ops[0]) && Sized(Covered(ops[0]), d)
  {}

  method EncodeOp(op: Op, d: Depth) returns (out: seq<Byte>)
    requires OpOk(op) && Sized(Covered(op), d)
    ensures out == OpBytes(op, d)
  {
    hide PackGroup, GroupSize, GroupBytes, Base, PerByte;
    match op
    case Repeat(n, g) =>
      assert Covered(op)[0] == g;
      out := [256 - n] + PackGroup(g, d);
    case Copy(gs) =>
      out := [];
      assert gs[0..] == gs;
      for k := 0 to |gs|
        invariant Sized(gs[k..], d) && out + PackGroups(gs[k..], d) == PackGroups(gs, d)
      {
        assert gs[k..][1..] == gs[k + 1..];
        ConcatAssoc(out, PackGroup(gs[k], d), PackGroups(gs[k + 1..], d));
        out := out + PackGroup(gs[k], d);
      }
      assert out + [] == out;
      out := [|gs|] + out;
  }

  function Flat(rows: seq<Group>): (r: Group) { if rows == [] then [] else rows[0] + Flat(rows[1..]) }

  /** _qtrle_frame_rowmajor: for rows of one width, expanding the bytes over any frame of the right
      size gives back exactly the rows, each pixel cut to its depth. */
  method EncodeFrame(rows: seq<Group>, width: nat, d: Depth) returns (r: Outcome<seq<Byte>>)
    requires forall i :: 0 <= i < |rows| ==> |rows[i]| == width
    ensures r.Return? <==> forall i :: 0 <= i < |rows| ==> RowFits(rows[i], d)
    ensures r.Return? ==> forall frame: Group :: |frame| == |rows| * width ==>
      DecodeRows(frame, 0, width, |rows|, r.value, d) == Some(Masked(Flat(rows), Base(d)))
  {
    hide RowFits, SizedOps, RowBytes, CoveredAll, Pixels, Masked, DecodeRows, FrameBytes, FramePixels, Flat,
        RowsOk, Base, GroupSize;
    var out: seq<Byte> := [];
    ghost var all: seq<seq<Op>> := [];
    NoRows(width, d);
    NothingFlat(d);
    assert rows[..0] == [];
    for k := 0 to |rows|
      invariant |all| == k && RowsOk(all, width, d) && out == FrameBytes(all, width, d)
      invariant FramePixels(all, width, d) == Masked(Flat(rows[..k]), Base(d))
      invariant forall i :: 0 <= i < k ==> RowFits(rows[i], d)
    {
      var one, ops := EncodeRow(rows[k], d);
      if one.Raise? {
        assert !RowFits(rows[k], d);
        return Raise;
      }
      FrameSnoc(all, ops, width, d);
      assert rows[..k + 1] == rows[..k] + [rows[k]];
      FlatSnoc(rows[..k], rows[k], d);
      all := all + [ops];
      out := out + one.value;
    }
    assert rows[..|rows|] == rows;
    forall frame: Group | |frame| == |rows| * width
      ensures DecodeRows(frame, 0, width, |rows|, out, d) == Some(Masked(Flat(rows), Base(d)))
    {
      FrameBack(frame, 0, width, all, d);
      OverlayAll(frame, FramePixels(all, width, d));
    }
    r := Return(out);
  }

  lemma OverlayAll<T>(s: seq<T>, part: seq<T>)
    requires |part| == |s|
    ensures Overlay(s, 0, part) == part
  {}

  lemma NothingFlat(d: Depth)
    ensures Flat([]) == [] && Masked([], Base(d)) == []
  {}

  lemma {:induction false} FlatConcat(rows: seq<Group>, row: Group)
    ensures Flat(rows + [row]) == Flat(rows) + row
  {
    if rows == [] {
      assert rows + [row] == [row] && [row][1..] == [];
    } else {
      assert (rows + [row])[1..] == rows[1..] + [row];
      FlatConcat(rows[1..], row);
    }
  }

  lemma FlatSnoc(rows: seq<Group>, row: Group, d: Depth)
    ensures Masked(Flat(rows + [row]), Base(d)) == Masked(Flat(rows), Base(d)) + Masked(row, Base(d))
  {
    hide Masked, Flat, Base;
    FlatConcat(rows, row);
    var t := Flat(rows) + row;
    assert t[..|Flat(rows)|] == Flat(rows) && t[|Flat(rows)|..] == row;
    MaskedSplit(t, |Flat(rows)|, Base(d));
  }

  lemma RowsSnoc(all: seq<seq<Op>>, ops: seq<Op>, width: nat, d: Depth)
    requires RowsOk(all, width, d) && SizedOps(ops, d) && |CoveredAll(ops)| * GroupSize(d) == width
    ensures RowsOk(all + [ops], width, d) && RowsOk([ops], width, d)
  {
    hide CoveredAll, OpsOk, Sized, GroupSize;
  }

  lemma OneRow(ops: seq<Op>, width: nat, d: Depth)
    requires RowsOk([ops], width, d) && OpsOk(ops, d) && Sized(CoveredAll(ops), d)
    ensures FrameBytes([ops], width, d) == RowBytes(ops, d)
    ensures FramePixels([ops], width, d) == Pixels(CoveredAll(ops), d)
  {
    hide RowBytes, Pixels, CoveredAll, OpsOk, Sized, GroupSize;
    assert [ops][1..] == [];
    NoRows(width, d);
  }

  lemma {:induction false} FrameAppend(a: seq<seq<Op>>, b: seq<seq<Op>>, width: nat, d: Depth)
    requires RowsOk(a, width, d) && RowsOk(b, width, d) && RowsOk(a + b, width, d)
    ensures FrameBytes(a + b, width, d) == FrameBytes(a, width, d) + FrameBytes(b, width, d)
    ensures FramePixels(a + b, width, d) == FramePixels(a, width, d) + FramePixels(b, width, d)
    decreases |a|
  {
    hide RowBytes, Pixels, CoveredAll, OpsOk, Sized, GroupSize;
    if a == [] {
      assert a + b == b;
      ConcatAssoc([], [], FrameBytes(b, width, d));
      ConcatAssoc([], [], FramePixels(b, width, d));
    } else {
      assert (a + b)[1..] == a[1..] + b && (a + b)[0] == a[0];
      FrameAppend(a[1..], b, width, d);
      ConcatAssoc(RowBytes(a[0], d), FrameBytes(a[1..], width, d), FrameBytes(b, width, d));
      ConcatAssoc(Pixels(CoveredAll(a[0]), d), FramePixels(a[1..], width, d), FramePixels(b, width, d));
    }
  }

  lemma FrameSnoc(all: seq<seq<Op>>, ops: seq<Op>, width: nat, d: Depth)
    requires RowsOk(all, width, d) && SizedOps(ops, d) && |CoveredAll(ops)| * GroupSize(d) == width
    ensures RowsOk(all + [ops], width, d)
    ensures FrameBytes(all + [ops], width, d) == FrameBytes(all, width, d) + RowBytes(ops, d)
    ensures FramePixels(all + [ops], width, d) == FramePixels(all, width, d) + Pixels(CoveredAll(ops), d)
  {
    hide RowBytes, Pixels, CoveredAll, OpsOk, Sized, GroupSize, FrameBytes, FramePixels, RowsOk;
    RowsSnoc(all, ops, width, d);
    FrameAppend(all, [ops], width, d);
    OneRow(ops, width, d);
  }
}
