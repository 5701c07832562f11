/** tools/gguf.c gguf_get: which bytes of the mapping an element is read from, and for which accepted
    tensors they all lie inside the file. Addresses and sizes are 64 bits wide. */
module GgufMemory {
  import opened Bits
  import opened Outcomes
  import opened Bytes
  import opened Buffers
  import opened GgufCursor
  import opened GgufFile

  // ------------------------------------------------------------------- element access --

  /** The bytes gguf_get reads for one element, counted from the tensor's start: a scale or number of
      w bytes at lo, and for a quantised element one more byte at lane. */
  datatype Touch = Touch(lo: nat, w: nat, lane: Option<nat>)

  function Touched(t: Tensor, idx: nat): (r: Touch) {
    if t.t == GGML_F32 then Touch(idx * 4, 4, None)
    else if t.t == GGML_F16 then Touch(idx * 2, 2, None)
    else Touch(idx / 32 * 34, 2, Some(idx / 32 * 34 + 2 + idx % 32))
  }

  /** Element idx of type 0 or 1 is the idx-th number; of type 8, element j of block m shares the block's
      scale, two bytes at 34 * m, and is byte j behind it. */
  lemma TouchedIs(t: Tensor, idx: nat, m: nat, j: nat)
    requires j < 32
    ensures t.t == 0 ==> Touched(t, idx) == Touch(4 * idx, 4, None)
    ensures t.t == 1 ==> Touched(t, idx) == Touch(2 * idx, 2, None)
    ensures t.t == 8 ==> Touched(t, 32 * m + j) == Touch(34 * m, 2, Some(34 * m + 2 + j))
  {
    assert (32 * m + j) / 32 == m && (32 * m + j) % 32 == j;
  }

  /** The first dimension keeps the wrapped count a multiple of 32. */
  lemma {:induction false} RowsOf32(dims: seq<nat>)
    requires dims != [] && dims[0] % 32 == 0
    ensures Numel(dims) % 32 == 0
    decreases |dims|
  {
    var front, last := dims[..|dims| - 1], dims[|dims| - 1];
    if front == [] {
      assert Numel(front) == 1;
      Wrap32(dims[0]);
    } else {
      RowsOf32(front);
      var n := Numel(front);
      assert n == 32 * (n / 32);
      assert n * last == 32 * (n / 32 * last);
      Wrap32(n * last);
    }
  }

  lemma Wrap32(n: nat)
    requires n % 32 == 0
    ensures Wrap64(n) % 32 == 0
  {}

  /** Every touched byte belongs to the tensor's bytes. */
  lemma TouchWithin(t: Tensor, idx: nat)
    requires Known(t) && idx < Elements(t)
    ensures var r := Touched(t, idx); r.lo + r.w <= Size(t) && (r.lane.Some? ==> r.lane.value < Size(t))
  {
    hide Numel;
    if t.t == GGML_Q8_0 { RowsOf32(t.dims); }
  }

  /** Every byte of the tensor is touched by some element. */
  lemma ByteTouched(t: Tensor, b: nat) returns (idx: nat)
    requires Known(t) && b < Size(t)
    ensures idx < Elements(t)
    ensures var r := Touched(t, idx); r.lo <= b < r.lo + r.w || r.lane == Some(b)
  {
    hide Numel;
    if t.t == GGML_F32 {
      idx := b / 4;
    } else if t.t == GGML_F16 {
      idx := b / 2;
    } else {
      RowsOf32(t.dims);
      var block, r := b / 34, b % 34;
      idx := 32 * block + if r < 2 then 0 else r - 2;
      assert idx / 32 == block;
    }
  }

  /** Different quantised elements use different bytes of a tensor, and the 32 lanes of a block lie in
      one row. */
  lemma LanesApart(t: Tensor, a: nat, b: nat)
    requires t.t == GGML_Q8_0 && t.dims != [] && t.dims[0] % 32 == 0 && t.dims[0] > 0
    ensures Touched(t, a).lane == Touched(t, b).lane ==> a == b
    ensures a / 32 == b / 32 ==> a / t.dims[0] == b / t.dims[0]
  {
    if a / 32 == b / 32 {
      var d, q := t.dims[0], t.dims[0] / 32;
      SameRow(a, a / 32, q, d);
      SameRow(b, b / 32, q, d);
    }
  }

  lemma SameRow(a: nat, k: nat, q: nat, d: nat)
    requires d == 32 * q && q > 0 && k == a / 32
    ensures a / d == k / q
  {
    var h, m := QuotRem(k, q);
    assert d * h == 32 * (h * q);
    DivModUnique(a, d, h, 32 * m + a % 32);
  }

  // ------------------------------------------------------------------ inside the file --

  /** Where byte b of a tensor is in the mapping, as 64-bit address arithmetic finds it; whatever is
      not below the file's length is outside. */
  function Position(g: Gguf, t: Tensor, b: nat): (r: nat) { Wrap64(g.data0 + t.off + b) }

  /** The w bytes from b on lie in the file, at or behind position from. */
  predicate BytesIn(p: Blob, g: Gguf, t: Tensor, b: nat, w: nat, from: nat) {
    from <= Position(g, t, b) && Position(g, t, b) + w <= |p|
  }

  predicate ElementIn(p: Blob, g: Gguf, t: Tensor, idx: nat, from: nat) {
    var r := Touched(t, idx);
    BytesIn(p, g, t, r.lo, r.w, from) && (r.lane.Some? ==> BytesIn(p, g, t, r.lane.value, 1, from))
  }

  /** Every element that gguf_get reads is read there. */
  ghost predicate AllIn(p: Blob, g: Gguf, t: Tensor, from: nat) {
    forall idx :: 0 <= idx < Elements(t) ==> ElementIn(p, g, t, idx, from)
  }

  lemma WrapShift(base: nat, b: nat)
    requires Wrap64(base) + b < MAX64
    ensures Wrap64(base + b) == Wrap64(base) + b
  {}

  /** If the tensor's bytes run up to 2^64, the last address below it is read, and no file reaches it. */
  lemma RunsOver(p: Blob, g: Gguf, t: Tensor) returns (idx: nat)
    requires Known(t) && |p| < MAX64 && Wrap64(g.data0 + t.off) + Size(t) >= MAX64
    ensures idx < Elements(t) && forall from :: !ElementIn(p, g, t, idx, from)
  {
    hide Numel, Wrap64, Size;
    var base := Wrap64(g.data0 + t.off);
    var b := MAX64 - 1 - base;
    idx := ByteTouched(t, b);
    var r := Touched(t, idx);
    WrapShift(g.data0 + t.off, b);
    if r.lo <= b < r.lo + r.w { WrapShift(g.data0 + t.off, r.lo); }
  }

  /** The half without wrap-around: every element is read inside its own tensor's range of the file. */
  lemma GetInside(p: Blob, g: Gguf, t: Tensor, idx: nat)
    requires Fits(p, g, t) && idx < Elements(t) && g.data0 + t.off + Size(t) < MAX64
    ensures var r := Touched(t, idx);
      var base := g.data0 + t.off;
      && Position(g, t, r.lo) == base + r.lo && base + r.lo + r.w <= base + Size(t) <= |p|
      && (r.lane.Some? ==> Position(g, t, r.lane.value) == base + r.lane.value < base + Size(t))
  {
    hide Numel, Size;
    TouchWithin(t, idx);
  }

  /** For every accepted tensor: all its elements are read inside the file exactly when there are none
      or its bytes, from where they start modulo 2^64, do not run up to 2^64. */
  lemma InsideFile(p: Blob, g: Gguf, t: Tensor)
    requires Fits(p, g, t) && |p| < MAX64
    ensures AllIn(p, g, t, 0) <==> Elements(t) == 0 || Wrap64(g.data0 + t.off) + Size(t) < MAX64
  {
    hide Numel, Size, Touched, Wrap64;
    var base := g.data0 + t.off;
    if Wrap64(base) + Size(t) < MAX64 {
      WrapShift(base, Size(t));
      SmallSize(t);
      forall idx | 0 <= idx < Elements(t) ensures ElementIn(p, g, t, idx, 0) {
        TouchWithin(t, idx);
        var r := Touched(t, idx);
        WrapShift(base, r.lo);
        if r.lane.Some? { WrapShift(base, r.lane.value); }
      }
    } else {
      var idx := RunsOver(p, g, t);
      assert !ElementIn(p, g, t, idx, 0);
    }
  }

  lemma SmallSize(t: Tensor)
    requires Size(t) < MAX64
    ensures Wrap64(Size(t)) == Size(t)
  {}

  /** And all its elements are read in the payload, behind the tables, exactly when there are none or
      neither its size nor the sum of the bound check reaches 2^64. */
  lemma InsidePayload(p: Blob, g: Gguf, t: Tensor)
    requires Fits(p, g, t) && |p| < MAX64 && g.data0 < MAX64 && t.off < MAX64
    ensures AllIn(p, g, t, g.data0) <==> Elements(t) == 0 || g.data0 + t.off + Size(t) < MAX64
  {
    hide Numel, Size, Touched;
    var base := g.data0 + t.off;
    if base + Size(t) < MAX64 {
      forall idx | 0 <= idx < Elements(t) ensures ElementIn(p, g, t, idx, g.data0) {
        TouchWithin(t, idx);
        GetInside(p, g, t, idx);
      }
    } else if Elements(t) > 0 {
      if base < MAX64 {
        var idx := RunsOver(p, g, t);
        assert !ElementIn(p, g, t, idx, g.data0);
      } else {
        FirstByte(t);
        assert Position(g, t, 0) < g.data0;
        assert !ElementIn(p, g, t, 0, g.data0);
      }
    }
  }

  /** The same for every tensor of every file that opens. */
  lemma OpenedInside(p: Blob, widen: nat -> nat, k: nat)
    requires |p| < MAX64 && Accepted(p, widen) && k < |Parse(p).value.tensors|
    ensures var g := Placed(Parse(p).value, Alignment(Parse(p).value.kvs, widen));
      var t := Parse(p).value.tensors[k];
      && (AllIn(p, g, t, 0) <==> Elements(t) == 0 || Wrap64(g.data0 + t.off) + Size(t) < MAX64)
      && (AllIn(p, g, t, g.data0) <==> Elements(t) == 0 || g.data0 + t.off + Size(t) < MAX64)
  {
    hide Parse, Alignment, DataStart, AllIn, Size, Wrap64, Elements, Fits, OneBit;
    var g := Placed(Parse(p).value, Alignment(Parse(p).value.kvs, widen));
    var t := Parse(p).value.tensors[k];
    assert g.parsed.tensors[k] == t;
    InsideFile(p, g, t);
    InsidePayload(p, g, t);
  }

  lemma FirstByte(t: Tensor)
    ensures Touched(t, 0).lo == 0
  {}

  // ------------------------------------------------------------------- where it fails --

  /** A file with one tensor and no keys; seven zeros bring it to the payload's start at 64. */
  function OneTensorFile(t: Tensor): (p: Blob) {
    HeadBytes(3, 1, 0) + TensorsBytes([t]) + Zeros(7)
  }

  /** A tensor with a one-letter name and one dimension. */
  function Flat(dim: nat, off: nat): (t: Tensor) { Tensor([116], [dim], GGML_F32, off) }

  /** Such a file parses, with its payload at 64, where the file ends. */
  lemma OneTensorParsed(dim: nat, off: nat)
    requires dim < MAX64 && off < MAX64
    ensures var t, p := Flat(dim, off), OneTensorFile(Flat(dim, off));
      |p| == 64 && Parse(p) == Return(Parsed(3, [], [t], 57)) && DataStart(57, 32) == 64
  {
    hide HeadBytes, Parse, ToLe;
    var t := Flat(dim, off);
    var p := OneTensorFile(t);
    var one: seq<nat> := [dim];
    assert [t][1..] == [] && one[1..] == [] && DimsBytes([]) == [];
    assert DimsBytes(one) == ToLe(dim, 8) + [];
    assert |TensorBytes(t)| == 33;
    assert TensorsBytes([t]) == TensorBytes(t) + TensorsBytes([]);
    assert KvsBytes([]) == [];
    var head := HeadBytes(3, 1, 0);
    assert head + ([] + TensorsBytes([t])) == p[..57];
    assert HasAt(p, 0, head + (KvsBytes([]) + TensorsBytes([t])));
    assert TensorOk(t);
    ParseBack(p, 3, [], [t]);
    assert TensorsRead([t]) == [t] && KvsRead([]) == [];
  }

  lemma OneTensorAccepted(dim: nat, off: nat, widen: nat -> nat)
    requires dim < MAX64 && off < MAX64
    ensures var t, p := Flat(dim, off), OneTensorFile(Flat(dim, off));
      var g := Gguf(Parsed(3, [], [t], 57), 32, 64);
      && |p| == 64 && (Fits(p, g, t) ==> Accepted(p, widen))
      && Parse(p).Return? && Alignment(Parse(p).value.kvs, widen) == 32 && g == Placed(Parse(p).value, 32)
  {
    hide OneTensorFile, Parse, DataStart, Fits;
    OneTensorParsed(dim, off);
    var t := Flat(dim, off);
    OneBitOf(5);
    assert Pow2(5) == 32;
  }

  const BIG: nat := 0x4000_0000_0000_0000
  const FAR: nat := 0x100_0000_0000

  /** 2^62 four-byte elements take 2^64 bytes, which the check sees as none: the file is accepted, and
      element 2^40 is read far behind it. */
  lemma SizeWraps(widen: nat -> nat)
    ensures var t, p := Flat(BIG, 0), OneTensorFile(Flat(BIG, 0));
      var g := Gguf(Parsed(3, [], [t], 57), 32, 64);
      Accepted(p, widen) && g == Placed(Parse(p).value, 32) && FAR < Elements(t) && !ElementIn(p, g, t, FAR, 0)
  {
    hide OneTensorFile, Parse, Accepted;
    var t := Flat(BIG, 0);
    OneTensorAccepted(BIG, 0, widen);
    FlatElements(BIG, 0);
  }

  /** 1024 elements 4096 bytes in front of the mapping: the bound check's sum wraps to zero. */
  lemma SumWraps(widen: nat -> nat)
    ensures var t, p := Flat(1024, MAX64 - 4160), OneTensorFile(Flat(1024, MAX64 - 4160));
      var g := Gguf(Parsed(3, [], [t], 57), 32, 64);
      Accepted(p, widen) && g == Placed(Parse(p).value, 32) && !ElementIn(p, g, t, 0, 0)
  {
    hide OneTensorFile, Parse, Accepted;
    OneTensorAccepted(1024, MAX64 - 4160, widen);
    FlatElements(1024, MAX64 - 4160);
  }

  /** An offset that wraps all the way round is read inside the file, but in its tables. */
  lemma OffsetWraps(widen: nat -> nat)
    ensures var t, p := Flat(4, MAX64 - 64), OneTensorFile(Flat(4, MAX64 - 64));
      var g := Gguf(Parsed(3, [], [t], 57), 32, 64);
      Accepted(p, widen) && AllIn(p, g, t, 0) && !ElementIn(p, g, t, 0, 64)
  {
    hide OneTensorFile, Parse, Accepted, AllIn, ElementIn;
    var t, p := Flat(4, MAX64 - 64), OneTensorFile(Flat(4, MAX64 - 64));
    var g := Gguf(Parsed(3, [], [t], 57), 32, 64);
    OneTensorAccepted(4, MAX64 - 64, widen);
    FlatElements(4, MAX64 - 64);
    InsideFile(p, g, t);
    InFront(p, g, t);
  }

  lemma InFront(p: Blob, g: Gguf, t: Tensor)
    requires Position(g, t, 0) < g.data0
    ensures !ElementIn(p, g, t, 0, g.data0)
  {
    hide Position;
    FirstByte(t);
  }

  lemma FlatElements(dim: nat, off: nat)
    requires dim < MAX64
    ensures Elements(Flat(dim, off)) == dim && Size(Flat(dim, off)) == dim * 4 && Known(Flat(dim, off))
  {
    var dims := [dim];
    assert dims[..0] == [];
    assert Numel(dims) == Wrap64(Numel(dims[..0]) * dim);
  }
}
