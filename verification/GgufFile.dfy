/** tools/gguf.c gguf_open: the key and tensor tables and the bounds check, with sizes that wrap at
    2^64 as the reader computes them. */
module GgufFile {
  import opened Bits
  import opened Outcomes
  import opened Bytes
  import opened Buffers
  import opened Bitwise
  import opened GgufCursor

  datatype Kv = Kv(key: seq<Byte>, t: nat, note: Note)
  datatype Tensor = Tensor(name: seq<Byte>, dims: seq<nat>, t: nat, off: nat)

  const KEY_MAX: nat := 95
  const TENSOR_NAME_MAX: nat := 63
  const MAXDIM: nat := 4
  const MAX_TENSORS: nat := 1000000
  const MAX_KEYS: nat := 100000

  function Clip(s: seq<Byte>, n: nat): (r: seq<Byte>) { if |s| > n then s[..n] else s }

  // -------------------------------------------------------------------------- parsing --

  function OneKv(p: Blob, at: At): (r: Read<Kv>)
    ensures Moves(p, at, r.at)
  {
    var key := Str(p, at);
    var t := Number(p, key.at, 4);
    var note := Skip(p, t.at, t.value);
    Read(Kv(Clip(key.value, KEY_MAX), t.value, note.value), note.at)
  }

  function Kvs(p: Blob, at: At, n: nat): (r: Read<seq<Kv>>)
    ensures Moves(p, at, r.at)
    decreases n
  {
    if n == 0 || at.bad then Read([], at)
    else
      var first := OneKv(p, at);
      var rest := Kvs(p, first.at, n - 1);
      Read([first.value] + rest.value, rest.at)
  }

  function Dims(p: Blob, at: At, n: nat): (r: Read<seq<nat>>)
    ensures Moves(p, at, r.at) && |r.value| == n
    decreases n
  {
    if n == 0 then Read([], at)
    else
      var first := Number(p, at, 8);
      var rest := Dims(p, first.at, n - 1);
      Read([first.value] + rest.value, rest.at)
  }

  function OneTensor(p: Blob, at: At): (r: Read<Tensor>)
    ensures Moves(p, at, r.at)
    ensures !r.at.bad ==> 1 <= |r.value.dims| <= MAXDIM && r.value.off < MAX64
  {
    Bounds();
    var name := Str(p, at);
    var nd := Number(p, name.at, 4);
    if !(1 <= nd.value <= MAXDIM) then Read(Tensor(Clip(name.value, TENSOR_NAME_MAX), [], 0, 0), At(nd.at.i, true))
    else
      var dims := Dims(p, nd.at, nd.value);
      var t := Number(p, dims.at, 4);
      var off := Number(p, t.at, 8);
      Read(Tensor(Clip(name.value, TENSOR_NAME_MAX), dims.value, t.value, off.value), off.at)
  }

  function Tensors(p: Blob, at: At, n: nat): (r: Read<seq<Tensor>>)
    ensures Moves(p, at, r.at)
    ensures Inside(p, at) && !r.at.bad ==>
      forall k :: 0 <= k < |r.value| ==> 1 <= |r.value[k].dims| <= MAXDIM && r.value[k].off < MAX64
    decreases n
  {
    if n == 0 || at.bad then Read([], at)
    else
      var first := OneTensor(p, at);
      var rest := Tensors(p, first.at, n - 1);
      Read([first.value] + rest.value, rest.at)
  }

  const MAGIC: seq<Byte> := [71, 71, 85, 70]

  datatype Head = Head(version: nat, nt: nat, nkv: nat)

  /** Magic, version and the two counts. */
  function ReadHead(p: Blob): (r: Outcome<Read<Head>>)
    ensures r.Return? ==> Inside(p, r.value.at) && !r.value.at.bad
  {
    if |p| < 4 || p[..4] != MAGIC then Raise
    else
      var ver := Number(p, At(4, false), 4);
      if ver.value != 2 && ver.value != 3 then Raise
      else
        var nt := Number(p, ver.at, 8);
        var nkv := Number(p, nt.at, 8);
        if nkv.at.bad || nt.value > MAX_TENSORS || nkv.value > MAX_KEYS then Raise
        else Return(Read(Head(ver.value, nt.value, nkv.value), nkv.at))
  }

  datatype Parsed = Parsed(version: nat, kvs: seq<Kv>, tensors: seq<Tensor>, end: nat)

  /** The two tables; refused when the bytes run out anywhere. */
  function Parse(p: Blob): (r: Outcome<Parsed>)
    ensures r.Return? ==> r.value.end <= |p|
    ensures r.Return? ==> forall k :: 0 <= k < |r.value.tensors| ==>
      1 <= |r.value.tensors[k].dims| <= MAXDIM && r.value.tensors[k].off < MAX64
  {
    var head := ReadHead(p);
    if head.Raise? then Raise
    else
      var h := head.value.value;
      var kvs := Kvs(p, head.value.at, h.nkv);
      var ts := Tensors(p, kvs.at, h.nt);
      if ts.at.bad then Raise else Return(Parsed(h.version, kvs.value, ts.value, ts.at.i))
  }

  // ------------------------------------------------------------------------ resolving --

  const ALIGNMENT: seq<Byte> :=
    [103, 101, 110, 101, 114, 97, 108, 46, 97, 108, 105, 103, 110, 109, 101, 110, 116]

  const GV_F32: nat := 6
  const WORD32: nat := 0x1_0000_0000

  /** The low 32 bits of the value union; a float was widened to a double before. */
  function LowWord(kv: Kv, widen: nat -> nat): (n: nat) {
    (if kv.t == GV_F32 then widen(kv.note.num) else kv.note.num) % WORD32
  }

  /** The last general.alignment key, or 32. */
  function Alignment(kvs: seq<Kv>, widen: nat -> nat): (n: nat) {
    if kvs == [] then 32
    else if UpToNul(kvs[|kvs| - 1].key) == ALIGNMENT then LowWord(kvs[|kvs| - 1], widen)
    else Alignment(kvs[..|kvs| - 1], widen)
  }

  const GGML_F32: nat := 0
  const GGML_F16: nat := 1
  const GGML_Q8_0: nat := 8

  /** What a sum or product keeps in 64 bits. */
  function Wrap64(n: nat): (r: nat)
    ensures r < MAX64 && (n < MAX64 ==> r == n)
  {
    n % MAX64
  }

  /** numel: the product of the dimensions, wrapped at every step. */
  function Numel(dims: seq<nat>): (n: nat)
    ensures n < MAX64
  {
    if dims == [] then 1 else Wrap64(Numel(dims[..|dims| - 1]) * dims[|dims| - 1])
  }

  function Elements(t: Tensor): (n: nat)
    ensures n < MAX64
  {
    Numel(t.dims)
  }

  /** Bytes that numel elements take; a quantised block of 32 takes 34. */
  function Size(t: Tensor): (n: nat) {
    if t.t == GGML_F32 then Elements(t) * 4 else if t.t == GGML_F16 then Elements(t) * 2 else Elements(t) / 32 * 34
  }

  predicate Known(t: Tensor) {
    t.dims != [] && (t.t == GGML_F32 || t.t == GGML_F16 || (t.t == GGML_Q8_0 && t.dims[0] % 32 == 0))
  }

  /** bytes: the size kept in 64 bits, or Raise for a type or shape the reader refuses. */
  function Storage(t: Tensor): (r: Outcome<nat>) {
    if Known(t) then Return(Wrap64(Size(t))) else Raise
  }

  datatype Gguf = Gguf(parsed: Parsed, align: nat, data0: nat)

  /** The bound check as it is computed: the sum wraps too. */
  predicate Fits(p: Blob, g: Gguf, t: Tensor) {
    Storage(t).Return? && Wrap64(g.data0 + t.off + Storage(t).value) <= |p|
  }

  ghost predicate AllFit(p: Blob, g: Gguf) {
    forall k :: 0 <= k < |g.parsed.tensors| ==> Fits(p, g, g.parsed.tensors[k])
  }

  /** data0: the first multiple of the alignment behind the tables, unless that sum wraps. */
  function DataStart(end: nat, al: nat): (r: nat)
    requires al > 0
    ensures r < MAX64
    ensures end + al <= MAX64 ==> r == AlignUp(end, al)
  {
    AlignDown(Wrap64(end + al - 1), al);
    Wrap64(end + al - 1) / al * al
  }

  lemma AlignDown(x: nat, al: nat)
    requires al > 0
    ensures 0 <= x / al * al <= x
  {
    var q, r := QuotRem(x, al);
  }

  /** What a successful open returns. */
  function Placed(t: Parsed, al: nat): (g: Gguf)
    requires al > 0
  {
    Gguf(t, al, DataStart(t.end, al))
  }

  /** The bit test for a power of two. */
  predicate OneBit(al: nat) { al > 0 && And(al, al - 1) == 0 }

  lemma {:induction false} AndSelf(a: nat)
    ensures And(a, a) == a
  {
    if a > 0 { AndSelf(a / 2); }
  }

  lemma {:induction false} PowerOf(al: nat) returns (k: nat)
    requires OneBit(al)
    ensures al == Pow2(k)
  {
    AndHalves(al, al - 1);
    if al % 2 == 1 {
      AndSelf(al / 2);
      k := 0;
    } else {
      k := PowerOf(al / 2);
      k := k + 1;
    }
  }

  lemma OneBitOf(k: nat)
    ensures OneBit(Pow2(k))
  {
    hide And;
    AndMask(1, 0, k);
  }

  /** The bit test holds exactly for powers of two. */
  lemma OneBitIsPower(al: nat)
    ensures OneBit(al) <==> exists k: nat :: al == Pow2(k)
  {
    hide OneBit;
    if OneBit(al) {
      var k := PowerOf(al);
    }
    forall k: nat | al == Pow2(k) ensures OneBit(al) {
      OneBitOf(k);
    }
  }

  /** What gguf_open accepts. */
  ghost predicate Accepted(p: Blob, widen: nat -> nat) {
    && Parse(p).Return? && OneBit(Alignment(Parse(p).value.kvs, widen))
    && AllFit(p, Placed(Parse(p).value, Alignment(Parse(p).value.kvs, widen)))
  }

  /** gguf_open: refused exactly when the tables do not parse, the alignment is no power of two, or
      some tensor has an unknown type or shape or fails the bound check. */
  method Open(p: Blob, widen: nat -> nat) returns (r: Outcome<Gguf>)
    ensures r.Return? <==> Accepted(p, widen)
    ensures r.Return? ==> r.value == Placed(Parse(p).value, Alignment(Parse(p).value.kvs, widen))
  {
    hide Alignment, DataStart, And, AllFit, Parse;
    var parsed := ReadTables(p);
    if parsed.Raise? {
      return Raise;
    }
    var al := FindAlignment(parsed.value.kvs, widen);
    if !OneBit(al) {
      return Raise;
    }
    var g := Placed(parsed.value, al);
    var ok := CheckTensors(p, g);
    if !ok {
      return Raise;
    }
    r := Return(g);
  }

  /** The bound check of every tensor. */
  method CheckTensors(p: Blob, g: Gguf) returns (ok: bool)
    ensures ok <==> AllFit(p, g)
  {
    hide Storage, Wrap64;
    for k := 0 to |g.parsed.tensors|
      invariant forall j :: 0 <= j < k ==> Fits(p, g, g.parsed.tensors[j])
    {
      var t := g.parsed.tensors[k];
      var bytes := Storage(t);
      if bytes.Raise? || Wrap64(g.data0 + t.off + bytes.value) > |p| {
        assert !Fits(p, g, g.parsed.tensors[k]);
        return false;
      }
    }
    ok := true;
  }

  method FindAlignment(kvs: seq<Kv>, widen: nat -> nat) returns (al: nat)
    ensures al == Alignment(kvs, widen)
  {
    al := 32;
    for k := 0 to |kvs|
      invariant al == Alignment(kvs[..k], widen)
    {
      assert kvs[..k + 1][..k] == kvs[..k];
      if UpToNul(kvs[k].key) == ALIGNMENT {
        al := LowWord(kvs[k], widen);
      }
    }
    assert kvs[..|kvs|] == kvs;
  }

  /** The cursor part of gguf_open. */
  method ReadTables(p: Blob) returns (r: Outcome<Parsed>)
    ensures r == Parse(p)
  {
    hide Kvs, Tensors, Number;
    var head := ReadHead(p);
    if head.Raise? {
      return Raise;
    }
    var c := new Cursor(p);
    c.i := head.value.at.i;
    var kvs := ReadKvs(c, head.value.value.nkv);
    var ts := ReadTensors(c, head.value.value.nt);
    if c.bad {
      return Raise;
    }
    r := Return(Parsed(head.value.value.version, kvs, ts, c.i));
  }

  method ReadKvs(c: Cursor, n: nat) returns (kvs: seq<Kv>)
    requires c.Valid()
    modifies c
    ensures c.Valid() && Read(kvs, c.State()) == Kvs(c.p, old(c.State()), n)
  {
    hide Skip, Str, Number;
    ghost var goal := Kvs(c.p, c.State(), n);
    kvs := [];
    var k := 0;
    while k < n && !c.bad
      invariant c.Valid() && k <= n
      invariant var rest := Kvs(c.p, c.State(), n - k); kvs + rest.value == goal.value && rest.at == goal.at
    {
      ghost var rest := Kvs(c.p, c.State(), n - k).value;
      var key := c.ReadStr();
      var t := c.ReadNumber(4);
      var note := c.SkipValue(t);
      var kv := Kv(Clip(key, KEY_MAX), t, note);
      ghost var later := Kvs(c.p, c.State(), n - k - 1).value;
      assert rest == [kv] + later;
      assert (kvs + [kv]) + later == kvs + rest;
      kvs := kvs + [kv];
      k := k + 1;
    }
    assert kvs + [] == kvs;
  }

  method ReadTensors(c: Cursor, n: nat) returns (ts: seq<Tensor>)
    requires c.Valid()
    modifies c
    ensures c.Valid() && c.State() == Tensors(c.p, old(c.State()), n).at
    ensures !c.bad ==> ts == Tensors(c.p, old(c.State()), n).value
  {
    hide Str, Number, Dims, OneTensor;
    ghost var goal := Tensors(c.p, c.State(), n);
    ts := [];
    var k := 0;
    while k < n && !c.bad
      invariant c.Valid() && k <= n
      invariant var rest := Tensors(c.p, c.State(), n - k); ts + rest.value == goal.value && rest.at == goal.at
    {
      ghost var rest := Tensors(c.p, c.State(), n - k).value;
      var t := ReadTensor(c);
      ghost var later := Tensors(c.p, c.State(), n - k - 1).value;
      assert rest == [t] + later;
      assert (ts + [t]) + later == ts + rest;
      ts := ts + [t];
      k := k + 1;
    }
    assert ts + [] == ts;
  }

  method ReadTensor(c: Cursor) returns (t: Tensor)
    requires c.Valid()
    modifies c
    ensures c.Valid() && Read(t, c.State()) == OneTensor(c.p, old(c.State()))
  {
    hide Str, Number;
    var name := c.ReadStr();
    var nd := c.ReadNumber(4);
    if nd < 1 || nd > MAXDIM {
      c.bad := true;
      return Tensor(Clip(name, TENSOR_NAME_MAX), [], 0, 0);
    }
    ghost var goal := Dims(c.p, c.State(), nd);
    var dims: seq<nat> := [];
    for d := 0 to nd
      invariant c.Valid()
      invariant var rest := Dims(c.p, c.State(), nd - d); dims + rest.value == goal.value && rest.at == goal.at
    {
      ghost var rest := Dims(c.p, c.State(), nd - d).value;
      var v := c.ReadNumber(8);
      ghost var later := Dims(c.p, c.State(), nd - d - 1).value;
      assert rest == [v] + later;
      assert (dims + [v]) + later == dims + rest;
      dims := dims + [v];
    }
    assert dims + [] == dims;
    var ty := c.ReadNumber(4);
    var off := c.ReadNumber(8);
    t := Tensor(Clip(name, TENSOR_NAME_MAX), dims, ty, off);
  }

  // ---------------------------------------------------------------- files read in step --

  /** What a writer put in. */
  datatype KvSrc = KvSrc(key: seq<Byte>, value: Value)

  function KvBytes(kv: KvSrc): (b: Blob)
    requires ValueOk(kv.value)
  {
    StrBytes(kv.key) + (ToLe(TypeOf(kv.value), 4) + ValueBytes(kv.value))
  }

  ghost predicate KvsOk(kvs: seq<KvSrc>) {
    forall k :: 0 <= k < |kvs| ==> ValueOk(kvs[k].value) && |kvs[k].key| < MAX64
  }

  ghost function KvsBytes(kvs: seq<KvSrc>): (b: Blob)
    requires KvsOk(kvs)
  {
    if kvs == [] then [] else KvBytes(kvs[0]) + KvsBytes(kvs[1..])
  }

  /** What is kept of a key: at most 95 bytes of its name. */
  function KvRead(kv: KvSrc): (r: Kv) {
    Kv(if |kv.key| < 96 then kv.key else kv.key[..95], TypeOf(kv.value), NoteOf(kv.value))
  }

  function KvsRead(kvs: seq<KvSrc>): (r: seq<Kv>) {
    if kvs == [] then [] else [KvRead(kvs[0])] + KvsRead(kvs[1..])
  }

  lemma TypeSmall(v: Value)
    requires ValueOk(v)
    ensures TypeOf(v) < Pow256(4)
  {
    hide Pow256;
    Bounds();
  }

  lemma OneKvAt(p: Blob, i: nat, kv: KvSrc)
    requires ValueOk(kv.value) && |kv.key| < MAX64 && HasAt(p, i, KvBytes(kv))
    ensures OneKv(p, At(i, false)) == Read(KvRead(kv), At(i + |KvBytes(kv)|, false))
  {
    hide ToLe, Pow256, Number, Str, Skip, StrBytes, ValueBytes, HasAt, TypeOf, NoteOf, ValueOk;
    var j := i + |StrBytes(kv.key)|;
    HasAtConcat(p, i, StrBytes(kv.key), ToLe(TypeOf(kv.value), 4) + ValueBytes(kv.value));
    HasAtConcat(p, j, ToLe(TypeOf(kv.value), 4), ValueBytes(kv.value));
    TypeSmall(kv.value);
    StrAt(p, i, kv.key);
    NumberAt(p, j, TypeOf(kv.value), 4);
    SkipAt(p, j + 4, kv.value);
  }

  /** Every key is read in step, whatever values stand before it. */
  lemma {:induction false} KvsAt(p: Blob, i: nat, kvs: seq<KvSrc>)
    requires KvsOk(kvs) && HasAt(p, i, KvsBytes(kvs))
    ensures Kvs(p, At(i, false), |kvs|) == Read(KvsRead(kvs), At(i + |KvsBytes(kvs)|, false))
    decreases |kvs|
  {
    hide KvBytes, OneKv, HasAt, KvRead, ValueOk;
    if kvs != [] {
      HasAtConcat(p, i, KvBytes(kvs[0]), KvsBytes(kvs[1..]));
      OneKvAt(p, i, kvs[0]);
      KvsAt(p, i + |KvBytes(kvs[0])|, kvs[1..]);
    }
  }

  ghost predicate TensorOk(t: Tensor) {
    && |t.name| < MAX64 && 1 <= |t.dims| <= 4 && t.t < 0x1_0000_0000 && t.off < MAX64
    && forall d :: 0 <= d < |t.dims| ==> t.dims[d] < MAX64
  }

  function DimsBytes(dims: seq<nat>): (b: Blob) {
    if dims == [] then [] else ToLe(dims[0], 8) + DimsBytes(dims[1..])
  }

  function TensorBytes(t: Tensor): (b: Blob) {
    StrBytes(t.name) + (ToLe(|t.dims|, 4) + (DimsBytes(t.dims) + (ToLe(t.t, 4) + ToLe(t.off, 8))))
  }

  function TensorsBytes(ts: seq<Tensor>): (b: Blob) {
    if ts == [] then [] else TensorBytes(ts[0]) + TensorsBytes(ts[1..])
  }

  /** What is kept of a tensor record: at most 63 bytes of its name. */
  function TensorRead(t: Tensor): (r: Tensor) { t.(name := if |t.name| < 64 then t.name else t.name[..63]) }

  function TensorsRead(ts: seq<Tensor>): (r: seq<Tensor>) {
    if ts == [] then [] else [TensorRead(ts[0])] + TensorsRead(ts[1..])
  }

  lemma {:induction false} DimsAt(p: Blob, i: nat, dims: seq<nat>)
    requires HasAt(p, i, DimsBytes(dims)) && forall d :: 0 <= d < |dims| ==> dims[d] < MAX64
    ensures Dims(p, At(i, false), |dims|) == Read(dims, At(i + |DimsBytes(dims)|, false))
    decreases |dims|
  {
    hide ToLe, Pow256, Number, HasAt;
    if dims != [] {
      Bounds();
      HasAtConcat(p, i, ToLe(dims[0], 8), DimsBytes(dims[1..]));
      NumberAt(p, i, dims[0], 8);
      DimsAt(p, i + 8, dims[1..]);
      assert dims == [dims[0]] + dims[1..];
    }
  }

  lemma OneTensorAt(p: Blob, i: nat, t: Tensor)
    requires TensorOk(t) && HasAt(p, i, TensorBytes(t))
    ensures OneTensor(p, At(i, false)) == Read(TensorRead(t), At(i + |TensorBytes(t)|, false))
  {
    hide ToLe, Pow256, Number, Str, Dims, StrBytes, DimsBytes, HasAt;
    Bounds();
    var tail := ToLe(t.t, 4) + ToLe(t.off, 8);
    var j := i + |StrBytes(t.name)|;
    var k := j + 4 + |DimsBytes(t.dims)|;
    HasAtConcat(p, i, StrBytes(t.name), ToLe(|t.dims|, 4) + (DimsBytes(t.dims) + tail));
    HasAtConcat(p, j, ToLe(|t.dims|, 4), DimsBytes(t.dims) + tail);
    HasAtConcat(p, j + 4, DimsBytes(t.dims), tail);
    HasAtConcat(p, k, ToLe(t.t, 4), ToLe(t.off, 8));
    StrAt(p, i, t.name);
    NumberAt(p, j, |t.dims|, 4);
    DimsAt(p, j + 4, t.dims);
    NumberAt(p, k, t.t, 4);
    NumberAt(p, k + 4, t.off, 8);
  }

  lemma {:induction false} TensorsAt(p: Blob, i: nat, ts: seq<Tensor>)
    requires HasAt(p, i, TensorsBytes(ts)) && forall k :: 0 <= k < |ts| ==> TensorOk(ts[k])
    ensures Tensors(p, At(i, false), |ts|) == Read(TensorsRead(ts), At(i + |TensorsBytes(ts)|, false))
    decreases |ts|
  {
    hide TensorBytes, OneTensor, HasAt, TensorRead, TensorOk;
    if ts != [] {
      HasAtConcat(p, i, TensorBytes(ts[0]), TensorsBytes(ts[1..]));
      OneTensorAt(p, i, ts[0]);
      TensorsAt(p, i + |TensorBytes(ts[0])|, ts[1..]);
    }
  }

  function HeadBytes(version: nat, nt: nat, nkv: nat): (b: Blob)
    ensures |b| == 24
  {
    [71, 71, 85, 70] + (ToLe(version, 4) + (ToLe(nt, 8) + ToLe(nkv, 8)))
  }

  lemma HeadAt(p: Blob, version: nat, nt: nat, nkv: nat)
    requires version in {2, 3} && nt <= 1000000 && nkv <= 100000 && HasAt(p, 0, HeadBytes(version, nt, nkv))
    ensures ReadHead(p) == Return(Read(Head(version, nt, nkv), At(24, false)))
  {
    hide ToLe, Pow256, Number;
    Bounds();
    HasAtConcat(p, 0, [71, 71, 85, 70], ToLe(version, 4) + (ToLe(nt, 8) + ToLe(nkv, 8)));
    HasAtConcat(p, 4, ToLe(version, 4), ToLe(nt, 8) + ToLe(nkv, 8));
    HasAtConcat(p, 8, ToLe(nt, 8), ToLe(nkv, 8));
    NumberAt(p, 4, version, 4);
    NumberAt(p, 8, nt, 8);
    NumberAt(p, 16, nkv, 8);
  }

  /** For every well-formed file the reader recovers every key and every tensor record, names
      shortened to its buffers, and stops exactly where the tables end. */
  lemma ParseBack(p: Blob, version: nat, kvs: seq<KvSrc>, ts: seq<Tensor>)
    requires version in {2, 3} && |ts| <= 1000000 && |kvs| <= 100000
    requires KvsOk(kvs) && forall k :: 0 <= k < |ts| ==> TensorOk(ts[k])
    requires HasAt(p, 0, HeadBytes(version, |ts|, |kvs|) + (KvsBytes(kvs) + TensorsBytes(ts)))
    ensures Parse(p)
            == Return(Parsed(version, KvsRead(kvs), TensorsRead(ts), 24 + |KvsBytes(kvs)| + |TensorsBytes(ts)|))
  {
    hide HeadBytes, KvsBytes, TensorsBytes, HasAt, ReadHead, Kvs, Tensors, KvsRead, TensorsRead, TensorOk, KvsOk;
    var head := HeadBytes(version, |ts|, |kvs|);
    HasAtConcat(p, 0, head, KvsBytes(kvs) + TensorsBytes(ts));
    HasAtConcat(p, 24, KvsBytes(kvs), TensorsBytes(ts));
    HeadAt(p, version, |ts|, |kvs|);
    KvsAt(p, 24, kvs);
    TensorsAt(p, 24 + |KvsBytes(kvs)|, ts);
  }

  // --------------------------------------------------------------- the rules in numbers --

  /** The header is accepted exactly when it is whole, says GGUF in version 2 or 3 and names at most a
      million tensors and a hundred thousand keys. */
  lemma HeadIs(p: Blob)
    ensures ReadHead(p).Return? <==>
            (|p| >= 24 && p[..4] == [71, 71, 85, 70] && Field(p, 4, 4) in {2, 3}
             && Field(p, 8, 8) <= 1000000 && Field(p, 16, 8) <= 100000)
    ensures ReadHead(p).Return? ==>
      ReadHead(p).value == Read(Head(Field(p, 4, 4), Field(p, 8, 8), Field(p, 16, 8)), At(24, false))
  {
    hide FromLe;
  }

  /** A tensor record is refused unless it has one to four dimensions. */
  lemma TensorRefused(p: Blob, at: At)
    requires !at.bad
    ensures var nd := Number(p, Str(p, at).at, 4);
      nd.value < 1 || nd.value > 4 ==> OneTensor(p, at).at.bad
  {
    hide Str, Number, Dims;
  }

  const ALIGNMENT_KEY: string := "general.alignment"

  /** A key named general.alignment, as a C string compares it. */
  ghost predicate NamesAlignment(kv: Kv) {
    var name := UpToNul(kv.key);
    |name| == |ALIGNMENT_KEY| && forall i :: 0 <= i < |name| ==> name[i] == ALIGNMENT_KEY[i] as int
  }

  lemma KeyIs()
    ensures |ALIGNMENT| == 17 == |ALIGNMENT_KEY|
    ensures forall i :: 0 <= i < 17 ==> ALIGNMENT[i] == ALIGNMENT_KEY[i] as int
  {}

  lemma NamesIt(kv: Kv)
    ensures UpToNul(kv.key) == ALIGNMENT <==> NamesAlignment(kv)
  {
    hide UpToNul;
    KeyIs();
    var name := UpToNul(kv.key);
    if NamesAlignment(kv) { assert forall i :: 0 <= i < 17 ==> name[i] == ALIGNMENT[i]; }
  }

  /** The alignment is 32 when no key has that name, and otherwise the low 32 bits of the last one that has. */
  lemma {:induction false} AlignmentIs(kvs: seq<Kv>, widen: nat -> nat, k: nat)
    requires k <= |kvs| && (forall j :: k <= j < |kvs| ==> !NamesAlignment(kvs[j]))
    requires k == 0 || NamesAlignment(kvs[k - 1])
    ensures Alignment(kvs, widen) == if k == 0 then 32
      else (if kvs[k - 1].t == 6 then widen(kvs[k - 1].note.num) else kvs[k - 1].note.num) % 0x1_0000_0000
    decreases |kvs|
  {
    hide UpToNul, NamesAlignment;
    if kvs != [] {
      NamesIt(kvs[|kvs| - 1]);
      if k < |kvs| { AlignmentIs(kvs[..|kvs| - 1], widen, k); }
    }
  }

  /** Four bytes an element for type 0, two for type 1, 34 for 32 elements of type 8, which needs whole
      blocks in a row; other types are refused. */
  lemma StorageIs(t: Tensor)
    ensures Storage(t).Return? <==> t.dims != [] && (t.t in {0, 1} || (t.t == 8 && t.dims[0] % 32 == 0))
    ensures Storage(t).Return? ==> var n := Numel(t.dims);
      Storage(t).value
      == (if t.t == 0 then n * 4 else if t.t == 1 then n * 2 else n / 32 * 34) % 0x1_0000_0000_0000_0000
  {
    hide Numel;
  }
}
