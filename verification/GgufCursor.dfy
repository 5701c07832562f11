/** tools/gguf.c: the bounded cursor (rd8 to rd64, rdstr, skipval). Each reader is given as a function
    from cursor state to value and new state, and as the method that moves the cursor in place. */
module GgufCursor {
  import opened Bits
  import opened Bytes
  import opened Buffers

  /** Position and the error flag. */
  datatype At = At(i: nat, bad: bool)

  datatype Read<T> = Read(value: T, at: At)

  type Blob = seq<Byte>

  ghost predicate Inside(p: Blob, at: At) { at.i <= |p| }

  /** The cursor only moves forward and stays inside; once bad it stays bad and still. */
  ghost predicate Moves(p: Blob, a: At, b: At) {
    Inside(p, a) ==> a.i <= b.i && Inside(p, b) && (a.bad ==> b == a)
  }

  const GV_STR: nat := 8
  const GV_ARR: nat := 9
  const TYPES: nat := 13

  /** gv_width */
  function WidthOf(t: nat): (w: nat)
    requires t < TYPES
    ensures (w == 0 <==> t == GV_STR || t == GV_ARR) && w <= 8
  {
    if t in {0, 1, 7} then 1 else if t in {2, 3} then 2 else if t in {4, 5, 6} then 4 else if t in {8, 9} then 0 else 8
  }

  /** rd8, rd16, rd32, rd64 for k = 1, 2, 4, 8. */
  function Number(p: Blob, at: At, k: nat): (r: Read<nat>)
    ensures Moves(p, at, r.at) && r.value < Pow256(k)
  {
    NumberBound(p, at.i, k);
    if at.bad then Read(0, at)
    else if at.i + k > |p| then Read(0, At(at.i, true))
    else Read(Field(p, at.i, k), At(at.i + k, false))
  }

  lemma NumberBound(p: Blob, i: nat, k: nat)
    ensures i + k <= |p| ==> Field(p, i, k) < Pow256(k)
  {
    hide FromLe, Pow256;
    if i + k <= |p| { FromLeBound(p[i..i + k]); }
  }

  /** rdstr */
  function Str(p: Blob, at: At): (r: Read<seq<Byte>>)
    ensures Moves(p, at, r.at)
  {
    var n := Number(p, at, 8);
    if n.at.bad || n.at.i + n.value > |p| then Read([], At(n.at.i, true))
    else Read(p[n.at.i..n.at.i + n.value], At(n.at.i + n.value, false))
  }

  /** n strings, stopping early when the cursor goes bad. */
  function Strs(p: Blob, at: At, n: nat): (r: At)
    ensures Moves(p, at, r)
    decreases n
  {
    if n == 0 || at.bad then at else Strs(p, Str(p, at).at, n - 1)
  }

  /** What skipval records: a scalar's bits, a string, an array's length. */
  datatype Note = Note(num: nat, text: seq<Byte>, count: nat)

  const BLANK: Note := Note(0, [], 0)

  /** n elements of w bytes each, if that many bytes are left. */
  function Jump(p: Blob, at: At, n: nat, w: nat): (r: At)
    ensures (at.bad ==> n == 0) ==> Moves(p, at, r)
  {
    if at.i + n * w > |p| then At(at.i, true) else At(at.i + n * w, at.bad)
  }

  /** skipval */
  function Skip(p: Blob, at: At, t: nat): (r: Read<Note>)
    ensures Moves(p, at, r.at)
  {
    if t == GV_STR then
      var s := Str(p, at);
      Read(Note(0, s.value, 0), s.at)
    else if t == GV_ARR then
      var et := Number(p, at, 4);
      var n := Number(p, et.at, 8);
      var note := Note(0, [], n.value);
      if et.value == GV_STR then Read(note, Strs(p, n.at, n.value))
      else if et.value == GV_ARR || et.value >= TYPES then Read(note, At(n.at.i, true))
      else Read(note, Jump(p, n.at, n.value, WidthOf(et.value)))
    else if t < TYPES then
      var v := Number(p, at, WidthOf(t));
      Read(Note(v.value, [], 0), v.at)
    else Read(BLANK, At(at.i, true))
  }

  /** struct cur */
  class Cursor {
    const p: Blob
    var i: nat
    var bad: bool

    constructor (blob: Blob)
      ensures p == blob && State() == At(0, false) && Valid()
    {
      p, i, bad := blob, 0, false;
    }

    ghost predicate Valid()
      reads this
    {
      i <= |p|
    }

    function State(): (at: At)
      reads this
    {
      At(i, bad)
    }

    method Need(k: nat) returns (ok: bool)
      requires Valid()
      modifies this`bad
      ensures ok <==> !old(bad) && i + k <= |p|
      ensures bad <==> !ok
    {
      if bad {
        return false;
      }
      if k > |p| - i {
        bad := true;
        return false;
      }
      ok := true;
    }

    method ReadNumber(k: nat) returns (v: nat)
      requires Valid()
      modifies this
      ensures Valid() && Read(v, State()) == Number(p, old(State()), k)
    {
      var ok := Need(k);
      if !ok {
        return 0;
      }
      v := Field(p, i, k);
      i := i + k;
    }

    method ReadStr() returns (s: seq<Byte>)
      requires Valid()
      modifies this
      ensures Valid() && Read(s, State()) == Str(p, old(State()))
    {
      var n := ReadNumber(8);
      if bad || n > |p| - i {
        bad := true;
        return [];
      }
      s := p[i..i + n];
      i := i + n;
    }

    /** skipval */
    method SkipValue(t: nat) returns (note: Note)
      requires Valid()
      modifies this
      ensures Valid() && Read(note, State()) == Skip(p, old(State()), t)
    {
      hide Field;
      if t == GV_STR {
        var s := ReadStr();
        return Note(0, s, 0);
      }
      if t == GV_ARR {
        var et := ReadNumber(4);
        var n := ReadNumber(8);
        note := Note(0, [], n);
        if et == GV_STR {
          ghost var goal := Strs(p, State(), n);
          var k := 0;
          while k < n && !bad
            invariant Valid() && k <= n && Strs(p, State(), n - k) == goal
          {
            var _ := ReadStr();
            k := k + 1;
          }
        } else if et == GV_ARR || et >= TYPES {
          bad := true;
        } else {
          var w := WidthOf(et);
          JumpCheck(n, |p| - i, w);
          if n > (|p| - i) / w {
            bad := true;
          } else {
            i := i + n * w;
          }
        }
        return;
      }
      if t < TYPES {
        var v := ReadNumber(WidthOf(t));
        return Note(v, [], 0);
      }
      bad := true;
      note := BLANK;
    }
  }

  /** The division guard says exactly that the bytes are there. */
  lemma JumpCheck(n: nat, left: nat, w: nat)
    requires w > 0
    ensures n > left / w <==> n * w > left
  {
    var q, r := QuotRem(left, w);
    if n > q { MulMono(q + 1, n, w); } else { MulMono(n, q, w); }
  }

  // ------------------------------------------------------------------ encoded values --

  /** A value as a file holds it. */
  datatype Value =
    | Scalar(t: nat, bits: nat)
    | Text(s: seq<Byte>)
    | Texts(ss: seq<seq<Byte>>)
    | Numbers(et: nat, elems: seq<nat>)

  const MAX64: nat := 0x1_0000_0000_0000_0000

  /** Bytes of a scalar: u8, i8, u16, i16, u32, i32, f32, bool; strings and arrays (8 and 9) have none of
      their own; u64, i64, f64. */
  const SCALAR_BYTES: seq<nat> := [1, 1, 2, 2, 4, 4, 4, 1, 0, 0, 8, 8, 8]

  ghost predicate ScalarType(t: nat) { t < 13 && t != 8 && t != 9 }

  ghost predicate ValueOk(v: Value) {
    match v
    case Scalar(t, bits) => ScalarType(t) && bits < Pow256(SCALAR_BYTES[t])
    case Text(s) => |s| < MAX64
    case Texts(ss) => |ss| < MAX64 && forall k :: 0 <= k < |ss| ==> |ss[k]| < MAX64
    case Numbers(et, elems) => ScalarType(et) && |elems| < MAX64
  }

  /** The reader's widths are the format's. */
  lemma WidthIs(t: nat)
    requires t < 13
    ensures WidthOf(t) == SCALAR_BYTES[t]
  {}

  function TypeOf(v: Value): (t: nat) {
    match v
    case Scalar(t, _) => t
    case Text(_) => 8
    case Texts(_) => 9
    case Numbers(_, _) => 9
  }

  function StrBytes(s: seq<Byte>): (b: Blob)
    ensures |b| == 8 + |s|
  {
    ToLe(|s|, 8) + s
  }

  function StrsBytes(ss: seq<seq<Byte>>): (b: Blob) {
    if ss == [] then [] else StrBytes(ss[0]) + StrsBytes(ss[1..])
  }

  function NumbersBytes(elems: seq<nat>, w: nat): (b: Blob)
    ensures |b| == |elems| * w
  {
    if elems == [] then []
    else
      assert |elems| * w == w + |elems[1..]| * w;
      ToLe(elems[0], w) + NumbersBytes(elems[1..], w)
  }

  function ValueBytes(v: Value): (b: Blob)
    requires ValueOk(v)
  {
    match v
    case Scalar(t, bits) => ToLe(bits, SCALAR_BYTES[t])
    case Text(s) => StrBytes(s)
    case Texts(ss) => ToLe(8, 4) + (ToLe(|ss|, 8) + StrsBytes(ss))
    case Numbers(et, elems) => ToLe(et, 4) + (ToLe(|elems|, 8) + NumbersBytes(elems, SCALAR_BYTES[et]))
  }

  function NoteOf(v: Value): (n: Note) {
    match v
    case Scalar(_, bits) => Note(bits, [], 0)
    case Text(s) => Note(0, s, 0)
    case Texts(ss) => Note(0, [], |ss|)
    case Numbers(_, elems) => Note(0, [], |elems|)
  }

  lemma NumberAt(p: Blob, i: nat, v: nat, k: nat)
    requires HasAt(p, i, ToLe(v, k)) && v < Pow256(k)
    ensures Number(p, At(i, false), k) == Read(v, At(i + k, false))
  {
    hide ToLe, FromLe, Pow256;
    LeRoundTrip(v, k);
  }

  lemma Bounds()
    ensures Pow256(4) == 0x1_0000_0000 && Pow256(8) == MAX64
  {
    hide Pow256;
    Widths();
  }

  lemma StrAt(p: Blob, i: nat, s: seq<Byte>)
    requires HasAt(p, i, StrBytes(s)) && |s| < MAX64
    ensures Str(p, At(i, false)) == Read(s, At(i + |StrBytes(s)|, false))
  {
    hide ToLe, Pow256, Number;
    Bounds();
    HasAtConcat(p, i, ToLe(|s|, 8), s);
    NumberAt(p, i, |s|, 8);
  }

  lemma {:induction false} StrsAt(p: Blob, i: nat, ss: seq<seq<Byte>>)
    requires HasAt(p, i, StrsBytes(ss)) && forall k :: 0 <= k < |ss| ==> |ss[k]| < MAX64
    ensures Strs(p, At(i, false), |ss|) == At(i + |StrsBytes(ss)|, false)
    decreases |ss|
  {
    hide StrBytes, Str, HasAt;
    if ss != [] {
      HasAtConcat(p, i, StrBytes(ss[0]), StrsBytes(ss[1..]));
      StrAt(p, i, ss[0]);
      StrsAt(p, i + |StrBytes(ss[0])|, ss[1..]);
    }
  }

  /** skipval advances by exactly the encoded length of every kind of value. */
  lemma SkipAt(p: Blob, i: nat, v: Value)
    requires ValueOk(v) && HasAt(p, i, ValueBytes(v))
    ensures Skip(p, At(i, false), TypeOf(v)) == Read(NoteOf(v), At(i + |ValueBytes(v)|, false))
  {
    hide ToLe, Pow256, Number, Str, Strs, StrBytes, StrsBytes, NumbersBytes, HasAt;
    Bounds();
    match v
    case Scalar(t, bits) =>
      WidthIs(t);
      NumberAt(p, i, bits, SCALAR_BYTES[t]);
    case Text(s) => StrAt(p, i, s);
    case Texts(ss) =>
      ArrayHead(p, i, 8, |ss|, StrsBytes(ss));
      StrsAt(p, i + 12, ss);
    case Numbers(et, elems) =>
      WidthIs(et);
      var w := SCALAR_BYTES[et];
      ArrayHead(p, i, et, |elems|, NumbersBytes(elems, w));
      JumpOver(p, i + 12, NumbersBytes(elems, w), |elems|, w);
  }

  /** Other type numbers, and arrays of arrays or of such types, are refused. */
  lemma SkipRefuses(p: Blob, at: At, t: nat)
    ensures t >= 13 ==> Skip(p, at, t).at.bad
    ensures t == 9 && !at.bad && at.i + 12 <= |p| && (Field(p, at.i, 4) == 9 || Field(p, at.i, 4) >= 13) ==>
      Skip(p, at, t).at.bad
  {
    hide FromLe;
  }

  lemma JumpOver(p: Blob, i: nat, b: Blob, n: nat, w: nat)
    requires HasAt(p, i, b) && |b| == n * w
    ensures Jump(p, At(i, false), n, w) == At(i + |b|, false)
  {}

  lemma ArrayHead(p: Blob, i: nat, et: nat, n: nat, rest: Blob)
    requires et < TYPES && n < MAX64 && HasAt(p, i, ToLe(et, 4) + (ToLe(n, 8) + rest))
    ensures Number(p, At(i, false), 4) == Read(et, At(i + 4, false))
    ensures Number(p, At(i + 4, false), 8) == Read(n, At(i + 12, false)) && HasAt(p, i + 12, rest)
  {
    hide ToLe, Pow256, Number, HasAt;
    Bounds();
    HasAtConcat(p, i, ToLe(et, 4), ToLe(n, 8) + rest);
    HasAtConcat(p, i + 4, ToLe(n, 8), rest);
    NumberAt(p, i, et, 4);
    NumberAt(p, i + 4, n, 8);
  }
}
