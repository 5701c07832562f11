/** tools/mkaex.py tlv and the padding part of build, read back the way the loader walks the
    metadata region (c/kernel/exec/load/aex.c). */
module AexHeader {
  import opened Bits
  import opened Outcomes
  import opened Bytes
  import opened Buffers

  const HDR_FIXED: nat := 64
  const HDR_ALIGN: nat := 4096
  const HDR_MAX: nat := 16384
  const T_APAD: nat := 0x44415041
  const TLV_HDR: nat := 8

  datatype Rec = Rec(tag: nat, payload: seq<Byte>)

  /** n rounded up to a multiple of 8. */
  function Up8(n: nat): (r: nat)
    ensures n <= r < n + 8 && r % 8 == 0
  {
    (n + 7) / 8 * 8
  }

  /** tlv: tag, unpadded length, payload, zeros up to 8 bytes. */
  function Tlv(rec: Rec): (b: seq<Byte>)
    ensures |b| == TLV_HDR + Up8(|rec.payload|) && |b| % 8 == 0
  {
    ToLe(rec.tag, 4) + (ToLe(|rec.payload|, 4) + (rec.payload + Zeros(Up8(|rec.payload|) - |rec.payload|)))
  }

  function Tlvs(recs: seq<Rec>): (b: seq<Byte>)
    ensures |b| % 8 == 0
  {
    hide Tlv, Up8;
    if recs == [] then [] else Tlv(recs[0]) + Tlvs(recs[1..])
  }

  ghost predicate RecOk(rec: Rec) { rec.tag < 0x1_0000_0000 && |rec.payload| < 0x1_0000_0000 }

  ghost predicate RecsOk(recs: seq<Rec>) { forall i :: 0 <= i < |recs| ==> RecOk(recs[i]) }

  /** The loader's walk of [off, end): refused when a record runs past the end. */
  function Walk(b: seq<Byte>, off: nat, end: nat): (r: Outcome<seq<Rec>>)
    requires end <= |b|
    decreases end - off
  {
    if off + 8 > end then Return([])
    else
      var len := Field(b, off + 4, 4);
      if off + 8 + len > end then Raise
      else
        var rest := Walk(b, off + 8 + Up8(len), end);
        if rest.Raise? then Raise
        else Return([Rec(Field(b, off, 4), b[off + 8..off + 8 + len])] + rest.value)
  }

  // -------------------------------------------------------------------------- padding --

  /** The page the header is padded to: at least 8 bytes away for the pad record itself. */
  function Target(size: nat): (t: nat)
    ensures t % 4096 == 0 && size + 8 <= t < size + 8 + 4096
  {
    (size + 8 + HDR_ALIGN - 1) / HDR_ALIGN * HDR_ALIGN
  }

  function PadRec(size: nat): (rec: Rec) { Rec(T_APAD, Zeros(Target(size) - size - 8)) }

  /** The records followed by the pad that brings the header to a page boundary. */
  function Padded(recs: seq<Rec>): (r: seq<Rec>) { recs + [PadRec(HDR_FIXED + |Tlvs(recs)|)] }

  lemma {:induction false} TlvsAppend(a: seq<Rec>, b: seq<Rec>)
    ensures Tlvs(a + b) == Tlvs(a) + Tlvs(b)
  {
    hide Tlv;
    if a == [] {
      assert a + b == b;
    } else {
      assert (a + b)[1..] == a[1..] + b;
      TlvsAppend(a[1..], b);
    }
  }

  /** The padded region ends exactly on the target page. */
  lemma PaddedLength(recs: seq<Rec>)
    ensures HDR_FIXED + |Tlvs(Padded(recs))| == Target(HDR_FIXED + |Tlvs(recs)|)
  {
    hide Tlv, Tlvs, Target, PadRec;
    var size := HDR_FIXED + |Tlvs(recs)|;
    TlvsAppend(recs, [PadRec(size)]);
    OneTlv(PadRec(size));
    PadLength(size);
  }

  /** Between a page boundary and a multiple of 8 there is nothing to round. */
  lemma PageGap(t: nat, size: nat)
    requires t % HDR_ALIGN == 0 && size % 8 == 0 && size + 8 <= t
    ensures Up8(t - size - 8) == t - size - 8
  {
    var p, q := t / HDR_ALIGN, size / 8;
    assert t == HDR_ALIGN * p && size == 8 * q;
    assert t - size - 8 == 8 * (512 * p - q - 1);
  }

  lemma PadLength(size: nat)
    requires size % 8 == 0
    ensures |Tlv(PadRec(size))| == Target(size) - size
  {
    hide Tlv, Target, Up8;
    PageGap(Target(size), size);
  }

  lemma OneTlv(rec: Rec)
    ensures Tlvs([rec]) == Tlv(rec)
  {
    hide Tlv;
    assert [rec][1..] == [];
  }

  /** The metadata part of build around a 64-byte fixed header: the internal check never fails, the
      header is a whole number of pages, and it is refused exactly when it exceeds the cap. */
  method BuildHeader(fixed: seq<Byte>, recs: seq<Rec>) returns (r: Outcome<seq<Byte>>)
    requires |fixed| == HDR_FIXED
    ensures r.Return? <==> Target(64 + |Tlvs(recs)|) <= 16384
    ensures r.Return? ==> r.value == fixed + Tlvs(Padded(recs)) && |r.value| % 4096 == 0
  {
    hide Tlv, Tlvs, Target;
    var body: seq<Byte> := [];
    assert recs[..0] == [];
    NoTlvs();
    for k := 0 to |recs|
      invariant body == Tlvs(recs[..k])
    {
      assert recs[..k + 1] == recs[..k] + [recs[k]];
      TlvsAppend(recs[..k], [recs[k]]);
      OneTlv(recs[k]);
      body := body + Tlv(recs[k]);
    }
    assert recs[..|recs|] == recs;
    var size := HDR_FIXED + |body|;
    var target := Target(size);
    TlvsAppend(recs, [PadRec(size)]);
    OneTlv(PadRec(size));
    PaddedLength(recs);
    body := body + Tlv(Rec(T_APAD, Zeros(target - size - 8)));
    if HDR_FIXED + |body| != target {
      return Raise;
    }
    if HDR_FIXED + |body| > HDR_MAX {
      return Raise;
    }
    r := Return(fixed + body);
  }

  lemma NoTlvs()
    ensures Tlvs([]) == []
  {}

  // --------------------------------------------------------------------------- walking --

  lemma TlvFields(b: seq<Byte>, off: nat, rec: Rec)
    requires RecOk(rec) && HasAt(b, off, Tlv(rec))
    ensures off + |Tlv(rec)| <= |b| && Field(b, off, 4) == rec.tag && Field(b, off + 4, 4) == |rec.payload|
    ensures b[off + TLV_HDR..off + TLV_HDR + |rec.payload|] == rec.payload
  {
    hide ToLe, Pow256, FromLe, Up8;
    var n := |rec.payload|;
    var tail := rec.payload + Zeros(Up8(n) - n);
    HasAtConcat(b, off, ToLe(rec.tag, 4), ToLe(n, 4) + tail);
    HasAtConcat(b, off + 4, ToLe(n, 4), tail);
    HasAtConcat(b, off + 8, rec.payload, Zeros(Up8(n) - n));
    Widths();
    LeRoundTrip(rec.tag, 4);
    LeRoundTrip(n, 4);
  }

  /** The loader reads back every record, in order. */
  lemma {:induction false} WalkBack(b: seq<Byte>, off: nat, recs: seq<Rec>)
    requires RecsOk(recs) && HasAt(b, off, Tlvs(recs))
    ensures off + |Tlvs(recs)| <= |b| && Walk(b, off, off + |Tlvs(recs)|) == Return(recs)
    decreases |recs|
  {
    hide Tlv, Field, HasAt, Up8;
    if recs == [] {
      HasAtEnd(b, off, []);
    } else {
      hide Walk;
      HasAtConcat(b, off, Tlv(recs[0]), Tlvs(recs[1..]));
      WalkBack(b, off + |Tlv(recs[0])|, recs[1..]);
      WalkNext(b, off, off + |Tlvs(recs)|, recs[0]);
      assert recs == [recs[0]] + recs[1..];
    }
  }

  lemma WalkNext(b: seq<Byte>, off: nat, end: nat, rec: Rec)
    requires RecOk(rec) && HasAt(b, off, Tlv(rec)) && off + |Tlv(rec)| <= end <= |b|
    requires Walk(b, off + |Tlv(rec)|, end).Return?
    ensures Walk(b, off, end) == Return([rec] + Walk(b, off + |Tlv(rec)|, end).value)
  {
    hide Tlv, Field, HasAt, Up8;
    TlvFields(b, off, rec);
  }

  /** For every list of records: walking the built header returns them and then exactly one pad. */
  lemma HeaderBack(fixed: seq<Byte>, recs: seq<Rec>, elf: seq<Byte>)
    requires |fixed| == HDR_FIXED && RecsOk(recs)
    ensures var hdr := fixed + Tlvs(Padded(recs));
      && |hdr| % 4096 == 0 && |hdr| >= 64 + |Tlvs(recs)| + 8
      && Walk(hdr + elf, 64, |hdr|) == Return(recs + [Rec(0x44415041, Zeros(|hdr| - 64 - |Tlvs(recs)| - 8))])
  {
    hide Tlv, Tlvs, Walk, Target;
    PaddedLength(recs);
    var size := HDR_FIXED + |Tlvs(recs)|;
    PadOk(size);
    var hdr := fixed + Tlvs(Padded(recs));
    assert (hdr + elf)[HDR_FIXED..HDR_FIXED + |Tlvs(Padded(recs))|] == Tlvs(Padded(recs));
    WalkBack(hdr + elf, HDR_FIXED, Padded(recs));
  }

  lemma PadOk(size: nat)
    ensures RecOk(PadRec(size))
  {}
}
