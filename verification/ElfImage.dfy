/** tools/mkaex.py emit_elf: a minimal ELF64 from flat blobs, and what a loader that follows its
    program headers puts into memory. */
module ElfImage {
  import opened Bits
  import opened Outcomes
  import opened Bytes
  import opened Buffers

  const PAGE: nat := 0x1000
  const PT_LOAD: nat := 1
  const PT_GNU_STACK: nat := 0x6474e551
  const R: nat := 4
  const RX: nat := 5
  const RW: nat := 6
  const EHSIZE: nat := 64
  const PHSIZE: nat := 56
  const MAX64: nat := 0x1_0000_0000_0000_0000

  /** The first page boundary at or behind x. */
  function PageUp(x: nat): (r: nat)
    ensures x <= r < x + PAGE && r % PAGE == 0
  {
    (x + 0xFFF) / PAGE * PAGE
  }

  datatype Seg = Seg(flags: nat, vaddr: nat, blob: seq<Byte>, memsz: nat)

  // -------------------------------------------------------------------------- segments --

  /** Segment b starts on the first page boundary behind segment a. */
  ghost predicate NextPage(a: Seg, b: Seg) {
    b.vaddr % 4096 == 0 && a.vaddr + a.memsz <= b.vaddr < a.vaddr + a.memsz + 4096
  }

  /** Text at the base, then rodata if there is any, then data with bss behind it if there is either:
      executable (4 + 1), read-only (4) and writable (4 + 2), each on the first page behind the one before. */
  ghost predicate LaidOut(segs: seq<Seg>, base: nat, text: seq<Byte>, rodata: seq<Byte>, data: seq<Byte>, bss: nat) {
    var ro, rw := rodata != [], data != [] || bss > 0;
    && |segs| == 1 + (if ro then 1 else 0) + (if rw then 1 else 0)
    && segs[0] == Seg(5, base, text, |text|)
    && (ro ==> segs[1] == Seg(4, segs[1].vaddr, rodata, |rodata|))
    && (rw ==> var last := segs[|segs| - 1]; last == Seg(6, last.vaddr, data, |data| + bss))
    && (forall k :: 0 < k < |segs| ==> NextPage(segs[k - 1], segs[k]))
  }

  /** The segment list as emit_elf builds it, advancing the address page by page. */
  method MakeSegments(base: nat, text: seq<Byte>, rodata: seq<Byte>, data: seq<Byte>, bss: nat) returns (segs: seq<Seg>)
    ensures LaidOut(segs, base, text, rodata, data, bss)
  {
    hide PageUp;
    var va := base;
    segs := [Seg(RX, va, text, |text|)];
    va := PageUp(va + |text|);
    if rodata != [] {
      segs := segs + [Seg(R, va, rodata, |rodata|)];
      va := PageUp(va + |rodata|);
    }
    if data != [] || bss > 0 {
      segs := segs + [Seg(RW, va, data, |data| + bss)];
    }
  }

  ghost predicate Before(a: Seg, b: Seg) { a.vaddr + a.memsz <= b.vaddr }

  /** The layout is the only one, its segments are disjoint and in address order, each holds its bytes,
      and all are page-aligned but the text of an unaligned base. */
  lemma LaidOutFacts(segs: seq<Seg>, other: seq<Seg>, base: nat, text: seq<Byte>, rodata: seq<Byte>, data: seq<Byte>,
      bss: nat)
    requires LaidOut(segs, base, text, rodata, data, bss) && LaidOut(other, base, text, rodata, data, bss)
    ensures segs == other && 1 <= |segs| <= 3
    ensures forall k :: 0 <= k < |segs| ==> |segs[k].blob| <= segs[k].memsz && segs[k].flags in {R, RX, RW}
    ensures forall i, j :: 0 <= i < j < |segs| ==> Before(segs[i], segs[j])
    ensures forall k :: 0 <= k < |segs| ==> (segs[k].vaddr % 4096 == 0 <==> k > 0 || base % 4096 == 0)
  {
    if |segs| > 1 {
      OnePage(segs[0].vaddr + segs[0].memsz, segs[1].vaddr, other[1].vaddr);
      assert NextPage(segs[1 - 1], segs[1]) && NextPage(other[1 - 1], other[1]);
    }
    if |segs| > 2 {
      OnePage(segs[1].vaddr + segs[1].memsz, segs[2].vaddr, other[2].vaddr);
      assert NextPage(segs[2 - 1], segs[2]) && NextPage(other[2 - 1], other[2]);
    }
  }

  lemma OnePage(x: nat, a: nat, b: nat)
    ensures a % PAGE == 0 && b % PAGE == 0 && x <= a < x + PAGE && x <= b < x + PAGE ==> a == b
  {}

  /** File offset of segment k: pages from 0x1000 on. */
  function Offset(segs: seq<Seg>, k: nat): (off: nat)
    requires k <= |segs|
    ensures off % PAGE == 0 && off >= PAGE
  {
    if k == 0 then PAGE else PageUp(Offset(segs, k - 1) + |segs[k - 1].blob|)
  }

  // ------------------------------------------------------------------- program headers --

  datatype Ph = Ph(kind: nat, flags: nat, off: nat, vaddr: nat, paddr: nat, filesz: nat, memsz: nat, align: nat)

  ghost predicate PhOk(p: Ph) {
    && p.kind < 0x1_0000_0000 && p.flags < 0x1_0000_0000 && p.off < MAX64 && p.vaddr < MAX64 && p.paddr < MAX64
    && p.filesz < MAX64 && p.memsz < MAX64 && p.align < MAX64
  }

  /** The 56 bytes of a program header. */
  function PhBytes(p: Ph): (b: seq<Byte>)
    ensures |b| == PHSIZE
  {
    ToLe(p.kind, 4) + (ToLe(p.flags, 4) + (ToLe(p.off, 8) + (ToLe(p.vaddr, 8) + (ToLe(p.paddr, 8)
      + (ToLe(p.filesz, 8) + (ToLe(p.memsz, 8) + ToLe(p.align, 8)))))))
  }

  function PhsBytes(ps: seq<Ph>): (b: seq<Byte>)
    ensures |b| == PHSIZE * |ps|
  {
    if ps == [] then [] else PhBytes(ps[0]) + PhsBytes(ps[1..])
  }

  function ReadPh(img: seq<Byte>, at: nat): (p: Ph)
    requires at + PHSIZE <= |img|
  {
    Ph(Field(img, at, 4), Field(img, at + 4, 4), Field(img, at + 8, 8), Field(img, at + 16, 8), Field(img, at + 24, 8),
       Field(img, at + 32, 8), Field(img, at + 40, 8), Field(img, at + 48, 8))
  }

  lemma FieldAt(img: seq<Byte>, at: nat, v: nat, n: nat)
    requires HasAt(img, at, ToLe(v, n)) && v < Pow256(n)
    ensures at + n <= |img| && Field(img, at, n) == v
  {
    hide ToLe, Pow256, FromLe;
    LeRoundTrip(v, n);
  }

  lemma PhBack(img: seq<Byte>, at: nat, p: Ph)
    requires PhOk(p) && HasAt(img, at, PhBytes(p))
    ensures at + PHSIZE <= |img| && ReadPh(img, at) == p
  {
    hide ToLe, Pow256, Field, HasAt;
    Widths();
    var b7 := ToLe(p.align, 8);
    var b6 := ToLe(p.memsz, 8) + b7;
    var b5 := ToLe(p.filesz, 8) + b6;
    var b4 := ToLe(p.paddr, 8) + b5;
    var b3 := ToLe(p.vaddr, 8) + b4;
    var b2 := ToLe(p.off, 8) + b3;
    HasAtConcat(img, at, ToLe(p.kind, 4), ToLe(p.flags, 4) + b2);
    HasAtConcat(img, at + 4, ToLe(p.flags, 4), b2);
    HasAtConcat(img, at + 8, ToLe(p.off, 8), b3);
    HasAtConcat(img, at + 16, ToLe(p.vaddr, 8), b4);
    HasAtConcat(img, at + 24, ToLe(p.paddr, 8), b5);
    HasAtConcat(img, at + 32, ToLe(p.filesz, 8), b6);
    HasAtConcat(img, at + 40, ToLe(p.memsz, 8), b7);
    FieldAt(img, at, p.kind, 4);
    FieldAt(img, at + 4, p.flags, 4);
    FieldAt(img, at + 8, p.off, 8);
    FieldAt(img, at + 16, p.vaddr, 8);
    FieldAt(img, at + 24, p.paddr, 8);
    FieldAt(img, at + 32, p.filesz, 8);
    FieldAt(img, at + 40, p.memsz, 8);
    FieldAt(img, at + 48, p.align, 8);
  }

  lemma {:induction false} PhsBack(img: seq<Byte>, at: nat, ps: seq<Ph>, k: nat)
    requires HasAt(img, at, PhsBytes(ps)) && k < |ps| && PhOk(ps[k])
    ensures at + PHSIZE * (k + 1) <= |img| && ReadPh(img, at + PHSIZE * k) == ps[k]
    decreases |ps|
  {
    hide HasAt, PhBytes, ReadPh, PhOk;
    HasAtConcat(img, at, PhBytes(ps[0]), PhsBytes(ps[1..]));
    if k == 0 { PhBack(img, at, ps[0]); } else { PhsBack(img, at + PHSIZE, ps[1..], k - 1); }
  }

  const STACK_PH: Ph := Ph(PT_GNU_STACK, RW, 0, 0, 0, 0, 0, 0)

  function PhOf(segs: seq<Seg>, k: nat): (p: Ph)
    requires k < |segs|
  {
    var s := segs[k];
    Ph(PT_LOAD, s.flags, Offset(segs, k), s.vaddr, s.vaddr, |s.blob|, s.memsz, PAGE)
  }

  /** One header for each of the first n segments. */
  function LoadPhs(segs: seq<Seg>, n: nat): (ps: seq<Ph>)
    requires n <= |segs|
    ensures |ps| == n && forall k :: 0 <= k < n ==> ps[k] == PhOf(segs, k)
  {
    if n == 0 then [] else LoadPhs(segs, n - 1) + [PhOf(segs, n - 1)]
  }

  // ------------------------------------------------------------------------ ELF header --

  function Magic(): (b: seq<Byte>)
    ensures |b| == 16
  {
    [0x7F, 69, 76, 70, 2, 1, 1, 0] + Zeros(8)
  }

  function Eh(entry: nat, phnum: nat): (b: seq<Byte>)
    ensures |b| == EHSIZE
  {
    Magic() + (ToLe(2, 2) + ToLe(62, 2) + ToLe(1, 4)) + (ToLe(entry, 8) + ToLe(EHSIZE, 8) + ToLe(0, 8) + ToLe(0, 4))
      + (ToLe(EHSIZE, 2) + ToLe(PHSIZE, 2) + ToLe(phnum, 2) + ToLe(0, 6))
  }

  /** The ELF header in numbers: magic, class, byte order and version; executable, x86-64, version 1; entry
      point, 56-byte program headers from 64 on and how many; nothing else. */
  ghost predicate ElfHeader(img: seq<Byte>, phnum: nat, entry: nat) {
    && |img| >= 64 && img[0..8] == [0x7F, 69, 76, 70, 2, 1, 1, 0] && (forall i :: 8 <= i < 16 ==> img[i] == 0)
    && Field(img, 16, 2) == 2 && Field(img, 18, 2) == 62 && Field(img, 20, 4) == 1
    && Field(img, 24, 8) == entry && Field(img, 32, 8) == 64 && Field(img, 40, 8) == 0 && Field(img, 48, 4) == 0
    && Field(img, 52, 2) == 64 && Field(img, 54, 2) == 56 && Field(img, 56, 2) == phnum && Field(img, 58, 6) == 0
  }

  lemma EhBack(img: seq<Byte>, entry: nat, phnum: nat)
    requires HasAt(img, 0, Eh(entry, phnum)) && entry < MAX64 && phnum < 0x10000
    ensures ElfHeader(img, phnum, entry)
  {
    hide ToLe, Pow256, Field, Magic;
    Widths();
    var b := Eh(entry, phnum);
    assert img[..EHSIZE] == b;
    MagicIs();
    assert b[0..16] == Magic() && img[0..16] == b[0..16];
    assert img[0..8] == img[0..16][0..8] && forall i :: 8 <= i < 16 ==> img[i] == img[0..16][i];
    EhParts(img, entry, phnum);
    FieldAt(img, 16, 2, 2);
    FieldAt(img, 18, 62, 2);
    FieldAt(img, 20, 1, 4);
    FieldAt(img, 24, entry, 8);
    FieldAt(img, 32, EHSIZE, 8);
    FieldAt(img, 40, 0, 8);
    FieldAt(img, 48, 0, 4);
    FieldAt(img, 52, EHSIZE, 2);
    FieldAt(img, 54, PHSIZE, 2);
    FieldAt(img, 56, phnum, 2);
    SixZeros();
    FieldAt(img, 58, 0, 6);
  }

  lemma MagicIs()
    ensures Magic()[0..8] == [0x7F, 69, 76, 70, 2, 1, 1, 0] && forall i :: 8 <= i < 16 ==> Magic()[i] == 0
  {}

  lemma SixZeros()
    ensures 0 < Pow256(6)
  {}

  lemma EhParts(img: seq<Byte>, entry: nat, phnum: nat)
    requires HasAt(img, 0, Eh(entry, phnum))
    ensures HasAt(img, 16, ToLe(2, 2)) && HasAt(img, 18, ToLe(62, 2)) && HasAt(img, 20, ToLe(1, 4))
    ensures HasAt(img, 24, ToLe(entry, 8)) && HasAt(img, 32, ToLe(64, 8)) && HasAt(img, 40, ToLe(0, 8))
    ensures HasAt(img, 48, ToLe(0, 4)) && HasAt(img, 52, ToLe(64, 2)) && HasAt(img, 54, ToLe(56, 2))
    ensures HasAt(img, 56, ToLe(phnum, 2)) && HasAt(img, 58, ToLe(0, 6))
  {
    hide ToLe, Magic, HasAt;
    var a := Magic();
    var b0, b1, b2 := ToLe(2, 2), ToLe(62, 2), ToLe(1, 4);
    var c0, c1, c2, c3 := ToLe(entry, 8), ToLe(EHSIZE, 8), ToLe(0, 8), ToLe(0, 4);
    var d0, d1, d2, d3 := ToLe(EHSIZE, 2), ToLe(PHSIZE, 2), ToLe(phnum, 2), ToLe(0, 6);
    HasAtConcat(img, 0, a + (b0 + b1 + b2) + (c0 + c1 + c2 + c3), d0 + d1 + d2 + d3);
    HasAtConcat(img, 0, a + (b0 + b1 + b2), c0 + c1 + c2 + c3);
    HasAtConcat(img, 0, a, b0 + b1 + b2);
    HasAtConcat(img, 16, b0 + b1, b2);
    HasAtConcat(img, 16, b0, b1);
    HasAtConcat(img, 24, c0 + c1 + c2, c3);
    HasAtConcat(img, 24, c0 + c1, c2);
    HasAtConcat(img, 24, c0, c1);
    HasAtConcat(img, 52, d0 + d1 + d2, d3);
    HasAtConcat(img, 52, d0 + d1, d2);
    HasAtConcat(img, 52, d0, d1);
  }

  // --------------------------------------------------------------------------- loading --

  /** Program header k of an image, through the ELF header. */
  function PhAt(img: seq<Byte>, k: nat): (p: Ph)
    requires |img| >= EHSIZE && Field(img, 32, 8) + Field(img, 54, 2) * k + PHSIZE <= |img|
  {
    ReadPh(img, Field(img, 32, 8) + Field(img, 54, 2) * k)
  }

  /** What a PT_LOAD header puts at its address: file bytes, then zeros. */
  function Loaded(img: seq<Byte>, p: Ph): (m: seq<Byte>)
    requires p.off + p.filesz <= |img| && p.filesz <= p.memsz
    ensures |m| == p.memsz
  {
    img[p.off..p.off + p.filesz] + Zeros(p.memsz - p.filesz)
  }

  ghost predicate HasBlobs(img: seq<Byte>, segs: seq<Seg>, n: nat)
    requires n <= |segs|
  {
    forall k :: 0 <= k < n ==> HasAt(img, Offset(segs, k), segs[k].blob)
  }

  /** Segment k of an image comes out of the file where its header says. */
  ghost predicate Loads(img: seq<Byte>, segs: seq<Seg>, k: nat)
    requires k < |segs|
  {
    && |img| >= EHSIZE && Field(img, 32, 8) + Field(img, 54, 2) * k + PHSIZE <= |img|
    && var p := PhAt(img, k);
    && p.kind == 1 && p.flags == segs[k].flags && p.vaddr == p.paddr == segs[k].vaddr && p.align == 4096
    && p.filesz == |segs[k].blob| && p.memsz == segs[k].memsz && p.off == Offset(segs, k)
    && p.off + p.filesz <= |img| && p.filesz <= p.memsz
    && Loaded(img, p) == segs[k].blob + Zeros(segs[k].memsz - |segs[k].blob|)
  }

  ghost predicate Packable(segs: seq<Seg>, entry: nat) {
    && entry < MAX64 && forall k :: 0 <= k < |segs| ==> Fits64(segs, k)
  }

  predicate Fits64(segs: seq<Seg>, k: nat)
    requires k < |segs|
  {
    Offset(segs, k) < MAX64 && segs[k].vaddr < MAX64 && |segs[k].blob| < MAX64 && segs[k].memsz < MAX64
  }

  function HeadBytes(segs: seq<Seg>, entry: nat): (b: seq<Byte>)
    requires |segs| <= 3
    ensures EHSIZE + PHSIZE <= |b| <= EHSIZE + PHSIZE * 4
  {
    Eh(entry, |segs| + 1) + PhsBytes(LoadPhs(segs, |segs|) + [STACK_PH])
  }

  ghost predicate HasHeader(img: seq<Byte>, k: nat, p: Ph) {
    |img| >= EHSIZE && Field(img, 32, 8) + Field(img, 54, 2) * k + PHSIZE <= |img| && PhAt(img, k) == p
  }

  lemma Headers(img: seq<Byte>, segs: seq<Seg>, entry: nat, k: nat)
    requires |segs| <= 3 && HasAt(img, 0, HeadBytes(segs, entry)) && Packable(segs, entry)
    requires k <= |segs| && forall i :: 0 <= i < |segs| ==> segs[i].flags in {R, RX, RW}
    ensures HasHeader(img, k, if k < |segs| then PhOf(segs, k) else STACK_PH)
    ensures ElfHeader(img, |segs| + 1, entry)
  {
    hide Eh, PhsBytes, ReadPh, Field, Offset;
    var ps := LoadPhs(segs, |segs|) + [STACK_PH];
    if k < |segs| { assert Fits64(segs, k); }
    HasAtConcat(img, 0, Eh(entry, |segs| + 1), PhsBytes(ps));
    EhBack(img, entry, |segs| + 1);
    PhsBack(img, EHSIZE, ps, k);
  }

  /** An image that holds the headers and every blob loads as its segments say. */
  lemma ImageLoads(img: seq<Byte>, segs: seq<Seg>, entry: nat, k: nat)
    requires |segs| <= 3 && HasAt(img, 0, HeadBytes(segs, entry)) && HasBlobs(img, segs, |segs|)
    requires Packable(segs, entry)
    requires k < |segs| && |segs[k].blob| <= segs[k].memsz
    requires forall i :: 0 <= i < |segs| ==> segs[i].flags in {R, RX, RW}
    ensures Loads(img, segs, k)
  {
    hide HeadBytes, Field, Offset, ReadPh, ElfHeader;
    Headers(img, segs, entry, k);
  }

  /** The blobs start at 4096 in the file, each on the first page boundary behind the one before. */
  lemma OffsetsTight(segs: seq<Seg>, k: nat)
    requires k < |segs|
    ensures Offset(segs, 0) == 4096 && Offset(segs, k) % 4096 == 0
    ensures k > 0 ==> var end := Offset(segs, k - 1) + |segs[k - 1].blob|; end <= Offset(segs, k) < end + 4096
  {}

  // -------------------------------------------------------------------------- emitting --

  /** The last loop of emit_elf: zeros up to each offset, then the blob. */
  method PlaceBlobs(head: seq<Byte>, segs: seq<Seg>) returns (img: seq<Byte>)
    requires |head| <= PAGE
    ensures HasAt(img, 0, head) && HasBlobs(img, segs, |segs|)
  {
    hide Offset, HasAt;
    img := head;
    WholeAt(head);
    FirstOffset(segs);
    var off := PAGE;
    for k := 0 to |segs|
      invariant HasAt(img, 0, head) && HasBlobs(img, segs, k) && |img| <= off == Offset(segs, k)
    {
      var more := Zeros(off - |img|) + segs[k].blob;
      forall j | 0 <= j < k ensures HasAt(img + more, Offset(segs, j), segs[j].blob) {
        HasAtLonger(img, more, Offset(segs, j), segs[j].blob);
      }
      HasAtLonger(img, more, 0, head);
      BlobAt(img, off, segs[k].blob);
      NextOffset(segs, k);
      img := img + more;
      off := PageUp(off + |segs[k].blob|);
    }
  }

  lemma WholeAt(s: seq<Byte>)
    ensures HasAt(s, 0, s)
  {}

  lemma FirstOffset(segs: seq<Seg>)
    ensures Offset(segs, 0) == PAGE
  {}

  lemma NextOffset(segs: seq<Seg>, k: nat)
    requires k < |segs|
    ensures Offset(segs, k + 1) == PageUp(Offset(segs, k) + |segs[k].blob|)
  {
    hide PageUp;
  }

  lemma HasAtLonger(s: seq<Byte>, more: seq<Byte>, off: nat, part: seq<Byte>)
    requires HasAt(s, off, part)
    ensures HasAt(s + more, off, part)
  {
    assert (s + more)[off..off + |part|] == s[off..off + |part|];
  }

  lemma BlobAt(s: seq<Byte>, off: nat, blob: seq<Byte>)
    requires |s| <= off
    ensures HasAt(s + (Zeros(off - |s|) + blob), off, blob) && |s + (Zeros(off - |s|) + blob)| == off + |blob|
  {}

  /** File offset and address of segment k agree modulo the page size. */
  ghost predicate Congruent(segs: seq<Seg>, k: nat)
    requires k < |segs|
  {
    Offset(segs, k) % 4096 == segs[k].vaddr % 4096
  }

  /** emit_elf: unless a value does not fit its field, loading the result through its program headers
      gives text, rodata and data followed by zeroed bss, and the last header is the stack's. Offsets
      are congruent to addresses modulo the page size, the text's exactly for a page-aligned base. */
  method EmitElf(base: nat, entryOff: nat, text: seq<Byte>, rodata: seq<Byte>, data: seq<Byte>, bss: nat)
      returns (r: Outcome<seq<Byte>>, segs: seq<Seg>)
    ensures LaidOut(segs, base, text, rodata, data, bss)
    ensures r.Return? <==> Packable(segs, base + entryOff)
    ensures r.Return? ==> ElfHeader(r.value, |segs| + 1, base + entryOff)
    ensures r.Return? ==> HasHeader(r.value, |segs|, Ph(0x6474E551, 6, 0, 0, 0, 0, 0, 0))
    ensures r.Return? ==> forall k :: 0 <= k < |segs| ==> Loads(r.value, segs, k)
    ensures forall k :: 0 <= k < |segs| ==> (Congruent(segs, k) <==> k > 0 || base % 4096 == 0)
  {
    hide LaidOut, Packable, Loads, Offset, HeadBytes, Before, HasBlobs, HasAt, Field, HasHeader, ElfHeader;
    segs := MakeSegments(base, text, rodata, data, bss);
    LaidOutFacts(segs, segs, base, text, rodata, data, bss);
    var fits := CheckFields(segs, base + entryOff);
    if !fits {
      return Raise, segs;
    }
    var img := PlaceBlobs(HeadBytes(segs, base + entryOff), segs);
    forall k | 0 <= k < |segs| ensures Loads(img, segs, k) {
      ImageLoads(img, segs, base + entryOff, k);
    }
    Headers(img, segs, base + entryOff, |segs|);
    HasAtEnd(img, 0, HeadBytes(segs, base + entryOff));
    r := Return(img);
  }

  /** struct.pack refuses what does not fit eight bytes. */
  method CheckFields(segs: seq<Seg>, entry: nat) returns (ok: bool)
    ensures ok <==> Packable(segs, entry)
  {
    hide Offset;
    if entry >= MAX64 {
      return false;
    }
    for k := 0 to |segs|
      invariant forall j :: 0 <= j < k ==> Fits64(segs, j)
    {
      if !Fits64(segs, k) {
        return false;
      }
    }
    ok := true;
  }
}
