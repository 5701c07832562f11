/** tools/mkesp.py serialize and build_with_pyfat: boot sector, two FATs, root directory and
    clusters in one image, and what a reader that knows only the on-disk format makes of it. */
module FatDisk {
  import opened Bits
  import opened Outcomes
  import opened Bytes
  import opened Buffers
  import opened FatTree
  import opened FatWriter
  import opened FatGeometry
  import opened FatImage
  import opened FatReader

  const ROOT_ENTRIES: nat := 512

  // --------------------------------------------------------------------- boot sector --

  const JUMP_AND_OEM: seq<Byte> := [0xEB, 0x3C, 0x90, 76, 79, 71, 73, 84, 69, 83, 80]

  const DRIVE: seq<Byte> := [0x80, 0, 0x29]
  const VOLUME_ID: nat := 0x4C4F4749
  const LABEL: seq<Byte> := [76, 79, 71, 73, 84, 32, 69, 83, 80, 32, 32]
  const FS_TYPE: seq<Byte> := [70, 65, 84, 49, 54, 32, 32, 32]
  const SIGNATURE: seq<Byte> := [0x55, 0xAA]

  /** From the drive number to the end of the sector: volume id, label, type, signature. */
  function BootTail(): (b: seq<Byte>)
    ensures |b| == 476
  {
    DRIVE + ToLe(VOLUME_ID, 4) + LABEL + FS_TYPE + Zeros(448) + SIGNATURE
  }

  /** Offsets 24 to 35: nominal disk shape, hidden sectors, 32-bit sector count. */
  function BootSizes(total: nat): (b: seq<Byte>)
    ensures |b| == 12 && b[8..12] == ToLe(if total >= 0x10000 then total else 0, 4)
  {
    [63, 0, 255, 0, 0, 0, 0, 0] + ToLe(if total >= 0x10000 then total else 0, 4)
  }

  /** Offsets 11 to 23: sector and cluster size, reserved sectors, FATs, root entries, 16-bit sector
      count, media byte, FAT size. */
  function BootShape(g: Geometry, total: nat): (b: seq<Byte>)
    requires g.spc < 256
    ensures |b| == 13
  {
    ToLe(SECTOR, 2) + [g.spc] + ToLe(RESERVED, 2) + [2] + ToLe(ROOT_ENTRIES, 2)
      + ToLe(if total < 0x10000 then total else 0, 2) + [0xF8] + ToLe(g.fatSz, 2)
  }

  function Boot(g: Geometry, total: nat): (b: seq<Byte>)
    requires g.spc < 256
    ensures |b| == SECTOR
  {
    JUMP_AND_OEM + BootShape(g, total) + BootSizes(total) + BootTail()
  }

  datatype Bpb = Bpb(bps: nat, spc: nat, reserved: nat, fats: nat, rootEntries: nat, total: nat, fatSz: nat)

  /** The fields a mount needs, at the offsets the on-disk format gives them. */
  function ReadBpb(img: seq<Byte>): (r: Bpb)
    requires |img| >= SECTOR
  {
    Bpb(Field(img, 11, 2), img[13], Field(img, 14, 2), img[16], Field(img, 17, 2),
        if Field(img, 19, 2) != 0 then Field(img, 19, 2) else Field(img, 32, 4), Field(img, 22, 2))
  }

  /** The bytes of the boot sector a mount does not need: jump, OEM name, media, shape, drive, volume
      id, label, file-system type and signature. */
  lemma BootFixed(g: Geometry, total: nat)
    requires g.spc < 256
    ensures var b := Boot(g, total);
      && b[0..11] == [0xEB, 0x3C, 0x90, 76, 79, 71, 73, 84, 69, 83, 80] && b[21] == 0xF8
      && b[24..32] == [63, 0, 255, 0, 0, 0, 0, 0] && b[36..39] == [0x80, 0, 0x29]
      && Field(b, 39, 4) == 0x4C4F4749 && b[43..54] == [76, 79, 71, 73, 84, 32, 69, 83, 80, 32, 32]
      && b[54..62] == [70, 65, 84, 49, 54, 32, 32, 32] && b[510..512] == [0x55, 0xAA]
      && forall i :: 62 <= i < 510 ==> b[i] == 0
  {
    hide ToLe, BootShape, BootSizes, FromLe;
    var b, t := Boot(g, total), BootTail();
    assert b[36..512] == t;
    BootTailFixed();
    assert b[24..36] == BootSizes(total) && b[24..32] == b[24..36][0..8];
    assert b[36..39] == t[0..3] && b[39..43] == t[3..7] && b[43..54] == t[7..18] && b[54..62] == t[18..26];
    assert b[510..512] == t[474..476] && forall i :: 62 <= i < 510 ==> b[i] == t[i - 36];
    assert b[11..24] == BootShape(g, total) && b[21] == b[11..24][10];
    ShapeMedia(g, total);
    SizesFixed(total);
  }

  lemma BootTailFixed()
    ensures var t := BootTail();
      && t[0..3] == [0x80, 0, 0x29] && FromLe(t[3..7]) == 0x4C4F4749
      && t[7..18] == [76, 79, 71, 73, 84, 32, 69, 83, 80, 32, 32] && t[18..26] == [70, 65, 84, 49, 54, 32, 32, 32]
      && t[474..476] == [0x55, 0xAA] && forall i :: 26 <= i < 474 ==> t[i] == 0
  {
    hide FromLe, ToLe;
    var t := BootTail();
    assert t[0..3] == DRIVE && t[3..7] == ToLe(VOLUME_ID, 4) && t[7..18] == LABEL && t[18..26] == FS_TYPE;
    assert t[474..476] == SIGNATURE && t[26..474] == Zeros(448);
    assert forall i :: 26 <= i < 474 ==> t[i] == t[26..474][i - 26];
    Widths();
    LeRoundTrip(VOLUME_ID, 4);
  }

  lemma ShapeMedia(g: Geometry, total: nat)
    requires g.spc < 256
    ensures BootShape(g, total)[10] == 0xF8
  {
    hide ToLe;
  }

  lemma SizesFixed(total: nat)
    ensures BootSizes(total)[0..8] == [63, 0, 255, 0, 0, 0, 0, 0]
  {
    hide ToLe;
  }

  lemma ShapeFields(g: Geometry, total: nat)
    requires g.spc < 256
    ensures var c := BootShape(g, total);
      && c[0..2] == ToLe(SECTOR, 2) && c[2] == g.spc && c[3..5] == ToLe(RESERVED, 2) && c[5] == 2
      && c[6..8] == ToLe(ROOT_ENTRIES, 2) && c[8..10] == ToLe(if total < 0x10000 then total else 0, 2)
      && c[11..13] == ToLe(g.fatSz, 2)
  {
    hide ToLe;
  }

  lemma BootFields(g: Geometry, total: nat, img: seq<Byte>)
    requires g.spc < 256 && g.fatSz < 0x10000 && 0 < total < 0x1_0000_0000 && HasAt(img, 0, Boot(g, total))
    ensures ReadBpb(img) == Bpb(SECTOR, g.spc, RESERVED, 2, ROOT_ENTRIES, total, g.fatSz)
  {
    hide ToLe, FromLe, BootShape, BootSizes, BootTail;
    var b := Boot(g, total);
    var t16, t32 := if total < 0x10000 then total else 0, if total >= 0x10000 then total else 0;
    assert img[..SECTOR] == b;
    ShapeFields(g, total);
    assert b[11..24] == BootShape(g, total) && b[24..36] == BootSizes(total);
    assert b[11..13] == b[11..24][0..2] && b[14..16] == b[11..24][3..5] && b[17..19] == b[11..24][6..8];
    assert b[19..21] == b[11..24][8..10] && b[22..24] == b[11..24][11..13] && b[32..36] == b[24..36][8..12];
    assert b[13] == b[11..24][2] && b[16] == b[11..24][5];
    assert img[11..13] == b[11..13] && img[14..16] == b[14..16] && img[17..19] == b[17..19];
    assert img[19..21] == b[19..21] && img[22..24] == b[22..24] && img[32..36] == b[32..36];
    Widths();
    LeRoundTrip(SECTOR, 2);
    LeRoundTrip(RESERVED, 2);
    LeRoundTrip(ROOT_ENTRIES, 2);
    LeRoundTrip(t16, 2);
    LeRoundTrip(g.fatSz, 2);
    LeRoundTrip(t32, 4);
  }

  // ------------------------------------------------------------------------- the FAT --

  function FatBytes(fat: seq<nat>): (b: seq<Byte>)
    ensures |b| == 2 * |fat|
  {
    if fat == [] then [] else ToLe(fat[0] % 0x10000, 2) + FatBytes(fat[1..])
  }

  /** Little-endian 16-bit words. */
  function Words(b: seq<Byte>): (r: seq<nat>)
    ensures |r| == |b| / 2
  {
    if |b| < 2 then [] else [FromLe(b[..2])] + Words(b[2..])
  }

  lemma {:induction false} WordsBack(fat: seq<nat>)
    requires forall i :: 0 <= i < |fat| ==> fat[i] < 0x10000
    ensures Words(FatBytes(fat)) == fat
  {
    hide ToLe, FromLe;
    if fat != [] {
      var b := FatBytes(fat);
      assert b[..2] == ToLe(fat[0], 2) && b[2..] == FatBytes(fat[1..]);
      Widths();
      LeRoundTrip(fat[0], 2);
      WordsBack(fat[1..]);
    }
  }

  lemma {:induction false} FatBytesSnoc(fat: seq<nat>, v: nat)
    ensures FatBytes(fat + [v]) == FatBytes(fat) + ToLe(v % 0x10000, 2)
  {
    hide ToLe;
    if fat == [] {
      assert fat + [v] == [v] && [v][1..] == [];
    } else {
      assert (fat + [v])[1..] == fat[1..] + [v];
      FatBytesSnoc(fat[1..], v);
    }
  }

  // -------------------------------------------------------------------------- mounting --

  /** The volume whose FATs (of len bytes each) start at fat, root directory at root and clusters at
      data: refused unless everything lies inside the image and both FATs agree. */
  function View(img: seq<Byte>, cb: nat, cc: nat, fat: nat, len: nat, root: nat, rootLen: nat, data: nat)
      : (r: Option<Volume>)
    ensures r.Some? ==> VolumeOk(r.value)
  {
    var dataLen := cc * cb;
    if cb == 0 || len < 2 * (cc + 2) || root < fat + 2 * len || data < root + rootLen || |img| < data + dataLen
    then None
    else if img[fat..fat + len] != img[fat + len..fat + 2 * len] then None
    else Some(Volume(cb, Words(img[fat..fat + 2 * (cc + 2)]), img[data..data + dataLen], img[root..root + rootLen]))
  }

  /** A sector count in bytes. */
  function Scaled(a: nat, b: nat): (n: nat) { a * b }

  /** What a reader finds in an image that starts with a boot sector. */
  function Mount(img: seq<Byte>): (r: Option<Volume>)
    ensures r.Some? ==> VolumeOk(r.value)
  {
    if |img| < SECTOR then None
    else
      var p := ReadBpb(img);
      if p.bps == 0 || p.spc == 0 || p.fats != 2 then None
      else
        var rootSecs := Quotient(p.rootEntries * SLOT + p.bps - 1, p.bps);
        var meta := p.reserved + 2 * p.fatSz + rootSecs;
        if p.total < meta || Scaled(p.total, p.bps) != |img| then None
        else
          View(img, Scaled(p.spc, p.bps), Quotient(p.total - meta, p.spc),
               Scaled(p.reserved, p.bps), Scaled(p.fatSz, p.bps),
               Scaled(p.reserved + 2 * p.fatSz, p.bps), p.rootEntries * SLOT, Scaled(meta, p.bps))
  }

  /** The image's parts, where serialize puts them. */
  ghost predicate Assembled(img: seq<Byte>, g: Geometry, total: nat, fat: seq<nat>, root: seq<Byte>, data: seq<Byte>)
    requires g.spc < 256
  {
    var len := g.fatSz * SECTOR;
    && |img| == total * SECTOR && HasAt(img, 0, Boot(g, total))
    && HasAt(img, SECTOR, FatBytes(fat)) && 2 * |fat| <= len
    && SECTOR + 2 * len <= |img| && img[SECTOR..SECTOR + len] == img[SECTOR + len..SECTOR + 2 * len]
    && HasAt(img, SECTOR + 2 * len, root)
    && HasAt(img, SECTOR + 2 * len + g.rootSectors * SECTOR, data)
  }

  ghost predicate GeometryOk(g: Geometry, total: nat) {
    && g.spc > 0 && Candidate(total, ROOT_SECTORS, g.spc) == Some(g) && InWindow(Some(g)) && g.spc <= 128
  }

  lemma MountAssembled(img: seq<Byte>, g: Geometry, total: nat, fat: seq<nat>, root: seq<Byte>, data: seq<Byte>)
    requires GeometryOk(g, total) && Assembled(img, g, total, fat, root, data)
    requires |fat| == g.clusters + 2 && |root| == ROOT_ENTRIES * SLOT && |data| == g.clusters * (g.spc * SECTOR)
    requires forall i :: 0 <= i < |fat| ==> fat[i] < 0x10000
    ensures Mount(img) == Some(Volume(g.spc * SECTOR, fat, data, root))
  {
    hide Boot, FatBytes, HasAt, Mount, ViewOf, FatSize;
    Sizes(g, total);
    MountIs(img, g, total);
    ViewAssembled(img, g, total, fat, root, data);
  }

  /** The boot sector sends the reader to the parts. */
  lemma MountIs(img: seq<Byte>, g: Geometry, total: nat)
    requires GeometryOk(g, total) && |img| == total * SECTOR && HasAt(img, 0, Boot(g, total))
    ensures Mount(img) == ViewOf(img, g)
  {
    hide Boot, ReadBpb, FatSize, View, HasAt, Candidate;
    Sizes(g, total);
    BootFields(g, total, img);
  }

  /** The parts where serialize puts them. */
  function ViewOf(img: seq<Byte>, g: Geometry): (r: Option<Volume>) {
    var len := g.fatSz * SECTOR;
    View(img, g.spc * SECTOR, g.clusters, SECTOR, len, SECTOR + 2 * len, ROOT_ENTRIES * SLOT,
         SECTOR + 2 * len + ROOT_SECTORS * SECTOR)
  }

  lemma ViewAssembled(img: seq<Byte>, g: Geometry, total: nat, fat: seq<nat>, root: seq<Byte>, data: seq<Byte>)
    requires 0 < g.spc < 256 && g.rootSectors == ROOT_SECTORS && Assembled(img, g, total, fat, root, data)
    requires |fat| == g.clusters + 2 && |root| == ROOT_ENTRIES * SLOT && |data| == g.clusters * (g.spc * SECTOR)
    requires forall i :: 0 <= i < |fat| ==> fat[i] < 0x10000
    ensures ViewOf(img, g) == Some(Volume(g.spc * SECTOR, fat, data, root))
  {
    hide Boot, FatBytes, Words;
    assert img[SECTOR..SECTOR + 2 * (g.clusters + 2)] == FatBytes(fat);
    WordsBack(fat);
  }

  /** What the geometry promises about the numbers in the boot sector. */
  lemma Sizes(g: Geometry, total: nat)
    requires GeometryOk(g, total)
    ensures g.rootSectors == ROOT_SECTORS && 16 <= g.fatSz <= 257 && 0 < total < 0x1_0000_0000
    ensures RESERVED + 2 * g.fatSz + ROOT_SECTORS <= total
    ensures (total - (RESERVED + 2 * g.fatSz + ROOT_SECTORS)) / g.spc == g.clusters
    ensures RESERVED + 2 * g.fatSz + ROOT_SECTORS + g.clusters * g.spc <= total
    ensures g.clusters * (g.spc * SECTOR) == g.clusters * g.spc * SECTOR < 0x1_0000_0000
  {
    hide FatSize, Slack;
    FatBounds(total, ROOT_SECTORS, g.spc, g);
    WholeClusters(total - (RESERVED + 2 * g.fatSz + ROOT_SECTORS), g.clusters, g.spc);
  }

  lemma WholeClusters(sectors: nat, clusters: nat, spc: nat)
    requires 0 < spc <= 128 && clusters <= 65524 && sectors / spc == clusters
    ensures clusters * spc <= sectors < 65525 * 128
    ensures clusters * (spc * SECTOR) == clusters * spc * SECTOR < 0x1_0000_0000
  {
    assert sectors == clusters * spc + sectors % spc;
    MulMono(clusters + 1, 65525, spc);
    assert (clusters + 1) * spc == clusters * spc + spc;
  }

  // ------------------------------------------------------------------------- serialize --

  /** The fat_bytes loop: refused exactly when an entry would lie behind the buffer. */
  method PackFat(fat: seq<nat>, len: nat) returns (r: Outcome<seq<Byte>>)
    ensures r.Return? <==> 2 * |fat| <= len
    ensures r.Return? ==> |r.value| == len && HasAt(r.value, 0, FatBytes(fat))
  {
    hide ToLe, FatBytes, Overlay, HasAt;
    var b := Zeros(len);
    EmptyAt(b, 0);
    NoFat();
    assert fat[..0] == [];
    for i := 0 to |fat|
      invariant |b| == len && 2 * i <= len && HasAt(b, 0, FatBytes(fat[..i]))
    {
      if 2 * i + 2 > len {
        return Raise;
      }
      ghost var was := b;
      b := Overlay(b, 2 * i, ToLe(fat[i] % 0x10000, 2));
      assert fat[..i + 1] == fat[..i] + [fat[i]];
      FatBytesSnoc(fat[..i], fat[i]);
      HasAtKept(was, b, 0, FatBytes(fat[..i]), 2 * i, 2 * i + 2);
      HasAtConcat(b, 0, FatBytes(fat[..i]), ToLe(fat[i] % 0x10000, 2));
    }
    assert fat[..|fat|] == fat;
    r := Return(b);
  }

  lemma NoFat()
    ensures FatBytes([]) == []
  {}

  /** serialize: refused exactly when the FAT lacks room for the two reserved entries and every
      cluster; otherwise each part stands where the boot sector says. */
  method Serialize(img: Fat16, g: Geometry, total: nat) returns (r: Outcome<seq<Byte>>)
    requires img.Valid() && GeometryOk(g, total)
    requires img.cb == g.spc * SECTOR && img.cc == g.clusters && img.rootEntries == ROOT_ENTRIES
    ensures r.Return? <==> g.clusters + 2 <= 256 * g.fatSz
    ensures r.Return? ==> Assembled(r.value, g, total, img.fat, img.rootDir, img.data)
  {
    hide Boot, FatBytes, Overlay, HasAt, FatSize, AllZero, Off, Candidate, SameOutside;
    Sizes(g, total);
    var len := g.fatSz * SECTOR;
    var fb := PackFat(img.fat, len);
    if fb.Raise? {
      return Raise;
    }
    var rootAt := SECTOR + 2 * len;
    var dataAt := rootAt + g.rootSectors * SECTOR;
    var o0 := Zeros(total * SECTOR);
    var o1 := Overlay(o0, 0, Boot(g, total));
    var o2 := Overlay(o1, SECTOR, fb.value);
    var o3 := Overlay(o2, SECTOR + len, fb.value);
    var o4 := Overlay(o3, rootAt, img.rootDir);
    var o5 := Overlay(o4, dataAt, img.data);
    ghost var fat := fb.value;
    HasAtKept(o1, o2, 0, Boot(g, total), SECTOR, SECTOR + len);
    HasAtKept(o2, o3, 0, Boot(g, total), SECTOR + len, rootAt);
    HasAtKept(o2, o3, SECTOR, fat, SECTOR + len, rootAt);
    SameOutsideTrans(o3, o4, o5, rootAt, rootAt + |img.rootDir|, dataAt + |img.data|);
    AfterRoot(o3, o5, rootAt, dataAt + |img.data|, g, total, fat, len);
    HasAtKept(o4, o5, rootAt, img.rootDir, dataAt, dataAt + |img.data|);
    HasAtInside(o5, SECTOR, fat, FatBytes(img.fat));
    TwoCopies(o5, SECTOR, fat);
    r := Return(o5);
  }

  lemma AfterRoot(a: seq<Byte>, b: seq<Byte>, lo: nat, hi: nat, g: Geometry, total: nat, fat: seq<Byte>, len: nat)
    requires g.spc < 256 && |fat| == len && SameOutside(a, b, lo, hi) && SECTOR + 2 * len <= lo
    requires HasAt(a, 0, Boot(g, total)) && HasAt(a, SECTOR, fat) && HasAt(a, SECTOR + len, fat)
    ensures HasAt(b, 0, Boot(g, total)) && HasAt(b, SECTOR, fat) && HasAt(b, SECTOR + len, fat)
  {
    hide Boot, HasAt, SameOutside;
    HasAtKept(a, b, 0, Boot(g, total), lo, hi);
    HasAtKept(a, b, SECTOR, fat, lo, hi);
    HasAtKept(a, b, SECTOR + len, fat, lo, hi);
  }

  lemma HasAtInside<T>(s: seq<T>, off: nat, part: seq<T>, sub: seq<T>)
    requires HasAt(s, off, part) && HasAt(part, 0, sub)
    ensures HasAt(s, off, sub)
  {
    assert s[off..off + |sub|] == part[..|sub|];
  }

  lemma TwoCopies<T>(s: seq<T>, off: nat, part: seq<T>)
    requires HasAt(s, off, part) && HasAt(s, off + |part|, part)
    ensures off + 2 * |part| <= |s| && s[off..off + |part|] == s[off + |part|..off + 2 * |part|]
  {}

  // ------------------------------------------------------------------ the whole builder --

  /** The root placement loop of build_with_pyfat: refused exactly when the directory is full. */
  method PlaceRoot(img: Fat16, es: seq<Record>, dt: Stamp) returns (ok: bool)
    requires img.Valid() && RecordsOk(es) && img.rootUsed == 0 && img.rootDir == Zeros(img.rootEntries * SLOT)
    modifies img`rootDir, img`rootUsed
    ensures img.Valid() && (ok <==> |es| <= img.rootEntries)
    ensures ok ==> img.rootUsed == |es| && img.rootDir == RecordsBytes(es, dt) + Zeros((img.rootEntries - |es|) * SLOT)
  {
    hide RecordBytes, ShortName, Overlay, HasAt, AllZero, Off;
    EmptyAt(img.rootDir, 0);
    ghost var size := img.rootEntries * SLOT;
    FreshAll(size);
    for i := 0 to |es|
      invariant img.rootUsed == i <= img.rootEntries && |img.rootDir| == size && img.Valid()
      invariant RecordsOk(es[..i]) && HasAt(img.rootDir, 0, RecordsBytes(es[..i], dt)) && AllZero(img.rootDir, i * SLOT)
    {
      if img.rootUsed >= img.rootEntries {
        return false;
      }
      ghost var was := img.rootDir;
      img.rootDir := Overlay(img.rootDir, img.rootUsed * SLOT, RecordBytes(es[i], dt));
      img.rootUsed := img.rootUsed + 1;
      assert es[..i + 1] == es[..i] + [es[i]];
      RecordsBytesSnoc(es[..i], es[i], dt);
      HasAtKept(was, img.rootDir, 0, RecordsBytes(es[..i], dt), i * SLOT, i * SLOT + SLOT);
      HasAtConcat(img.rootDir, 0, RecordsBytes(es[..i], dt), RecordBytes(es[i], dt));
      LaterZero(was, i * SLOT, i * SLOT + SLOT);
      ZeroKept(was, img.rootDir, i * SLOT, i * SLOT + SLOT);
    }
    assert es[..|es|] == es;
    RootFilled(img.rootDir, RecordsBytes(es, dt));
    ok := true;
  }

  lemma FreshAll(n: nat)
    ensures AllZero(Zeros(n), 0)
  {}

  lemma RootFilled(dir: seq<Byte>, used: seq<Byte>)
    requires HasAt(dir, 0, used) && AllZero(dir, |used|)
    ensures dir == used + Zeros(|dir| - |used|)
  {
    assert dir == dir[0..|used|] + dir[|used|..];
    assert dir[|used|..] == Zeros(|dir| - |used|);
  }

  lemma FirstFitUnique(total: nat, root: nat, g: Geometry, g': Geometry)
    requires FirstFit(total, root, g) && FirstFit(total, root, g')
    ensures g == g'
  {
    hide Candidate;
    var k :| 0 <= k < 8 && IsFirst(total, root, g, k);
    var k' :| 0 <= k' < 8 && IsFirst(total, root, g', k');
    assert k == k';
  }

  lemma FirstFitOk(total: nat, g: Geometry)
    requires FirstFit(total, ROOT_SECTORS, g)
    ensures GeometryOk(g, total) && RootSectors(ROOT_ENTRIES) == ROOT_SECTORS
  {
    hide FatSize;
    var k :| 0 <= k < 8 && IsFirst(total, ROOT_SECTORS, g, k);
    assert g.spc == CANDIDATES[k];
  }

  /** Does the tree go into an image of this geometry? */
  ghost predicate Fits(g: Geometry, ch: seq<Child>) {
    && g.spc > 0 && TreeOk(ch) && |ch| <= ROOT_ENTRIES && Span(g.spc * SECTOR, ch) <= g.clusters
  }

  /** An image from which the format's reader gets exactly this tree, dated dt, using every allocated
      cluster once; the other clusters are free. */
  ghost predicate Holds(img: seq<Byte>, g: Geometry, ch: seq<Child>, dt: Stamp)
    requires Fits(g, ch)
  {
    && Mount(img).Some?
    && var v, used := Mount(img).value, 2 + Span(g.spc * SECTOR, ch);
    && ReadVolume(v, dt) == Some(Found(ShortTree(ch), Run(2, used)))
    && |v.fat| == g.clusters + 2 && v.fat[0] == 0xFFF8 && v.fat[1] == 0xFFFF
    && forall i :: used <= i < |v.fat| ==> v.fat[i] == 0
  }

  /** build_with_pyfat on an image of mb mebibytes: it fails exactly when no geometry fits, a name is
      not 8.3, the root directory is full or the clusters run out; otherwise reading the image
      through boot sector, FAT chains and directory entries returns the tree. */
  method Build(mb: nat, ch: seq<Child>, dt: Stamp) returns (r: Outcome<seq<Byte>>)
    requires NulFree(ch)
    ensures r.Return? <==> exists g :: FirstFit(2048 * mb, ROOT_SECTORS, g) && Fits(g, ch)
    ensures r.Return? ==> |r.value| == mb * 1024 * 1024
    ensures r.Return? ==> forall g :: FirstFit(2048 * mb, ROOT_SECTORS, g) && Fits(g, ch) ==> Holds(r.value, g, ch, dt)
  {
    hide FirstFit, NulFree, Fits, Holds;
    var total := 2048 * mb;
    RootDefault();
    var geo := FindGeometry(total, ROOT_ENTRIES);
    if geo.None? {
      NoFirstFit(total, ROOT_SECTORS);
      return Raise;
    }
    r := BuildAt(geo.value, mb, ch, dt);
    forall g | FirstFit(total, ROOT_SECTORS, g) ensures g == geo.value {
      FirstFitUnique(total, ROOT_SECTORS, g, geo.value);
    }
  }

  lemma RootDefault()
    ensures RootSectors(ROOT_ENTRIES) == ROOT_SECTORS
  {}

  lemma NoFirstFit(total: nat, root: nat)
    requires forall j :: 0 <= j < 8 ==> !InWindow(Candidate(total, root, CANDIDATES[j]))
    ensures forall g :: !FirstFit(total, root, g)
  {
    hide Candidate;
  }

  /** The rest of the builder once the geometry is chosen. A refusal writes no file, so the names are
      looked at first. */
  method BuildAt(g: Geometry, mb: nat, ch: seq<Child>, dt: Stamp) returns (r: Outcome<seq<Byte>>)
    requires NulFree(ch) && FirstFit(2048 * mb, ROOT_SECTORS, g)
    ensures r.Return? <==> Fits(g, ch)
    ensures r.Return? ==> |r.value| == mb * 1024 * 1024 && Holds(r.value, g, ch, dt)
  {
    hide FirstFit, NulFree, TreeOk, Span, HasAt, Off, Links, Region, Records, Candidate, InWindow, AllZero,
        ShortTree, ReadVolume, Mount;
    hide Boot, FatBytes, RecordsBytes, RecordsOk, SameOutside;
    FirstFitOk(2048 * mb, g);
    Sizes(g, 2048 * mb);
    WholeMiBFits(mb, g);
    if !TreeOk(ch) {
      return Raise;
    }
    WindowBounds(g);
    var img := new Fat16(g.spc * SECTOR, g.clusters, ROOT_ENTRIES);
    ghost var fat0 := img.fat;
    var es := WriteDirectoryEntries(img, ch, dt);
    if es.Raise? {
      return Raise;
    }
    TreeRecordsOk(img.cb, ch, 2);
    var ok := PlaceRoot(img, es.value, dt);
    if !ok {
      return Raise;
    }
    r := Serialize(img, g, 2048 * mb);
    FatSmall(img.cb, ch, fat0, img.fat);
    MountAssembled(r.value, g, 2048 * mb, img.fat, img.rootDir, img.data);
    FreeClusters(fat0, img.fat, 2 + Span(img.cb, ch));
    ReadWhole(Volume(img.cb, img.fat, img.data, img.rootDir), ch, dt);
  }

  /** What the tree does not use is as the volume was made: two reserved marks, then free clusters. */
  lemma FreeClusters(fat0: seq<nat>, fat: seq<nat>, used: nat)
    requires |fat0| >= 2 && fat0 == [0xFFF8, 0xFFFF] + seq(|fat0| - 2, _ => 0)
    requires 2 <= used && SameOutside(fat0, fat, 2, used)
    ensures |fat| == |fat0| && fat[0] == 0xFFF8 && fat[1] == 0xFFFF && forall i :: used <= i < |fat| ==> fat[i] == 0
  {}

  lemma WindowBounds(g: Geometry)
    requires InWindow(Some(g))
    ensures g.clusters + 2 < 0xFFF7
  {}

  /** Every link is below 0x10000, and apart from the end mark none reaches the reserved marks. */
  lemma FatSmall(cb: nat, ch: seq<Child>, fat0: seq<nat>, fat: seq<nat>)
    requires cb > 0 && HasAt(fat, 2, Links(cb, ch, 2)) && SameOutside(fat0, fat, 2, 2 + Span(cb, ch)) && |fat0| < 0xFFF7
    requires forall i :: 0 <= i < |fat0| ==> fat0[i] < 0x10000
    ensures forall i :: 0 <= i < |fat| ==> fat[i] < 0x10000
    ensures forall i :: 2 <= i < 2 + Span(cb, ch) ==> fat[i] == 0xFFFF || fat[i] == i + 1 < 0xFFF7
  {
    hide Links, Span;
    LinksShape(cb, ch, 2);
    forall i | 0 <= i < |fat|
      ensures fat[i] < 0x10000 && (2 <= i < 2 + Span(cb, ch) ==> fat[i] == 0xFFFF || fat[i] == i + 1 < 0xFFF7)
    {
      if 2 <= i < 2 + Span(cb, ch) {
        assert fat[i] == fat[2..2 + Span(cb, ch)][i - 2] == Links(cb, ch, 2)[i - 2];
      }
    }
  }

  /** Each link names the next cluster or ends its chain, and never leaves the tree's clusters. */
  lemma {:induction false} LinksShape(cb: nat, ch: seq<Child>, s: nat)
    requires cb > 0
    ensures forall i :: 0 <= i < Span(cb, ch) ==>
      Links(cb, ch, s)[i] == 0xFFFF || (Links(cb, ch, s)[i] == s + i + 1 && i + 1 < Span(cb, ch))
    decreases ch, 0
  {
    hide NodeSpan, NodeLinks;
    if ch != [] {
      NodeLinksShape(cb, ch[0].node, s);
      LinksShape(cb, ch[1..], s + NodeSpan(cb, ch[0].node));
    }
  }

  lemma {:induction false} NodeLinksShape(cb: nat, node: Node, s: nat)
    requires cb > 0
    ensures forall i :: 0 <= i < NodeSpan(cb, node) ==>
      NodeLinks(cb, node, s)[i] == 0xFFFF || (NodeLinks(cb, node, s)[i] == s + i + 1 && i + 1 < NodeSpan(cb, node))
    decreases node, 1
  {
    hide Span, Links, Clusters;
    if node.Dir? {
      LinksShape(cb, node.children, s);
    }
  }

  lemma ReadWhole(v: Volume, ch: seq<Child>, dt: Stamp)
    requires Stored(v) && TreeOk(ch) && NulFree(ch) && |ch| <= ROOT_ENTRIES && Span(v.cb, ch) <= |v.fat|
    requires HasAt(v.fat, 2, Links(v.cb, ch, 2)) && HasAt(v.data, Off(v.cb, 2), Region(v.cb, ch, 2, 0, dt))
    requires RecordsOk(Records(v.cb, ch, 2))
    requires v.root == RecordsBytes(Records(v.cb, ch, 2), dt) + Zeros((ROOT_ENTRIES - |ch|) * SLOT)
    ensures ReadVolume(v, dt) == Some(Found(ShortTree(ch), Run(2, 2 + Span(v.cb, ch))))
  {
    hide Stored, Off, HasAt, NulFree, TreeOk, Region, Records, Links, Span, Run, ReadSlots, ShortTree,
        RecordsBytes, RecordsOk;
    StoredOk(v);
    ReadTreeBack(v, ch, 2, {}, 0, dt, |v.fat|, (ROOT_ENTRIES - |ch|) * SLOT);
    assert {} + Run(2, 2 + Span(v.cb, ch)) == Run(2, 2 + Span(v.cb, ch));
  }

  lemma StoredOk(v: Volume)
    requires Stored(v)
    ensures VolumeOk(v)
  {}
}
