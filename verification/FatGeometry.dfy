/** tools/mkesp.py fat16_geometry: the first sectors-per-cluster whose cluster count is in
    the FAT16 window, and why the FAT it sizes holds every entry. */
module FatGeometry {
  import opened Bits
  import opened Outcomes

  const SECTOR: nat := 512
  const MIN_CLUSTERS: nat := 4085
  const MAX_CLUSTERS: nat := 65524
  const RESERVED: nat := 1

  datatype Geometry = Geometry(spc: nat, fatSz: nat, rootSectors: nat, clusters: nat)

  function RootSectors(rootEntries: nat): (n: nat) {
    (rootEntries * 32 + SECTOR - 1) / SECTOR
  }

  /** Sectors left for FATs and data. */
  function Body(total: nat, root: nat): (n: int) { total - (RESERVED + root) }

  function FatSize(body: nat, spc: nat): (n: nat)
    ensures (n - 1) * (256 * spc + 2) < body <= n * (256 * spc + 2) || body == n == 0
  {
    CeilDiv(body, 256 * spc + 2);
    (body + (256 * spc + 2) - 1) / (256 * spc + 2)
  }

  lemma CeilDiv(a: nat, b: nat)
    requires b > 0
    ensures var q := (a + b - 1) / b; q >= 0 && a <= q * b && (a > 0 ==> (q - 1) * b < a) && (a == 0 ==> q == 0)
  {
    var q, r := (a + b - 1) / b, (a + b - 1) % b;
    assert a + b - 1 == q * b + r;
    assert (q - 1) * b == q * b - b;
  }

  /** One pass of the loop: the geometry this candidate gives, in or out of the window. */
  function Candidate(total: nat, root: nat, spc: nat): (r: Option<Geometry>)
    requires spc > 0
  {
    var body := Body(total, root);
    if body <= 0 then None
    else
      var fatSz := FatSize(body, spc);
      var data := body - 2 * fatSz;
      if data <= 0 then None else Some(Geometry(spc, fatSz, root, data / spc))
  }

  predicate InWindow(g: Option<Geometry>) {
    g.Some? && MIN_CLUSTERS <= g.value.clusters <= MAX_CLUSTERS
  }

  const CANDIDATES: seq<nat> := [1, 2, 4, 8, 16, 32, 64, 128]

  /** fat16_geometry(total_sectors, root_entries): first fit, or nothing. */
  method FindGeometry(total: nat, rootEntries: nat) returns (r: Option<Geometry>)
    ensures r.Some? ==> FirstFit(total, RootSectors(rootEntries), r.value)
    ensures r.None? ==> forall j :: 0 <= j < 8 ==> !InWindow(Candidate(total, RootSectors(rootEntries), CANDIDATES[j]))
    ensures r.Some? ==> 4085 <= r.value.clusters <= 65524 && r.value.rootSectors == (rootEntries * 32 + 511) / 512
  {
    var root := RootSectors(rootEntries);
    for i := 0 to 8
      invariant forall j :: 0 <= j < i ==> !InWindow(Candidate(total, root, CANDIDATES[j]))
    {
      var g := Candidate(total, root, CANDIDATES[i]);
      if InWindow(g) {
        assert IsFirst(total, root, g.value, i);
        return g;
      }
    }
    r := None;
  }

  ghost predicate FirstFit(total: nat, root: nat, g: Geometry) {
    exists k :: 0 <= k < 8 && IsFirst(total, root, g, k)
  }

  ghost predicate IsFirst(total: nat, root: nat, g: Geometry, k: nat)
    requires k < 8
  {
    && Candidate(total, root, CANDIDATES[k]) == Some(g) && InWindow(Some(g))
    && forall j :: 0 <= j < k ==> !InWindow(Candidate(total, root, CANDIDATES[j]))
  }

  /** A geometry that suits FAT16, in numbers: one reserved sector, two FATs with the least size that has
      room for the sectors left, and a whole number of clusters in the FAT16 window. */
  ghost predicate Suits(total: nat, root: nat, g: Geometry) {
    var body := total - (1 + root);
    && g.spc > 0 && body > 2 * g.fatSz && g.rootSectors == root && g.fatSz > 0
    && (g.fatSz - 1) * (256 * g.spc + 2) < body <= g.fatSz * (256 * g.spc + 2)
    && g.clusters == (body - 2 * g.fatSz) / g.spc && 4085 <= g.clusters <= 65524
  }

  lemma CandidateSuits(total: nat, root: nat, spc: nat, g: Geometry)
    requires spc > 0
    ensures Candidate(total, root, spc) == Some(g) && InWindow(Some(g)) <==> g.spc == spc && Suits(total, root, g)
  {
    if g.spc == spc && Suits(total, root, g) {
      OneMultiple(total - (1 + root), 256 * spc + 2, g.fatSz, FatSize(Body(total, root), spc));
    }
  }

  lemma OneMultiple(body: nat, m: nat, f: nat, n: nat)
    requires m > 0 && (f - 1) * m < body <= f * m && (n - 1) * m < body <= n * m
    ensures f == n
  {
    if f < n { MulMono(f, n - 1, m); } else if n < f { MulMono(n, f - 1, m); }
  }

  /** The result is the geometry with the smallest cluster, a power of two up to 128 sectors, that suits. */
  lemma FirstFitIs(total: nat, root: nat, g: Geometry)
    ensures FirstFit(total, root, g) <==>
            (g.spc in {1, 2, 4, 8, 16, 32, 64, 128} && Suits(total, root, g)
             && forall h: Geometry ::
                  h.spc in {1, 2, 4, 8, 16, 32, 64, 128} && h.spc < g.spc ==> !Suits(total, root, h))
  {
    hide Candidate, Suits;
    forall k, h: Geometry | 0 <= k < 8
      ensures Candidate(total, root, CANDIDATES[k]) == Some(h) && InWindow(Some(h)) <==>
              h.spc == CANDIDATES[k] && Suits(total, root, h)
    {
      CandidateSuits(total, root, CANDIDATES[k], h);
    }
    if FirstFit(total, root, g) { OnlySmallest(total, root, g); }
    if g.spc in {1, 2, 4, 8, 16, 32, 64, 128} && Suits(total, root, g)
       && forall h: Geometry :: h.spc in {1, 2, 4, 8, 16, 32, 64, 128} && h.spc < g.spc ==> !Suits(total, root, h) {
      var k := PlaceOfSize(g.spc);
      assert IsFirst(total, root, g, k);
    }
  }

  lemma PlaceOfSize(spc: nat) returns (k: nat)
    requires spc in {1, 2, 4, 8, 16, 32, 64, 128}
    ensures k < 8 && CANDIDATES[k] == spc
  {
    k := if spc == 1 then 0 else if spc == 2 then 1 else if spc == 4 then 2 else if spc == 8 then 3
         else if spc == 16 then 4 else if spc == 32 then 5 else if spc == 64 then 6 else 7;
  }

  lemma OnlySmallest(total: nat, root: nat, g: Geometry)
    requires FirstFit(total, root, g)
    requires forall k, h: Geometry :: 0 <= k < 8 ==>
      (Candidate(total, root, CANDIDATES[k]) == Some(h) && InWindow(Some(h))
       <==> h.spc == CANDIDATES[k] && Suits(total, root, h))
    ensures g.spc in {1, 2, 4, 8, 16, 32, 64, 128} && Suits(total, root, g)
    ensures forall h: Geometry :: h.spc in {1, 2, 4, 8, 16, 32, 64, 128} && h.spc < g.spc ==> !Suits(total, root, h)
  {
    hide Candidate, Suits;
    var k :| 0 <= k < 8 && IsFirst(total, root, g, k);
    forall h: Geometry | h.spc in {1, 2, 4, 8, 16, 32, 64, 128} && h.spc < g.spc ensures !Suits(total, root, h) {
      var j := PlaceOfSize(h.spc);
      assert !InWindow(Candidate(total, root, CANDIDATES[j]));
    }
  }

  /** Boot sector, two FATs, root directory and clusters follow each other inside the image. */
  lemma RegionsTile(total: nat, root: nat, spc: nat)
    requires spc > 0 && Candidate(total, root, spc).Some?
    ensures var g := Candidate(total, root, spc).value;
      RESERVED + 2 * g.fatSz + g.rootSectors + g.clusters * g.spc <= total
  {
    var body := Body(total, root);
    var data := body - 2 * FatSize(body, spc);
    assert data / spc * spc <= data;
  }

  /** How far the chosen FAT size overshoots the sectors it was computed from. */
  function Slack(total: nat, root: nat, spc: nat): (n: int)
    requires spc > 0 && Body(total, root) >= 0
  {
    FatSize(Body(total, root), spc) * (256 * spc + 2) - Body(total, root)
  }

  /** The FAT always has a slot for every cluster; it also has the two reserved slots exactly when
      the overshoot exceeds one cluster. */
  lemma FatHoldsClusters(total: nat, root: nat, spc: nat)
    requires spc > 0 && Candidate(total, root, spc).Some?
    ensures var g := Candidate(total, root, spc).value;
      && g.clusters <= 256 * g.fatSz
      && (g.clusters + 2 <= 256 * g.fatSz <==> Slack(total, root, spc) > spc)
  {
    var body := Body(total, root);
    var f := FatSize(body, spc);
    var data := body - 2 * f;
    var c := data / spc;
    var s := Slack(total, root, spc);
    assert data == 256 * f * spc - s by { assert f * (256 * spc + 2) == 256 * f * spc + 2 * f; }
    assert data == c * spc + data % spc;
    Compare(c, 256 * f, spc, data, s);
  }

  lemma Compare(c: int, n: int, spc: int, data: int, s: int)
    requires spc > 0 && 0 <= data - c * spc < spc && data == n * spc - s && s >= 0
    ensures c <= n && (c + 2 <= n <==> s > spc)
  {
    var d := n - c;
    assert d * spc == n * spc - c * spc;
    MulCancel(-1, d, spc);
    if s > spc { MulCancel(1, d, spc); } else { MulCancel(d, 2, spc); }
  }

  // --------------------------------------------------------------- whole mebibytes --

  const ROOT_SECTORS: nat := 32

  /** The modular argument: with whole-MiB images and the default root directory, a FAT of 16 to
      257 sectors overshoots by more than one cluster at every cluster size up to 64 sectors, and
      from 48 sectors on at 128 too. */
  lemma SlackOfMiB(mb: nat, spc: nat, f: nat)
    requires spc in {1, 2, 4, 8, 16, 32, 64, 128} && 16 <= f <= 257 && (spc == 128 ==> f >= 48)
    requires 0 <= f * (256 * spc + 2) - (2048 * mb - 33)
    ensures f * (256 * spc + 2) - (2048 * mb - 33) > spc
  {
    if spc == 1 { Slack1(mb, f); }
    else if spc == 2 { Slack2(mb, f); }
    else if spc == 4 { Slack4(mb, f); }
    else {
      SlackLarge(mb, spc, spc / 8, f);
    }
  }

  lemma Slack1(mb: nat, f: nat)
    requires 16 <= f <= 257 && 0 <= 258 * f - (2048 * mb - 33)
    ensures 258 * f - (2048 * mb - 33) > 1
  {
    var h, k := 129 * f - 1024 * mb, 897 * mb - 113 * f;  // 129 * 897 == 1 + 113 * 1024
    assert 258 * f - (2048 * mb - 33) == 2 * h + 33 && f == 897 * h + 1024 * k;
  }

  lemma Slack2(mb: nat, f: nat)
    requires 16 <= f <= 257 && 0 <= 514 * f - (2048 * mb - 33)
    ensures 514 * f - (2048 * mb - 33) > 2
  {
    var h, k := 257 * f - 1024 * mb, 769 * mb - 193 * f;  // 257 * 769 == 1 + 193 * 1024
    assert 514 * f - (2048 * mb - 33) == 2 * h + 33 && f == 769 * h + 1024 * k;
  }

  lemma Slack4(mb: nat, f: nat)
    requires 16 <= f <= 257 && 0 <= 1026 * f - (2048 * mb - 33)
    ensures 1026 * f - (2048 * mb - 33) > 4
  {
    var h, k := 513 * f - 1024 * mb, 513 * mb - 257 * f;  // 513 * 513 == 1 + 257 * 1024
    assert 1026 * f - (2048 * mb - 33) == 2 * h + 33 && f == 513 * h + 1024 * k;
  }

  /** From 8 sectors per cluster on, 256 * spc is itself a multiple of 2048. */
  lemma SlackLarge(mb: nat, spc: nat, q: nat, f: nat)
    requires spc in {8, 16, 32, 64, 128} && spc == 8 * q && 16 <= f <= 257 && (spc == 128 ==> f >= 48)
    requires 0 <= f * (256 * spc + 2) - (2048 * mb - 33)
    ensures f * (256 * spc + 2) - (2048 * mb - 33) > spc
  {
    var k := f * q - mb;
    assert f * (256 * spc + 2) == 2048 * (f * q) + 2 * f;
    assert f * (256 * spc + 2) - (2048 * mb - 33) == 2048 * k + 2 * f + 33;
  }

  /** The candidate before the last would have been taken unless the image is large. */
  lemma LastCandidateIsLarge(total: nat, root: nat, g: Geometry)
    requires Candidate(total, root, 128) == Some(g) && InWindow(Some(g)) && !InWindow(Candidate(total, root, 64))
    ensures g.fatSz >= 48
  {
    var body := Body(total, root);
    var f64, f128 := FatSize(body, 64), FatSize(body, 128);
    assert f64 * 16386 < body + 16386;
    assert body >= 128 * 4085;
    assert Candidate(total, root, 64).Some?;
    assert body - 2 * f64 >= 64 * 4085;
    assert body > 64 * 65524;
    assert f128 * 32770 >= body;
  }

  /** For every image size in whole MiB, the chosen geometry has FAT room for every cluster and
      both reserved entries. */
  lemma WholeMiBFits(mb: nat, g: Geometry)
    requires FirstFit(2048 * mb, ROOT_SECTORS, g)
    ensures g.clusters + 2 <= 256 * g.fatSz
  {
    var k :| 0 <= k < 8 && IsFirst(2048 * mb, ROOT_SECTORS, g, k);
    var spc := CANDIDATES[k];
    assert g.spc == spc;
    FatHoldsClusters(2048 * mb, ROOT_SECTORS, spc);
    FatBounds(2048 * mb, ROOT_SECTORS, spc, g);
    if spc == 128 {
      assert k == 7 && CANDIDATES[6] == 64;
      LastCandidateIsLarge(2048 * mb, ROOT_SECTORS, g);
    }
    SlackOfMiB(mb, spc, g.fatSz);
  }

  lemma FatBounds(total: nat, root: nat, spc: nat, g: Geometry)
    requires spc > 0 && Candidate(total, root, spc) == Some(g) && InWindow(Some(g))
    ensures 16 <= g.fatSz <= 257
    ensures Slack(total, root, spc) >= 0
  {
    FatHoldsClusters(total, root, spc);
    var body := Body(total, root);
    var f := g.fatSz;
    FatAtMost(body, f, g.clusters, spc);
  }

  lemma FatAtMost(body: nat, f: nat, clusters: nat, spc: nat)
    requires spc > 0 && f > 0 && body >= 2 * f && (body - 2 * f) / spc == clusters
    requires (f - 1) * (256 * spc + 2) < body
    ensures 256 * (f - 1) < clusters + 3
  {
    var data := body - 2 * f;
    assert data < (clusters + 1) * spc by { assert data == clusters * spc + data % spc; }
    assert (f - 1) * (256 * spc + 2) == 256 * (f - 1) * spc + 2 * (f - 1);
    assert 256 * (f - 1) * spc < (clusters + 3) * spc;
    MulCancel(256 * (f - 1), clusters + 3, spc);
  }

  /** Without whole mebibytes the two reserved entries can be missing: 4161 sectors give 4096
      clusters and a FAT of exactly 4096 entries. */
  lemma OddSizeOverflows()
    ensures FirstFit(4161, ROOT_SECTORS, Geometry(1, 16, ROOT_SECTORS, 4096))
    ensures 4096 + 2 > 256 * 16
  {
    assert FatSize(4128, 1) == 16;
    assert Candidate(4161, ROOT_SECTORS, CANDIDATES[0]) == Some(Geometry(1, 16, ROOT_SECTORS, 4096));
    assert IsFirst(4161, ROOT_SECTORS, Geometry(1, 16, ROOT_SECTORS, 4096), 0);
  }
}
