/** tools/gen_mpeg12_tables.py main: the undecodable-pattern check on the two
    coefficient tables. The number of holes agrees with the Kraft sum exactly when
    no codeword is listed twice, which is what catches the long duplicates that
    build_vlc overwrites in silence. */
module KraftCheck {
  import opened Bits
  import opened Outcomes
  import opened Codewords
  import opened TwoLevelTable
  import opened BuildVlc

  const PATTERNS: nat := 0x10000

  predicate Between(lo: nat, n: nat, p: nat) { lo <= p < lo + n }

  ghost function Range(lo: nat, n: nat): (s: set<nat>) {
    set p: nat | lo <= p < lo + n && Between(lo, n, p)
  }

  lemma {:induction false} RangeSize(lo: nat, n: nat)
    ensures |Range(lo, n)| == n
  {
    if n == 0 {
      assert Range(lo, n) == {};
    } else {
      RangeSize(lo, n - 1);
      assert Range(lo, n) == Range(lo, n - 1) + {lo + n - 1};
    }
  }

  /** The patterns some row of the list prefixes. */
  ghost predicate SomeMatch(codes: seq<Code>, p: nat)
    requires AllFit(codes)
  {
    exists k :: 0 <= k < |codes| && Matches(codes[k], p)
  }

  ghost function Covered(codes: seq<Code>): (s: set<nat>)
    requires AllFit(codes)
  {
    set p: nat | p < PATTERNS && SomeMatch(codes, p)
  }

  ghost function Cover(c: Code): (s: set<nat>)
    requires Fits(c)
  {
    set p: nat | p < PATTERNS && Matches(c, p)
  }

  lemma CoverSize(c: Code)
    requires Fits(c)
    ensures |Cover(c)| == Pow2(MAX_LEN - c.len) > 0
  {
    var lo, size := InRange(c, MAX_LEN);
    Pow2Sixteen();
    forall p: nat | p < PATTERNS ensures Matches(c, p) <==> lo <= p < lo + size {
      InIsPrefix(c, MAX_LEN, p);
    }
    assert Cover(c) == Range(lo, size);
    RangeSize(lo, size);
  }

  lemma CoveredStep(codes: seq<Code>)
    requires AllFit(codes) && |codes| > 0
    ensures Covered(codes) == Covered(codes[..|codes| - 1]) + Cover(codes[|codes| - 1])
  {
    var front := codes[..|codes| - 1];
    forall p: nat | p < PATTERNS
      ensures p in Covered(codes) <==> p in Covered(front) || p in Cover(codes[|codes| - 1])
    {
      if p in Covered(codes) {
        var k :| 0 <= k < |codes| && Matches(codes[k], p);
        if k < |front| { assert Matches(front[k], p); }
      }
      if p in Covered(front) {
        var k :| 0 <= k < |front| && Matches(front[k], p);
        assert Matches(codes[k], p);
      }
    }
  }

  ghost predicate Earlier(codes: seq<Code>, c: Code) {
    exists k :: 0 <= k < |codes| && SameWord(codes[k], c)
  }

  /** A row that clashes with nothing before it either repeats a word or covers fresh patterns. */
  lemma RepeatOrFresh(codes: seq<Code>, c: Code)
    requires AllFit(codes) && Fits(c) && forall k :: 0 <= k < |codes| ==> !Clash(codes[k], c)
    ensures Earlier(codes, c) ==> Cover(c) <= Covered(codes)
    ensures !Earlier(codes, c) ==> Cover(c) !! Covered(codes)
  {
    if Earlier(codes, c) {
      var k :| 0 <= k < |codes| && SameWord(codes[k], c);
      assert forall p: nat :: Matches(c, p) ==> Matches(codes[k], p);
    } else {
      forall p: nat | p in Cover(c) ensures p !in Covered(codes) {
        forall k | 0 <= k < |codes| ensures !Matches(codes[k], p) {
          if Matches(codes[k], p) {
            MatchesComparable(codes[k], c, p);
          }
        }
      }
    }
  }

  lemma NoRepeatStep(codes: seq<Code>)
    requires |codes| > 0
    ensures NoRepeat(codes) <==>
            NoRepeat(codes[..|codes| - 1]) && !Earlier(codes[..|codes| - 1], codes[|codes| - 1])
  {
    var front := codes[..|codes| - 1];
    assert forall k :: 0 <= k < |front| ==> front[k] == codes[k];
  }

  /** The covered patterns never outnumber the Kraft sum, and reach it exactly without repeats. */
  lemma {:induction false} CoveredCount(codes: seq<Code>)
    requires Acceptable(codes)
    ensures |Covered(codes)| <= Kraft(codes)
    ensures |Covered(codes)| == Kraft(codes) <==> NoRepeat(codes)
  {
    if |codes| == 0 {
      assert Covered(codes) == {};
    } else {
      var front, c := codes[..|codes| - 1], codes[|codes| - 1];
      assert forall k :: 0 <= k < |front| ==> front[k] == codes[k];
      CoveredCount(front);
      CoveredStep(codes);
      NoRepeatStep(codes);
      RepeatOrFresh(front, c);
      CoverSize(c);
      if Earlier(front, c) {
        assert Covered(codes) == Covered(front);
      }
    }
  }

  ghost function Holes(codes: seq<Code>): (s: set<nat>)
    requires AllFit(codes)
  {
    set p: nat | p < PATTERNS && Find(codes, p) == None
  }

  /** The Kraft counting theorem. */
  lemma HoleCount(codes: seq<Code>)
    requires Acceptable(codes)
    ensures |Holes(codes)| >= PATTERNS - Kraft(codes)
    ensures |Holes(codes)| == PATTERNS - Kraft(codes) <==> NoRepeat(codes)
  {
    var all := Range(0, PATTERNS);
    RangeSize(0, PATTERNS);
    forall p: nat | p < PATTERNS ensures p in Holes(codes) <==> p !in Covered(codes) {
      FindNone(codes, p);
    }
    assert Holes(codes) == all - Covered(codes);
    assert |all - Covered(codes)| == |all| - |Covered(codes)|;
    CoveredCount(codes);
  }

  // ------------------------------------------------------------- the check --

  predicate NoCode(t: seq<Entry>, p: nat)
    requires TableOk(t)
  {
    Decodes(t, p, MAX_LEN) == None
  }

  ghost predicate Increasing(s: seq<nat>) {
    forall i, j :: 0 <= i < j < |s| ==> s[i] < s[j]
  }

  /** The 16-bit patterns that decode to nothing, in order. */
  method Undecodable(t: seq<Entry>) returns (undec: seq<nat>)
    requires TableOk(t)
    ensures Increasing(undec)
    ensures forall p: nat :: p in undec <==> p < PATTERNS && NoCode(t, p)
  {
    undec := [];
    for p := 0 to PATTERNS
      invariant Increasing(undec) && forall i :: 0 <= i < |undec| ==> undec[i] < p
      invariant forall q: nat :: q in undec <==> q < p && NoCode(t, q)
    {
      if NoCode(t, p) {
        undec := undec + [p];
      }
    }
  }

  ghost function Elems(s: seq<nat>): (e: set<nat>) {
    set p | p in s
  }

  lemma {:induction false} IncreasingSize(s: seq<nat>)
    requires Increasing(s)
    ensures |Elems(s)| == |s|
  {
    if |s| == 0 {
      assert Elems(s) == {};
    } else {
      var front := s[..|s| - 1];
      IncreasingSize(front);
      assert s == front + [s[|s| - 1]];
      assert Elems(s) == Elems(front) + {s[|s| - 1]};
      assert s[|s| - 1] !in front;
    }
  }

  ghost predicate StartsWithSixteen(s: seq<nat>) {
    |s| >= 16 && forall i :: 0 <= i < 16 ==> s[i] < 16
  }

  /** The first sixteen numbers of an increasing list are below 16 exactly when 0..15 are all in it. */
  lemma FirstSixteen(s: seq<nat>)
    requires Increasing(s)
    ensures StartsWithSixteen(s) <==> forall p: nat :: p < 16 ==> p in s
  {
    if StartsWithSixteen(s) {
      forall p: nat | p < 16 ensures p in s {
        AtLeastIndex(s, p);
        AtMostIndex(s, p);
        assert s[p] == p;
      }
    }
    if forall p: nat :: p < 16 ==> p in s {
      forall n: nat | n < 16 ensures n < |s| && s[n] == n { PrefixIdentity(s, n); }
      assert s[15] == 15;
    }
  }

  lemma {:induction false} AtLeastIndex(s: seq<nat>, p: nat)
    requires p < |s| && Increasing(s)
    ensures s[p] >= p
  {
    if p > 0 { AtLeastIndex(s, p - 1); }
  }

  lemma {:induction false} AtMostIndex(s: seq<nat>, p: nat)
    requires p < 16 <= |s| && s[15] < 16 && Increasing(s)
    ensures s[p] <= p
    decreases 16 - p
  {
    if p < 15 { AtMostIndex(s, p + 1); }
  }

  lemma {:induction false} PrefixIdentity(s: seq<nat>, n: nat)
    requires n < 16 && Increasing(s) && forall p: nat :: p < 16 ==> p in s
    ensures n < |s| && s[n] == n
  {
    if n > 0 { PrefixIdentity(s, n - 1); }
    assert n in s;
    var k :| 0 <= k < |s| && s[k] == n;
    AtLeastIndex(s, k);
    AtLeastIndex(s, n);
  }

  /** The number of binary digits of p. */
  function BitLength(p: nat): (n: nat)
    ensures p < Pow2(n) && (n > 0 ==> Pow2(n - 1) <= p)
  {
    if p == 0 then 0 else 1 + BitLength(p / 2)
  }

  lemma SevenZeros(p: nat)
    ensures MAX_LEN - BitLength(p) >= 7 <==> p < N1
  {
    assert Pow2(9) == N1;
    if BitLength(p) <= 9 { Pow2Mono(BitLength(p), 9); }
    else { Pow2Mono(9, BitLength(p) - 1); }
  }

  /** The whole coefficient-table check: it passes exactly when the list builds, no codeword is
      listed twice, every pattern starting with twelve zeros is reserved, and every hole
      lies behind at least seven zeros. */
  method CoefficientCheck(codes: seq<Code>) returns (r: Outcome<Built>)
    ensures r.Return? <==>
      && Acceptable(codes) && NoRepeat(codes)
      && (forall p: nat :: p < 16 ==> Find(codes, p) == None)
      && (forall p: nat :: N1 <= p < PATTERNS ==> Find(codes, p) != None)
    ensures r.Return? ==> TableOk(r.value.entries)
    ensures r.Return? ==> forall p :: 0 <= p < PATTERNS ==> Lookup(r.value.entries, p) == HitOf(Find(codes, p))
  {
    r := Build(codes);
    if r.Raise? {
      return;
    }
    var t := r.value.entries;
    var undec := Undecodable(t);
    UndecodableAreHoles(codes, t, undec);
    var predicted: int := PATTERNS - r.value.kraft;
    if |undec| != predicted {
      return Raise;
    }
    FirstSixteen(undec);
    if |undec| < 16 || exists i :: 0 <= i < 16 && undec[i] / 16 != 0 {
      return Raise;
    }
    for i := 0 to |undec|
      invariant forall k :: 0 <= k < i ==> undec[k] < N1
    {
      SevenZeros(undec[i]);
      if MAX_LEN - BitLength(undec[i]) < 7 {
        assert undec[i] in undec;
        return Raise;
      }
    }
    assert forall p: nat :: p in undec ==> p < N1;
  }

  lemma UndecodableAreHoles(codes: seq<Code>, t: seq<Entry>, undec: seq<nat>)
    requires Acceptable(codes) && TableOk(t)
    requires forall p :: 0 <= p < PATTERNS ==> Lookup(t, p) == HitOf(Find(codes, p))
    requires Increasing(undec)
    requires forall p: nat :: p in undec <==> p < PATTERNS && NoCode(t, p)
    ensures forall p: nat :: p in undec <==> p < PATTERNS && Find(codes, p) == None
    ensures |undec| == PATTERNS - Kraft(codes) <==> NoRepeat(codes)
  {
    forall p: nat | p < PATTERNS ensures NoCode(t, p) <==> Find(codes, p) == None {
      DecodesIsLookup(t, p);
      FindMatches(codes, p);
    }
    assert Elems(undec) == Holes(codes);
    IncreasingSize(undec);
    HoleCount(codes);
  }
}
