/** Codewords, the 16-bit patterns they cover, and what it means for two of them
    to stand in each other's way. */
module Codewords {
  import opened Bits
  import opened Outcomes

  /** One row of a code list: (code, length, symbol). */
  datatype Code = Code(code: int, len: int, sym: int)

  const MAX_LEN: nat := 16

  predicate Fits(c: Code) {
    1 <= c.len <= MAX_LEN && 0 <= c.code < Pow2(c.len)
  }

  /** The bits a writer emits for c, first bit first. */
  function Word(c: Code): (w: seq<Bit>)
    requires Fits(c)
    ensures |w| == c.len
  {
    BitsOf(c.code, c.len)
  }

  predicate Comparable(c: Code, d: Code)
    requires Fits(c) && Fits(d)
  {
    Word(c) <= Word(d) || Word(d) <= Word(c)
  }

  predicate SameWord(c: Code, d: Code) {
    c.code == d.code && c.len == d.len
  }

  ghost predicate AllFit(codes: seq<Code>) {
    forall i :: 0 <= i < |codes| ==> Fits(codes[i])
  }

  /** No codeword is a prefix of another and none is listed twice. */
  ghost predicate PrefixFree(codes: seq<Code>)
    requires AllFit(codes)
  {
    forall i, j :: 0 <= i < j < |codes| ==> !Comparable(codes[i], codes[j])
  }

  /** No (code, length) pair is listed twice. */
  ghost predicate NoRepeat(codes: seq<Code>) {
    forall i, j :: 0 <= i < j < |codes| ==> !SameWord(codes[i], codes[j])
  }

  /** x lies in the dyadic interval of c when patterns are w bits wide. */
  predicate In(c: Code, w: nat, x: int)
    requires Fits(c) && c.len <= w
  {
    c.code * Pow2(w - c.len) <= x < (c.code + 1) * Pow2(w - c.len)
  }

  /** The codeword prefixes the 16-bit pattern p. */
  predicate Matches(c: Code, p: nat)
    requires Fits(c)
  {
    Word(c) <= BitsOf(p, MAX_LEN)
  }

  lemma InBound(c: Code, w: nat, x: int)
    requires Fits(c) && c.len <= w && In(c, w, x)
    ensures 0 <= x < Pow2(w)
  {
    hide Pow2;
    Pow2Add(c.len, w - c.len);
    MulMono(0, c.code, Pow2(w - c.len));
    MulMono(c.code + 1, Pow2(c.len), Pow2(w - c.len));
  }

  /** The interval as a start and a size. */
  lemma InRange(c: Code, w: nat) returns (lo: nat, size: nat)
    requires Fits(c) && c.len <= w
    ensures lo == c.code * Pow2(w - c.len) && size == Pow2(w - c.len) && lo + size <= Pow2(w)
    ensures forall x :: In(c, w, x) <==> lo <= x < lo + size
  {
    hide Pow2;
    lo, size := c.code * Pow2(w - c.len), Pow2(w - c.len);
    assert lo + size == (c.code + 1) * size;
    Pow2Add(c.len, w - c.len);
    MulMono(c.code + 1, Pow2(c.len), size);
  }

  lemma InIsPrefix(c: Code, w: nat, x: nat)
    requires Fits(c) && c.len <= w && x < Pow2(w)
    ensures In(c, w, x) <==> Word(c) <= BitsOf(x, w)
  {
    hide Pow2, BitsOf;
    var m := Pow2(w - c.len);
    Pow2Add(c.len, w - c.len);
    var q, r := DivParts(x, m, Pow2(c.len));
    PrefixIsQuotient(c.code, c.len, q, r, w - c.len);
    IntervalIsQuotient(c.code, q, r, m);
  }

  /** Two dyadic intervals are nested or disjoint, and nesting is being a prefix. */
  lemma InNested(c: Code, d: Code, w: nat, x: int)
    requires Fits(c) && Fits(d) && c.len <= d.len <= w && In(d, w, x)
    ensures In(c, w, x) <==> Word(c) <= Word(d)
  {
    InBound(d, w, x);
    InIsPrefix(c, w, x);
    InIsPrefix(d, w, x);
    var s := BitsOf(x, w);
    assert Word(d) == s[..d.len];
    assert Word(c) <= s <==> Word(c) == s[..c.len];
    assert Word(d)[..c.len] == s[..c.len];
  }

  lemma InMeans(c: Code, d: Code, w: nat, x: int)
    requires Fits(c) && Fits(d) && c.len <= w && d.len <= w && In(c, w, x) && In(d, w, x)
    ensures Comparable(c, d)
  {
    if c.len <= d.len { InNested(c, d, w, x); } else { InNested(d, c, w, x); }
  }

  /** Comparable codewords share a pattern; the witness is the longer one's first. */
  lemma ComparableMeet(c: Code, d: Code, w: nat) returns (x: int)
    requires Fits(c) && Fits(d) && c.len <= w && d.len <= w && Comparable(c, d)
    ensures In(c, w, x) && In(d, w, x) && 0 <= x < Pow2(w)
  {
    if c.len <= d.len {
      x := Least(d, w);
      InNested(c, d, w, x);
      assert Word(d) <= Word(c) ==> Word(d) == Word(c);
    } else {
      x := Least(c, w);
      InNested(d, c, w, x);
    }
    InBound(d, w, x);
  }

  lemma Least(c: Code, w: nat) returns (x: int)
    requires Fits(c) && c.len <= w
    ensures x == c.code * Pow2(w - c.len) && In(c, w, x)
  {
    hide Pow2;
    x := c.code * Pow2(w - c.len);
    NextMultiple(c.code, Pow2(w - c.len));
  }

  lemma NextMultiple(c: int, m: int)
    ensures (c + 1) * m == c * m + m
  {}

  /** The row the list assigns to a pattern: the last one whose word prefixes it. */
  function Find(codes: seq<Code>, p: nat): (r: Option<Code>)
    requires AllFit(codes)
  {
    if |codes| == 0 then None
    else if Matches(codes[|codes| - 1], p) then Some(codes[|codes| - 1])
    else Find(codes[..|codes| - 1], p)
  }

  lemma {:induction false} FindIsLast(codes: seq<Code>, p: nat, k: nat)
    requires AllFit(codes) && k < |codes| && Matches(codes[k], p)
    requires forall j :: k < j < |codes| ==> !Matches(codes[j], p)
    ensures Find(codes, p) == Some(codes[k])
  {
    if k < |codes| - 1 {
      FindIsLast(codes[..|codes| - 1], p, k);
    }
  }

  lemma {:induction false} FindNone(codes: seq<Code>, p: nat)
    requires AllFit(codes)
    ensures Find(codes, p) == None <==> forall k :: 0 <= k < |codes| ==> !Matches(codes[k], p)
  {
    if |codes| > 0 {
      var front := codes[..|codes| - 1];
      FindNone(front, p);
      assert forall k :: 0 <= k < |front| ==> front[k] == codes[k];
    }
  }

  /** Two codewords that prefix the same pattern are comparable. */
  lemma MatchesComparable(c: Code, d: Code, p: nat)
    requires Fits(c) && Fits(d) && Matches(c, p) && Matches(d, p)
    ensures Comparable(c, d)
  {
    var s := BitsOf(p, MAX_LEN);
    assert Word(c) == s[..c.len] && Word(d) == s[..d.len];
    if c.len <= d.len { assert s[..d.len][..c.len] == s[..c.len]; }
    else { assert s[..c.len][..d.len] == s[..d.len]; }
  }

  lemma EqualLengthComparable(c: Code, d: Code)
    requires Fits(c) && Fits(d) && c.len == d.len && Comparable(c, d)
    ensures SameWord(c, d)
  {
    assert Word(c) == Word(d);
    ValueOfBits(c.code, c.len);
    ValueOfBits(d.code, d.len);
  }
}
