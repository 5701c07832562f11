/** Powers of two and most-significant-bit-first bit strings: the vocabulary in
    which codewords, bit patterns and bit streams are stated. */
module Bits {

  type Bit = b: nat | b < 2

  type Byte = b: nat | b < 256

  function Pow2(n: nat): (p: nat)
    ensures p > 0
  {
    if n == 0 then 1 else 2 * Pow2(n - 1)
  }

  lemma {:induction false} Pow2Add(a: nat, b: nat)
    ensures Pow2(a + b) == Pow2(a) * Pow2(b)
  {
    if b == 0 {
    } else {
      Pow2Add(a, b - 1);
      assert Pow2(a + b) == 2 * (Pow2(a) * Pow2(b - 1)) == Pow2(a) * Pow2(b);
    }
  }

  lemma {:induction false} Pow2Mono(a: nat, b: nat)
    requires a <= b
    ensures Pow2(a) <= Pow2(b)
    decreases b
  {
    if a < b { Pow2Mono(a, b - 1); }
  }

  lemma Pow2Sixteen()
    ensures Pow2(16) == 0x10000
  {
    assert Pow2(8) == 256;
    Pow2Add(8, 8);
  }

  /** The n-bit big-endian spelling of v (of v mod 2^n when v is wider). */
  function BitsOf(v: nat, n: nat): (s: seq<Bit>)
    ensures |s| == n
  {
    if n == 0 then [] else BitsOf(v / 2, n - 1) + [v % 2]
  }

  /** The number a bit string spells. */
  function Value(s: seq<Bit>): (v: nat)
  {
    if |s| == 0 then 0 else 2 * Value(s[..|s| - 1]) + s[|s| - 1]
  }

  lemma {:induction false} ValueBound(s: seq<Bit>)
    ensures Value(s) < Pow2(|s|)
  {
    if |s| == 0 {
    } else {
      ValueBound(s[..|s| - 1]);
    }
  }

  lemma {:induction false} ValueOfBits(v: nat, n: nat)
    requires v < Pow2(n)
    ensures Value(BitsOf(v, n)) == v
  {
    if n == 0 {
    } else {
      ValueOfBits(v / 2, n - 1);
      var s := BitsOf(v, n);
      assert s[..n - 1] == BitsOf(v / 2, n - 1);
      assert s[n - 1] == v % 2;
    }
  }

  lemma {:induction false} BitsOfValue(s: seq<Bit>)
    ensures BitsOf(Value(s), |s|) == s
  {
    if |s| == 0 {
    } else {
      var t := s[..|s| - 1];
      BitsOfValue(t);
      assert Value(s) / 2 == Value(t) && Value(s) % 2 == s[|s| - 1];
      assert s == t + [s[|s| - 1]];
    }
  }

  /** Splitting a spelling: the high part spells the quotient, the low part the remainder. */
  lemma {:induction false} BitsOfSplit(q: nat, r: nat, hi: nat, lo: nat)
    requires r < Pow2(lo)
    ensures BitsOf(q * Pow2(lo) + r, hi + lo) == BitsOf(q, hi) + BitsOf(r, lo)
  {
    if lo == 0 {
      assert q * 1 + r == q;
    } else {
      var m := Pow2(lo - 1);
      assert q * Pow2(lo) == 2 * (q * m);
      BitsOfSplit(q, r / 2, hi, lo - 1);
      BitsOfLast(q * Pow2(lo) + r, hi + lo);
      BitsOfLast(r, lo);
    }
  }

  lemma BitsOfLast(v: nat, n: nat)
    requires n > 0
    ensures BitsOf(v, n) == BitsOf(v / 2, n - 1) + [v % 2]
  {}

  lemma DivModUnique(v: int, m: int, q: int, r: int)
    requires m > 0 && v == m * q + r && 0 <= r < m
    ensures v / m == q && v % m == r
  {
    var q', r' := v / m, v % m;
    assert v == m * q' + r';
    assert m * (q - q') == r' - r by { assert m * (q - q') == m * q - m * q'; }
    SmallMultiple(m, q - q');
  }

  lemma SmallMultiple(m: int, k: int)
    requires m > 0 && -m < m * k < m
    ensures k == 0
  {
    if k >= 1 {
      MulMono(1, k, m);
    } else if k <= -1 {
      MulMono(k, -1, m);
    }
  }

  lemma MulMono(a: int, b: int, m: int)
    requires a <= b && m >= 0
    ensures a * m <= b * m
  {
    assert (b - a) * m >= 0;
  }

  /** A bit string is a prefix of another exactly when, read as numbers, the
      shorter is the quotient of the longer. */
  lemma PrefixIsQuotient(c: nat, l: nat, q: nat, r: nat, lo: nat)
    requires c < Pow2(l) && q < Pow2(l) && r < Pow2(lo)
    ensures BitsOf(c, l) <= BitsOf(q * Pow2(lo) + r, l + lo) <==> q == c
  {
    BitsOfSplit(q, r, l, lo);
    var s := BitsOf(q * Pow2(lo) + r, l + lo);
    assert s[..l] == BitsOf(q, l);
    assert BitsOf(c, l) <= s <==> s[..l] == BitsOf(c, l);
    ValueOfBits(c, l);
    ValueOfBits(q, l);
  }

  lemma DivRange(p: nat, m: nat, n: nat)
    requires m > 0 && p < n * m
    ensures p / m < n
  {
    var q := p / m;
    assert p == m * q + p % m;
    assert q * m < n * m;
    MulCancel(q, n, m);
  }

  lemma MulCancel(a: int, b: int, m: int)
    requires m > 0 && a * m < b * m
    ensures a < b
  {
    if b <= a { MulMono(b, a, m); }
  }

  lemma QuotRem(v: nat, m: nat) returns (q: nat, r: nat)
    requires m > 0
    ensures v == q * m + r && r < m && q == v / m && r == v % m
  {
    q, r := v / m, v % m;
  }

  /** Quotient and remainder by m of a number below n * m. */
  lemma DivParts(x: nat, m: nat, n: nat) returns (q: nat, r: nat)
    requires m > 0 && x < n * m
    ensures x == q * m + r && r < m && q < n
    ensures q == x / m && r == x % m
  {
    q, r := x / m, x % m;
    DivRange(x, m, n);
  }

  lemma IntervalIsQuotient(c: int, q: int, r: int, m: int)
    requires 0 <= r < m
    ensures c * m <= q * m + r < (c + 1) * m <==> q == c
  {
    if q < c { MulMono(q + 1, c, m); }
    if q > c { MulMono(c + 1, q, m); }
  }

  /** Division and remainder by a positive number, as functions. */
  function Quotient(a: nat, m: nat): (q: nat)
    requires m > 0
  {
    a / m
  }

  function Remainder(a: nat, m: nat): (r: nat)
    requires m > 0
    ensures r < m
  {
    a % m
  }

  /** The least multiple of m that is at least x. */
  function AlignUp(x: nat, m: nat): (r: nat)
    requires m > 0
    ensures x <= r < x + m && r % m == 0
  {
    Rounded(x, m);
    (x + m - 1) / m * m
  }

  lemma Rounded(x: nat, m: nat)
    requires m > 0
    ensures var r := (x + m - 1) / m * m; x <= r < x + m && r % m == 0
  {
    var q, k := QuotRem(x + m - 1, m);
    DivModUnique(q * m, m, q, 0);
  }

  lemma AlignLeast(x: nat, m: nat, y: nat)
    requires m > 0 && y >= x && y % m == 0
    ensures AlignUp(x, m) <= y
  {
    hide AlignUp;
    var r := AlignUp(x, m);
    var a, b := QuotRem(r, m);
    var c, d := QuotRem(y, m);
    assert (c + 1) * m == c * m + m;
    if y < r {
      MulCancel(c, a, m);
      MulMono(c + 1, a, m);
    }
  }
}
