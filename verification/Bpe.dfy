/** tools/lmtok.py get_pairs and _bpe: rank-ordered merging of adjacent symbols. */
module Bpe {
  import opened Outcomes

  /** Symbols are strings of code points; a word is a list of symbols. */
  type Symbol = seq<nat>
  type Word = seq<Symbol>
  type Pair = (Symbol, Symbol)
  type Ranks = map<Pair, nat>

  // ------------------------------------------------------------------------- ranks --

  /** bpe_ranks: the position of each pair in the first n merges, the last one if it is repeated. */
  function RanksOf(merges: seq<Pair>, n: nat): (r: Ranks)
    requires n <= |merges|
    ensures forall p :: p in r ==> r[p] < n && merges[r[p]] == p
    ensures forall i :: 0 <= i < n ==> merges[i] in r
  {
    if n == 0 then map[] else RanksOf(merges, n - 1)[merges[n - 1] := n - 1]
  }

  /** Of a repeated pair the last position counts. */
  lemma {:induction false} RanksLast(merges: seq<Pair>, n: nat, p: Pair, j: nat)
    requires n <= |merges| && p in RanksOf(merges, n) && RanksOf(merges, n)[p] < j < n
    ensures merges[j] != p
  {
    hide RanksOf;
    RanksNext(merges, n, p);
    if p != merges[n - 1] && j < n - 1 { RanksLast(merges, n - 1, p, j); }
  }

  lemma RanksNext(merges: seq<Pair>, n: nat, p: Pair)
    requires 0 < n <= |merges| && p in RanksOf(merges, n)
    ensures p == merges[n - 1] ==> RanksOf(merges, n)[p] == n - 1
    ensures p != merges[n - 1] ==> p in RanksOf(merges, n - 1) && RanksOf(merges, n)[p] == RanksOf(merges, n - 1)[p]
  {}

  /** Two pairs never share a rank. */
  ghost predicate Distinct(ranks: Ranks) {
    forall p, q :: p in ranks && q in ranks && ranks[p] == ranks[q] ==> p == q
  }

  lemma RanksDistinct(merges: seq<Pair>)
    ensures Distinct(RanksOf(merges, |merges|))
  {}

  // ------------------------------------------------------------------------- pairs --

  function PairAt(w: Word, i: nat): (p: Pair)
    requires i + 1 < |w|
  {
    (w[i], w[i + 1])
  }

  ghost predicate Adjacent(w: Word, p: Pair) {
    exists i :: 0 <= i < |w| - 1 && PairAt(w, i) == p
  }

  /** No two neighbours can be merged any more. */
  ghost predicate Done(ranks: Ranks, w: Word) {
    forall i :: 0 <= i < |w| - 1 ==> PairAt(w, i) !in ranks
  }

  /** get_pairs */
  method GetPairs(w: Word) returns (pairs: set<Pair>)
    requires w != []
    ensures forall p :: p in pairs <==> Adjacent(w, p)
  {
    pairs := {};
    var prev := w[0];
    for k := 1 to |w|
      invariant prev == w[k - 1]
      invariant forall p :: p in pairs <==> exists i :: 0 <= i < k - 1 && PairAt(w, i) == p
    {
      ghost var was := pairs;
      pairs := pairs + {(prev, w[k])};
      forall p ensures p in pairs <==> exists i :: 0 <= i < k && PairAt(w, i) == p {
        assert PairAt(w, k - 1) == (prev, w[k]);
        if p in was {
          var i :| 0 <= i < k - 1 && PairAt(w, i) == p;
        }
      }
      prev := w[k];
    }
  }

  /** The order min() uses: unranked pairs count as infinite. */
  predicate Before(ranks: Ranks, p: Pair, q: Pair) {
    p in ranks && (q in ranks ==> ranks[p] < ranks[q])
  }

  /** The pair of least rank, the set walked in any order and the first of several minima kept. */
  method MinPair(pairs: set<Pair>, ranks: Ranks) returns (best: Pair)
    requires pairs != {}
    ensures best in pairs && forall q :: q in pairs ==> !Before(ranks, q, best)
  {
    best :| best in pairs;
    var rest := pairs - {best};
    while rest != {}
      invariant best in pairs && rest <= pairs
      invariant forall q :: q in pairs && q !in rest ==> !Before(ranks, q, best)
      decreases |rest|
    {
      var p :| p in rest;
      if Before(ranks, p, best) {
        best := p;
      }
      rest := rest - {p};
    }
  }

  ghost predicate IsBest(ranks: Ranks, w: Word, p: Pair) {
    p in ranks && Adjacent(w, p) && forall q :: q in ranks && Adjacent(w, q) ==> ranks[p] <= ranks[q]
  }

  /** With distinct ranks there is one best pair, so set order cannot matter. */
  lemma BestUnique(ranks: Ranks, w: Word, p: Pair, q: Pair)
    requires Distinct(ranks) && IsBest(ranks, w, p) && IsBest(ranks, w, q)
    ensures p == q
  {}

  lemma BestExists(ranks: Ranks, w: Word)
    requires !Done(ranks, w)
    ensures exists p :: IsBest(ranks, w, p)
  {
    var k :| 0 <= k < |w| - 1 && PairAt(w, k) in ranks;
    var best := LeastUpTo(ranks, w, |w| - 1, k);
    assert IsBest(ranks, w, best);
  }

  lemma {:induction false} LeastUpTo(ranks: Ranks, w: Word, n: nat, k: nat) returns (best: Pair)
    requires n <= |w| - 1 && k < n && PairAt(w, k) in ranks
    ensures best in ranks && Adjacent(w, best)
    ensures forall i :: 0 <= i < n && PairAt(w, i) in ranks ==> ranks[best] <= ranks[PairAt(w, i)]
    decreases n
  {
    var last := PairAt(w, n - 1);
    if j :| 0 <= j < n - 1 && PairAt(w, j) in ranks {
      best := LeastUpTo(ranks, w, n - 1, j);
      if last in ranks && ranks[last] < ranks[best] {
        best := last;
      }
    } else {
      best := last;
    }
  }

  // ---------------------------------------------------------------------- one pass --

  /** Replacing ab by a+b from left to right without overlaps. */
  function ReplaceAll(w: Word, a: Symbol, b: Symbol): (r: Word)
    ensures |r| <= |w| && (w != [] ==> r != [])
  {
    if |w| < 2 then w
    else if w[0] == a && w[1] == b then [a + b] + ReplaceAll(w[2..], a, b)
    else [w[0]] + ReplaceAll(w[1..], a, b)
  }

  /** The first position from i on that holds x, or the length when there is none. */
  function IndexFrom(w: Word, x: Symbol, i: nat): (j: nat)
    requires i <= |w|
    ensures i <= j <= |w| && (j < |w| ==> w[j] == x) && forall k :: i <= k < j ==> w[k] != x
    decreases |w| - i
  {
    if i == |w| || w[i] == x then i else IndexFrom(w, x, i + 1)
  }

  /** Symbols other than a are copied. */
  lemma {:induction false} CopyRun(w: Word, a: Symbol, b: Symbol, i: nat, j: nat)
    requires i <= j <= |w| && forall k :: i <= k < j ==> w[k] != a
    ensures ReplaceAll(w[i..], a, b) == w[i..j] + ReplaceAll(w[j..], a, b)
    decreases j - i
  {
    hide ReplaceAll;
    if i < j {
      CopyRun(w, a, b, i + 1, j);
      assert w[i..] == [w[i]] + w[i + 1..];
      CopyOne(w[i], w[i + 1..], a, b);
      assert w[i..j] == [w[i]] + w[i + 1..j];
    }
  }

  lemma CopyOne(x: Symbol, rest: Word, a: Symbol, b: Symbol)
    requires x != a
    ensures ReplaceAll([x] + rest, a, b) == [x] + ReplaceAll(rest, a, b)
  {
    assert ([x] + rest)[1..] == rest;
  }

  /** The index-jumping pass of _bpe is plain left-to-right replacement. */
  method MergePass(word: Word, first: Symbol, second: Symbol) returns (newWord: Word)
    ensures newWord == ReplaceAll(word, first, second)
  {
    hide ReplaceAll;
    newWord := [];
    var i, n := 0, |word|;
    assert word[0..] == word && word[n..] == [];
    NoWord(first, second);
    while i < n
      invariant i <= n && newWord + ReplaceAll(word[i..], first, second) == ReplaceAll(word, first, second)
    {
      var j := IndexFrom(word, first, i);
      CopyStep(word, first, second, i, j, newWord);
      newWord := newWord + word[i..j];
      if j == n {
        return;
      }
      i := j;
      PassStep(word, first, second, i, newWord);
      if word[i] == first && i + 1 < n && word[i + 1] == second {
        newWord := newWord + [first + second];
        i := i + 2;
      } else {
        newWord := newWord + [word[i]];
        i := i + 1;
      }
    }
  }

  lemma NoWord(a: Symbol, b: Symbol)
    ensures ReplaceAll([], a, b) == []
  {}

  lemma CopyStep(w: Word, a: Symbol, b: Symbol, i: nat, j: nat, out: Word)
    requires i <= j <= |w| && forall k :: i <= k < j ==> w[k] != a
    ensures out + ReplaceAll(w[i..], a, b) == (out + w[i..j]) + ReplaceAll(w[j..], a, b)
  {
    hide ReplaceAll;
    CopyRun(w, a, b, i, j);
  }

  /** What one step at position i adds to the output so far. */
  lemma PassStep(w: Word, a: Symbol, b: Symbol, i: nat, out: Word)
    requires i < |w|
    ensures i + 1 < |w| && w[i] == a && w[i + 1] == b ==>
      out + ReplaceAll(w[i..], a, b) == (out + [a + b]) + ReplaceAll(w[i + 2..], a, b)
    ensures !(i + 1 < |w| && w[i] == a && w[i + 1] == b) ==>
      out + ReplaceAll(w[i..], a, b) == (out + [w[i]]) + ReplaceAll(w[i + 1..], a, b)
  {
    assert w[i..][1..] == w[i + 1..];
    if i + 1 < |w| {
      assert w[i..][2..] == w[i + 2..];
    } else {
      assert w[i..] == [w[i]] && w[i + 1..] == [];
    }
  }

  /** The pair occurs at i and nowhere in front of it. */
  ghost predicate FirstAt(w: Word, a: Symbol, b: Symbol, i: nat) {
    i + 1 < |w| && PairAt(w, i) == (a, b) && forall k :: 0 <= k < i ==> PairAt(w, k) != (a, b)
  }

  lemma PassOther(w: Word, a: Symbol, b: Symbol)
    requires |w| >= 1 && (|w| == 1 || PairAt(w, 0) != (a, b))
    ensures ReplaceAll(w, a, b) == [w[0]] + ReplaceAll(w[1..], a, b)
  {
    if |w| == 1 { assert w[1..] == []; }
  }

  lemma PairBehind(w: Word, k: nat)
    requires k + 2 < |w|
    ensures PairAt(w[1..], k) == PairAt(w, k + 1)
  {}

  /** A pass joins the first occurrence and goes on behind it. */
  lemma {:induction false} PassFirst(w: Word, a: Symbol, b: Symbol, i: nat)
    requires FirstAt(w, a, b, i)
    ensures ReplaceAll(w, a, b) == w[..i] + ([a + b] + ReplaceAll(w[i + 2..], a, b))
    decreases i
  {
    if i > 0 {
      hide ReplaceAll, PairAt;
      assert PairAt(w, 0) != (a, b);
      PassOther(w, a, b);
      forall k | 0 <= k < i ensures PairAt(w[1..], k) == PairAt(w, k + 1) { PairBehind(w, k); }
      PassFirst(w[1..], a, b, i - 1);
      var rest := [a + b] + ReplaceAll(w[i + 2..], a, b);
      assert w[1..][i + 1..] == w[i + 2..];
      InFront(w, i, rest);
    }
  }

  lemma InFront(w: Word, i: nat, rest: Word)
    requires 0 < i <= |w|
    ensures [w[0]] + (w[1..][..i - 1] + rest) == w[..i] + rest
  {
    assert w[..i] == [w[0]] + w[1..][..i - 1];
  }

  /** Without an occurrence a pass changes nothing. */
  lemma {:induction false} PassNone(w: Word, a: Symbol, b: Symbol)
    requires forall k :: 0 <= k < |w| - 1 ==> PairAt(w, k) != (a, b)
    ensures ReplaceAll(w, a, b) == w
    decreases |w|
  {
    if |w| >= 1 {
      if |w| >= 2 { assert PairAt(w, 0) != (a, b); }
      PassOther(w, a, b);
      forall k | 0 <= k < |w| - 2 ensures PairAt(w[1..], k) != (a, b) { PairBehind(w, k); }
      PassNone(w[1..], a, b);
    }
  }

  /** A pass over a pair that occurs shortens the word, also when both halves are equal. */
  lemma {:induction false} PassShortens(w: Word, a: Symbol, b: Symbol)
    requires Adjacent(w, (a, b))
    ensures |ReplaceAll(w, a, b)| < |w|
    decreases |w|
  {
    if !(w[0] == a && w[1] == b) {
      var i :| 0 <= i < |w| - 1 && PairAt(w, i) == (a, b);
      assert i > 0 && PairAt(w[1..], i - 1) == (a, b);
      PassShortens(w[1..], a, b);
    }
  }

  // ------------------------------------------------------------------- the whole word --

  function Concat(w: Word): (s: seq<nat>) {
    if w == [] then [] else w[0] + Concat(w[1..])
  }

  lemma {:induction false} PassConcat(w: Word, a: Symbol, b: Symbol)
    ensures Concat(ReplaceAll(w, a, b)) == Concat(w)
    decreases |w|
  {
    if |w| < 2 {
    } else if w[0] == a && w[1] == b {
      PassConcat(w[2..], a, b);
      assert w[1..][1..] == w[2..];
      assert ReplaceAll(w, a, b)[1..] == ReplaceAll(w[2..], a, b);
      assert (a + b) + Concat(w[2..]) == a + (b + Concat(w[2..]));
    } else {
      PassConcat(w[1..], a, b);
      assert ReplaceAll(w, a, b)[1..] == ReplaceAll(w[1..], a, b);
    }
  }

  /** Only a+b is new after a pass. */
  lemma {:induction false} PassSymbols(w: Word, a: Symbol, b: Symbol, x: Symbol)
    requires x in ReplaceAll(w, a, b)
    ensures x in w || x == a + b
    decreases |w|
  {
    if |w| < 2 {
    } else if w[0] == a && w[1] == b {
      if x in ReplaceAll(w[2..], a, b) { PassSymbols(w[2..], a, b, x); }
    } else {
      if x in ReplaceAll(w[1..], a, b) { PassSymbols(w[1..], a, b, x); }
    }
  }

  /** Merging best pairs until none is ranked. */
  ghost function Merged(ranks: Ranks, w: Word): (r: Word)
    decreases |w|
  {
    if Done(ranks, w) then w
    else
      BestExists(ranks, w);
      var p :| IsBest(ranks, w, p);
      PassShortens(w, p.0, p.1);
      Merged(ranks, ReplaceAll(w, p.0, p.1))
  }

  /** Unfolding along any best pair. */
  lemma MergedStep(ranks: Ranks, w: Word, p: Pair)
    requires Distinct(ranks) && IsBest(ranks, w, p)
    ensures Merged(ranks, w) == Merged(ranks, ReplaceAll(w, p.0, p.1)) && |ReplaceAll(w, p.0, p.1)| < |w|
  {
    PassShortens(w, p.0, p.1);
    var i :| 0 <= i < |w| - 1 && PairAt(w, i) == p;
    forall q | IsBest(ranks, w, q) ensures q == p { BestUnique(ranks, w, p, q); }
  }

  /** Merging keeps the text, ends with no ranked neighbours, and makes no symbols but merge
      results. */
  lemma {:induction false} MergedKeeps(ranks: Ranks, w: Word)
    requires Distinct(ranks)
    ensures Concat(Merged(ranks, w)) == Concat(w) && Done(ranks, Merged(ranks, w))
    ensures forall x :: x in Merged(ranks, w) ==> x in w || exists p :: p in ranks && x == p.0 + p.1
    decreases |w|
  {
    if !Done(ranks, w) {
      BestExists(ranks, w);
      var p :| IsBest(ranks, w, p);
      MergedStep(ranks, w, p);
      var w' := ReplaceAll(w, p.0, p.1);
      PassConcat(w, p.0, p.1);
      MergedKeeps(ranks, w');
      forall x | x in Merged(ranks, w) ensures x in w || exists p :: p in ranks && x == p.0 + p.1 {
        if x in w' { PassSymbols(w, p.0, p.1, x); }
      }
    }
  }

  function Letters(token: seq<nat>): (w: Word)
    ensures |w| == |token| && forall i :: 0 <= i < |w| ==> w[i] == [token[i]]
  {
    seq(|token|, i requires 0 <= i < |token| => [token[i]])
  }

  lemma {:induction false} ConcatLetters(token: seq<nat>)
    ensures Concat(Letters(token)) == token
  {
    if token != [] {
      ConcatLetters(token[1..]);
      assert Letters(token)[1..] == Letters(token[1..]);
    }
  }

  /** _bpe: an empty token makes get_pairs raise; any other ends, whatever order sets are walked in,
      with the one fully merged word. */
  method BpeWord(ranks: Ranks, token: seq<nat>) returns (r: Outcome<Word>)
    requires Distinct(ranks)
    ensures r.Return? <==> token != []
    ensures r.Return? ==> r.value == Merged(ranks, Letters(token))
    ensures r.Return? ==> Concat(r.value) == token && Done(ranks, r.value)
  {
    hide Distinct, Merged, IsBest, Adjacent, ReplaceAll, Concat;
    MergedKeeps(ranks, Letters(token));
    ConcatLetters(token);
    if |token| == 1 {
      MergedDone(ranks, Letters(token));
      assert token == [token[0]] == Letters(token)[0];
      return Return([token]);
    }
    if token == [] {
      return Raise;
    }
    var word := Letters(token);
    var pairs := GetPairs(word);
    while true
      invariant word != [] && Merged(ranks, word) == Merged(ranks, Letters(token))
      invariant forall p :: p in pairs <==> Adjacent(word, p)
      decreases |word|
    {
      if pairs == {} {
        NoneRanked(ranks, word, pairs);
        break;
      }
      var bigram := MinPair(pairs, ranks);
      if bigram !in ranks {
        NoneRanked(ranks, word, pairs);
        break;
      }
      MinIsBest(ranks, word, pairs, bigram);
      MergedStep(ranks, word, bigram);
      word := MergePass(word, bigram.0, bigram.1);
      if |word| == 1 {
        MergedDone(ranks, word);
        break;
      }
      pairs := GetPairs(word);
    }
    r := Return(word);
  }

  lemma MergedDone(ranks: Ranks, w: Word)
    requires |w| == 1 || Done(ranks, w)
    ensures Merged(ranks, w) == w
  {}

  lemma NoneRanked(ranks: Ranks, w: Word, pairs: set<Pair>)
    requires (forall p :: p in pairs <==> Adjacent(w, p)) && forall q :: q in pairs ==> q !in ranks
    ensures Merged(ranks, w) == w
  {
    forall i | 0 <= i < |w| - 1 ensures PairAt(w, i) !in ranks { assert Adjacent(w, PairAt(w, i)); }
  }

  lemma MinIsBest(ranks: Ranks, w: Word, pairs: set<Pair>, m: Pair)
    requires (forall p :: p in pairs <==> Adjacent(w, p)) && m in pairs && m in ranks
    requires forall q :: q in pairs ==> !Before(ranks, q, m)
    ensures IsBest(ranks, w, m)
  {
    forall q | q in ranks && Adjacent(w, q) ensures ranks[m] <= ranks[q] {
      assert !Before(ranks, q, m);
    }
  }
}
