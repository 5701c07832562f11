/** Symbol streams: written with BW.vlc, read back through the two-level table or
    through the sorted search. Both readers agree with one reference reading and
    invert the writer on every prefix-free code. */
module VlcStream {
  import opened Bits
  import opened Outcomes
  import opened Codewords
  import opened TwoLevelTable
  import opened BuildVlc
  import opened SortedVlc
  import opened BitWriter
  import Buffers

  /** The rows a symbol stream names, by position in the code list. */
  ghost predicate InList(codes: seq<Code>, ks: seq<nat>) {
    forall i :: 0 <= i < |ks| ==> ks[i] < |codes|
  }

  function Encode(codes: seq<Code>, ks: seq<nat>): (s: seq<Bit>)
    requires AllFit(codes) && InList(codes, ks)
  {
    if ks == [] then [] else Word(codes[ks[0]]) + Encode(codes, ks[1..])
  }

  function Symbols(codes: seq<Code>, ks: seq<nat>): (r: seq<int>)
    requires InList(codes, ks)
  {
    if ks == [] then [] else [codes[ks[0]].sym] + Symbols(codes, ks[1..])
  }

  lemma {:induction false} EncodeSnoc(codes: seq<Code>, ks: seq<nat>, k: nat)
    requires AllFit(codes) && InList(codes, ks) && k < |codes|
    ensures Encode(codes, ks + [k]) == Encode(codes, ks) + Word(codes[k])
  {
    if ks == [] {
      assert ks + [k] == [k] && [k][1..] == [];
    } else {
      assert (ks + [k])[1..] == ks[1..] + [k];
      EncodeSnoc(codes, ks[1..], k);
    }
  }

  lemma NothingEncoded(codes: seq<Code>)
    requires AllFit(codes)
    ensures Encode(codes, []) == []
  {}

  method WriteSymbols(bw: BW, codes: seq<Code>, ks: seq<nat>)
    requires bw.Valid() && AllFit(codes) && InList(codes, ks)
    modifies bw
    ensures bw.Valid() && bw.Bits() == old(bw.Bits()) + Encode(codes, ks)
  {
    hide Encode, Word, BW.Bits, BW.Valid, Fits;
    ghost var was := bw.Bits();
    NothingEncoded(codes);
    assert ks[..0] == [] && was + [] == was;
    for i := 0 to |ks|
      invariant bw.Valid() && bw.Bits() == was + Encode(codes, ks[..i])
    {
      bw.PutVlc(codes[ks[i]]);
      assert ks[..i + 1] == ks[..i] + [ks[i]];
      EncodeSnoc(codes, ks[..i], ks[i]);
      Buffers.ConcatAssoc(was, Encode(codes, ks[..i]), Word(codes[ks[i]]));
    }
    assert ks[..|ks|] == ks;
  }

  /** The reference reading: at each position, the row whose word comes next. */
  function Read(codes: seq<Code>, s: seq<Bit>, pos: nat, n: nat): (r: Option<seq<int>>)
    requires AllFit(codes)
    decreases n
  {
    if n == 0 then Some([])
    else match Find(codes, Peek(s, pos))
      case None => None
      case Some(c) =>
        FindMatches(codes, Peek(s, pos));
        match Read(codes, s, pos + c.len, n - 1)
        case None => None
        case Some(rest) => Some([c.sym] + rest)
  }

  /** The bits w stand at position pos of the stream s. */
  ghost predicate At(s: seq<Bit>, pos: nat, w: seq<Bit>) {
    pos + |w| <= |s| && s[pos..pos + |w|] == w
  }

  lemma AtSplit(s: seq<Bit>, pos: nat, a: seq<Bit>, b: seq<Bit>)
    requires At(s, pos, a + b)
    ensures At(s, pos, a) && At(s, pos + |a|, b)
  {
    var u := s[pos..pos + |a + b|];
    assert s[pos..pos + |a|] == u[..|a|] == a;
    assert s[pos + |a|..pos + |a| + |b|] == u[|a|..] == b;
  }

  /** Wherever a word of a prefix-free code is written, it is the row found there. */
  lemma NextIsFound(codes: seq<Code>, k: nat, s: seq<Bit>, pos: nat)
    requires AllFit(codes) && PrefixFree(codes) && k < |codes| && At(s, pos, Word(codes[k]))
    ensures Find(codes, Peek(s, pos)) == Some(codes[k])
  {
    assert Show(s, pos, codes[k].len) == s[pos..pos + codes[k].len];
    MatchesShown(codes[k], s, pos);
    FindIsUnique(codes, Peek(s, pos), k);
  }

  lemma {:induction false} ReadInvertsEncode(codes: seq<Code>, ks: seq<nat>, s: seq<Bit>, pos: nat)
    requires AllFit(codes) && PrefixFree(codes) && InList(codes, ks) && At(s, pos, Encode(codes, ks))
    ensures Read(codes, s, pos, |ks|) == Some(Symbols(codes, ks))
    decreases |ks|
  {
    hide Peek, Find, Word, BitsOf, At, PrefixFree, Fits;
    if ks != [] {
      var c := codes[ks[0]];
      AtSplit(s, pos, Word(c), Encode(codes, ks[1..]));
      NextIsFound(codes, ks[0], s, pos);
      ReadInvertsEncode(codes, ks[1..], s, pos + c.len);
    }
  }

  // -------------------------------------------------------- the two readers --

  /** Repeated m12_vlc_get (c/lib/video/mpeg12_int.h). */
  function ReadTable(t: seq<Entry>, s: seq<Bit>, pos: nat, n: nat): (r: Option<seq<int>>)
    requires TableOk(t)
    decreases n
  {
    if n == 0 then Some([])
    else match Lookup(t, Peek(s, pos))
      case None => None
      case Some(h) =>
        match ReadTable(t, s, pos + h.used, n - 1)
        case None => None
        case Some(rest) => Some([h.sym] + rest)
  }

  ghost predicate TableFor(t: seq<Entry>, codes: seq<Code>) {
    TableOk(t) && AllFit(codes) && forall p :: 0 <= p < 0x10000 ==> Lookup(t, p) == HitOf(Find(codes, p))
  }

  lemma {:induction false} TableReadsReference(t: seq<Entry>, codes: seq<Code>, s: seq<Bit>, pos: nat, n: nat)
    requires TableFor(t, codes)
    ensures ReadTable(t, s, pos, n) == Read(codes, s, pos, n)
    decreases n
  {
    hide Peek, Find, TableOk, Lookup;
    if n > 0 {
      var p := Peek(s, pos);
      assert Lookup(t, p) == HitOf(Find(codes, p));
      FindMatches(codes, p);
      if Find(codes, p).Some? {
        TableReadsReference(t, codes, s, pos + Find(codes, p).value.len, n - 1);
      }
    }
  }

  /** Every row of the list still has to come before the end of the stream. */
  function ReadGuarded(codes: seq<Code>, s: seq<Bit>, pos: nat, n: nat): (r: Option<seq<int>>)
    requires AllFit(codes)
    decreases n
  {
    if n == 0 then Some([])
    else if pos >= |s| then None
    else match Find(codes, Peek(s, pos))
      case None => None
      case Some(c) =>
        FindMatches(codes, Peek(s, pos));
        match ReadGuarded(codes, s, pos + c.len, n - 1)
        case None => None
        case Some(rest) => Some([c.sym] + rest)
  }

  ghost predicate SearchFor(v: Vlc, off: seq<nat>, cnt: seq<nat>, codes: seq<Code>) {
    && Sorted(v.entries) && Brackets(v, off, cnt) && AllFit(v.entries) && NoConflict(v.entries)
    && (forall i :: 0 <= i < |v.entries| ==> v.minlen <= v.entries[i].len <= v.maxlen)
    && multiset(v.entries) == multiset(codes)
  }

  /** Repeated m4b_vlc. */
  method ReadSearch(v: Vlc, off: seq<nat>, cnt: seq<nat>, s: seq<Bit>, pos: nat, n: nat) returns (r: Option<seq<int>>)
    requires SearchFor(v, off, cnt, v.entries)
    ensures r == ReadGuarded(v.entries, s, pos, n)
    decreases n
  {
    hide Sorted, NoConflict, Peek, Find;
    if n == 0 {
      return Some([]);
    }
    var h := Search(v, off, cnt, s, pos);
    if h.None? {
      FindMatches(v.entries, Peek(s, pos));
      return None;
    }
    FindMatches(v.entries, Peek(s, pos));
    var rest := ReadSearch(v, off, cnt, s, pos + h.value.used, n - 1);
    r := if rest.None? then None else Some([h.value.sym] + rest.value);
  }

  /** A conflict-free list finds the same row however its rows are ordered. */
  lemma FindPermutes(s: seq<Code>, t: seq<Code>, p: nat)
    requires AllFit(s) && AllFit(t) && NoConflict(s) && NoConflict(t) && multiset(s) == multiset(t)
    ensures Find(s, p) == Find(t, p)
  {
    if Find(s, p).Some? {
      FindMatches(s, p);
      var c := Find(s, p).value;
      assert c in multiset(t);
      var k :| 0 <= k < |t| && t[k] == c;
      OnlyMatch(t, p, k);
    } else {
      FindNone(s, p);
      forall k | 0 <= k < |t| ensures !Matches(t[k], p) {
        assert t[k] in multiset(s);
        var j :| 0 <= j < |s| && s[j] == t[k];
      }
      FindNone(t, p);
    }
  }

  lemma ConflictFreeIsPrefixFree(codes: seq<Code>)
    requires AllFit(codes)
    ensures NoConflict(codes) <==> PrefixFree(codes)
  {
    forall i, j | 0 <= i < j < |codes| ensures Conflict(codes[i], codes[j]) <==> Comparable(codes[i], codes[j]) {
      ConflictIsComparable(codes[i], codes[j]);
    }
  }

  /** Before the end of a stream the search answers what the table answers; at the end it finds
      nothing, where the table still sees zeros. */
  lemma DecodersAgree(t: seq<Entry>, entries: seq<Code>, codes: seq<Code>, s: seq<Bit>, pos: nat)
    requires TableFor(t, codes) && PrefixFree(codes) && AllFit(entries) && NoConflict(entries)
    requires multiset(entries) == multiset(codes)
    ensures SearchAnswer(entries, s, pos) == if pos < |s| then Lookup(t, Peek(s, pos)) else None
  {
    hide Peek;
    ConflictFreeIsPrefixFree(codes);
    FindPermutes(entries, codes, Peek(s, pos));
  }

  /** The difference at the end: a code with the word 0, an empty stream. */
  lemma EndsDiffer(t: seq<Entry>, c: Code)
    requires c.code == 0 && c.len == 1 && TableFor(t, [c])
    ensures SearchAnswer([c], [], 0) == None && Lookup(t, Peek([], 0)) == Some(Hit(c.sym, 1))
  {
    hide Peek, Lookup;
    assert Fits([c][0]);
    MatchesShown(c, [], 0);
    assert Show([], 0, 0) == [] && Show([], 0, 1) == [0];
    assert [0][..0] == [] && Value([]) == 0 && Value([0]) == 0;
    FindIsLast([c], Peek([], 0), 0);
  }

  lemma NextIsFoundSorted(entries: seq<Code>, codes: seq<Code>, k: nat, s: seq<Bit>, pos: nat)
    requires AllFit(codes) && PrefixFree(codes) && k < |codes| && At(s, pos, Word(codes[k]))
    requires AllFit(entries) && NoConflict(entries) && multiset(entries) == multiset(codes)
    ensures Find(entries, Peek(s, pos)) == Some(codes[k])
  {
    NextIsFound(codes, k, s, pos);
    ConflictFreeIsPrefixFree(codes);
    FindPermutes(entries, codes, Peek(s, pos));
  }

  /** Wherever a word of codes stands in s, entries finds its row. */
  ghost predicate FindsRows(entries: seq<Code>, codes: seq<Code>, s: seq<Bit>)
    requires AllFit(entries) && AllFit(codes)
  {
    forall k: nat, q: nat :: k < |codes| && At(s, q, Word(codes[k])) ==> Find(entries, Peek(s, q)) == Some(codes[k])
  }

  lemma {:induction false} GuardedInvertsEncode(entries: seq<Code>, codes: seq<Code>, ks: seq<nat>, s: seq<Bit>,
      pos: nat)
    requires AllFit(codes) && InList(codes, ks) && At(s, pos, Encode(codes, ks))
    requires AllFit(entries) && FindsRows(entries, codes, s)
    ensures ReadGuarded(entries, s, pos, |ks|) == Some(Symbols(codes, ks))
    decreases |ks|
  {
    hide Peek, Find, Word, BitsOf, At, FindsRows, Fits;
    if ks != [] {
      hide ReadGuarded;
      var c := codes[ks[0]];
      AtSplit(s, pos, Word(c), Encode(codes, ks[1..]));
      RowFound(entries, codes, s, ks[0], pos);
      GuardedInvertsEncode(entries, codes, ks[1..], s, pos + c.len);
      GuardedNext(entries, s, pos, |ks|, c);
    }
  }

  lemma RowFound(entries: seq<Code>, codes: seq<Code>, s: seq<Bit>, k: nat, q: nat)
    requires AllFit(entries) && AllFit(codes) && FindsRows(entries, codes, s)
    requires k < |codes| && At(s, q, Word(codes[k]))
    ensures Find(entries, Peek(s, q)) == Some(codes[k]) && q < |s| && codes[k].len > 0
  {
    hide Peek, Find, Word;
    assert Fits(codes[k]);
  }

  /** Reading one row. */
  lemma GuardedNext(entries: seq<Code>, s: seq<Bit>, pos: nat, n: nat, c: Code)
    requires AllFit(entries) && n > 0 && pos < |s| && c.len > 0 && Find(entries, Peek(s, pos)) == Some(c)
    requires ReadGuarded(entries, s, pos + c.len, n - 1).Some?
    ensures ReadGuarded(entries, s, pos, n) == Some([c.sym] + ReadGuarded(entries, s, pos + c.len, n - 1).value)
  {
    hide Peek, Find;
  }

  /** The pipeline: build the table and the sorted list from one prefix-free code, write any
      symbol stream after whatever the writer holds, and read those bits back both ways, whatever
      follows. */
  method RoundTrip(bw: BW, codes: seq<Code>, ks: seq<nat>, tail: seq<Bit>)
      returns (t: seq<Entry>, v: Vlc, byTable: Option<seq<int>>, bySearch: Option<seq<int>>)
    requires bw.Valid() && codes != [] && AllFit(codes) && PrefixFree(codes) && InList(codes, ks)
    modifies bw
    ensures bw.Valid() && bw.Bits() == old(bw.Bits()) + Encode(codes, ks)
    ensures TableFor(t, codes) && Sorted(v.entries) && AllFit(v.entries) && multiset(v.entries) == multiset(codes)
    ensures byTable == ReadTable(t, bw.Bits() + tail, |old(bw.Bits())|, |ks|)
    ensures bySearch == ReadGuarded(v.entries, bw.Bits() + tail, |old(bw.Bits())|, |ks|)
    ensures byTable == bySearch == Some(Symbols(codes, ks))
  {
    ConflictFreeIsPrefixFree(codes);
    var built := Build(codes);
    var made := MakeVlc(codes);
    assert built.Return? && made.Return?;
    t, v := built.value.entries, made.value;
    SortedFits(codes, v.entries);
    assert Fits(v.entries[0]);
    var off, cnt := Offsets(v);
    var pos := |bw.Bits()|;
    WriteSymbols(bw, codes, ks);
    var s := bw.Bits() + tail;
    byTable := ReadTable(t, s, pos, |ks|);
    bySearch := ReadSearch(v, off, cnt, s, pos, |ks|);
    TableReadsReference(t, codes, s, pos, |ks|);
    assert At(s, pos, Encode(codes, ks));
    ReadInvertsEncode(codes, ks, s, pos);
    forall k: nat, q: nat | k < |codes| && At(s, q, Word(codes[k]))
      ensures Find(v.entries, Peek(s, q)) == Some(codes[k])
    {
      NextIsFoundSorted(v.entries, codes, k, s, q);
    }
    GuardedInvertsEncode(v.entries, codes, ks, s, pos);
  }

  lemma SortedFits(codes: seq<Code>, sorted: seq<Code>)
    requires AllFit(codes) && codes != [] && multiset(sorted) == multiset(codes)
    ensures AllFit(sorted) && sorted != []
  {
    forall i | 0 <= i < |sorted| ensures Fits(sorted[i]) {
      assert sorted[i] in multiset(codes);
    }
    assert codes[0] in multiset(sorted);
  }
}
