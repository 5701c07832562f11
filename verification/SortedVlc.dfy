/** tools/genmpeg4_tables.py class Vlc: a code list sorted by (length, code), its
    prefix check, its per-length brackets, and the bit-at-a-time search over them
    (c/lib/video/mpeg4_bits.h m4b_vlc). */
module SortedVlc {
  import opened Bits
  import opened Outcomes
  import opened Codewords
  import opened TwoLevelTable

  datatype Vlc = Vlc(entries: seq<Code>, minlen: int, maxlen: int)

  // -------------------------------------------------------------- sorting --

  predicate Before(c: Code, d: Code) {
    c.len < d.len || (c.len == d.len && c.code <= d.code)
  }

  ghost predicate Sorted(s: seq<Code>) {
    forall i, j :: 0 <= i < j < |s| ==> Before(s[i], s[j])
  }

  function Insert(c: Code, s: seq<Code>): (t: seq<Code>)
    requires Sorted(s)
    ensures Sorted(t) && multiset(t) == multiset(s) + multiset{c}
    ensures s == [] ==> t == [c]
    ensures s != [] ==> t[0] == c || t[0] == s[0]
  {
    if s == [] then [c]
    else if !Before(s[0], c) then
      FrontSorted(c, s);
      [c] + s
    else
      assert s == [s[0]] + s[1..];
      var t := Insert(c, s[1..]);
      BehindFront(s[0], s[1..], c, t);
      FrontSorted(s[0], t);
      [s[0]] + t
  }

  /** A row in front of all of a sorted list. */
  lemma FrontSorted(c: Code, s: seq<Code>)
    requires Sorted(s) && (s == [] || Before(c, s[0]))
    ensures Sorted([c] + s)
  {
    var t := [c] + s;
    forall i, j | 0 <= i < j < |t| ensures Before(t[i], t[j]) {
      if i == 0 && j > 1 { assert Before(s[0], s[j - 1]); }
    }
  }

  lemma BehindFront(h: Code, s: seq<Code>, c: Code, t: seq<Code>)
    requires Sorted([h] + s) && Before(h, c) && multiset(t) == multiset(s) + multiset{c}
    ensures t == [] || Before(h, t[0])
  {
    if t != [] {
      assert t[0] in multiset(t);
      if t[0] != c {
        var k :| 0 <= k < |s| && s[k] == t[0];
        assert ([h] + s)[0] == h && ([h] + s)[k + 1] == s[k];
      }
    }
  }

  /** The rows in order of length, then code. */
  function SortCodes(s: seq<Code>): (t: seq<Code>)
    ensures Sorted(t) && multiset(t) == multiset(s)
  {
    if s == [] then []
    else
      assert s == s[..|s| - 1] + [s[|s| - 1]];
      Insert(s[|s| - 1], SortCodes(s[..|s| - 1]))
  }

  // --------------------------------------------------------- prefix check --

  /** d, shifted down to c's length, is c. */
  predicate ShiftPrefix(c: Code, d: Code) {
    c.len < d.len && d.code / Pow2(d.len - c.len) == c.code
  }

  predicate Conflict(c: Code, d: Code) {
    SameWord(c, d) || ShiftPrefix(c, d) || ShiftPrefix(d, c)
  }

  ghost predicate NoConflict(s: seq<Code>) {
    forall i, j :: 0 <= i < j < |s| ==> !Conflict(s[i], s[j])
  }

  /** For rows that fit their length, conflicts are exactly comparable words. */
  lemma ConflictIsComparable(c: Code, d: Code)
    requires Fits(c) && Fits(d)
    ensures Conflict(c, d) <==> Comparable(c, d)
  {
    if c.len == d.len {
      if Comparable(c, d) { EqualLengthComparable(c, d); }
    } else if c.len < d.len {
      ShiftIsPrefix(c, d);
    } else {
      ShiftIsPrefix(d, c);
    }
  }

  lemma ShiftIsPrefix(c: Code, d: Code)
    requires Fits(c) && Fits(d) && c.len < d.len
    ensures ShiftPrefix(c, d) <==> Word(c) <= Word(d)
  {
    Pow2Add(c.len, d.len - c.len);
    var q, r := DivParts(d.code, Pow2(d.len - c.len), Pow2(c.len));
    PrefixIsQuotient(c.code, c.len, q, r, d.len - c.len);
  }

  /** seen holds exactly the first n rows, by (code, length). */
  ghost predicate SeenRows(seen: map<(int, int), int>, s: seq<Code>, n: nat)
    requires n <= |s|
  {
    && (forall k :: 0 <= k < n ==> (s[k].code, s[k].len) in seen)
    && (forall key :: key in seen ==> exists k :: 0 <= k < n && key == (s[k].code, s[k].len))
  }

  /** The first loop: remember every row, refusing a repeated one. */
  method Remember(entries: seq<Code>) returns (ok: bool, seen: map<(int, int), int>)
    ensures ok <==> NoRepeat(entries)
    ensures ok ==> SeenRows(seen, entries, |entries|)
  {
    seen := map[];
    for i := 0 to |entries|
      invariant SeenRows(seen, entries, i)
      invariant forall j, k :: 0 <= j < k < i ==> !SameWord(entries[j], entries[k])
    {
      var c := entries[i];
      if (c.code, c.len) in seen {
        ghost var k :| 0 <= k < i && (c.code, c.len) == (entries[k].code, entries[k].len);
        assert SameWord(entries[k], entries[i]);
        return false, seen;
      }
      seen := seen[(c.code, c.len) := c.sym];
    }
    ok := true;
  }

  /** The inner loop: does some shorter row prefix c? */
  method PrefixSeen(seen: map<(int, int), int>, entries: seq<Code>, c: Code, minlen: int) returns (found: bool)
    requires SeenRows(seen, entries, |entries|) && minlen <= c.len
    requires forall i :: 0 <= i < |entries| ==> minlen <= entries[i].len
    ensures found <==> exists k :: 0 <= k < |entries| && ShiftPrefix(entries[k], c)
  {
    hide Pow2;
    for shorter := minlen to c.len
      invariant forall k :: 0 <= k < |entries| && entries[k].len < shorter ==> !ShiftPrefix(entries[k], c)
    {
      var key := (c.code / Pow2(c.len - shorter), shorter);
      if key in seen {
        ghost var k :| 0 <= k < |entries| && key == (entries[k].code, entries[k].len);
        assert ShiftPrefix(entries[k], c);
        return true;
      }
      forall k | 0 <= k < |entries| && entries[k].len == shorter ensures !ShiftPrefix(entries[k], c) {
        assert (entries[k].code, entries[k].len) in seen;
      }
    }
    found := false;
  }

  method CheckPrefixFree(entries: seq<Code>, minlen: int) returns (ok: bool)
    requires forall i :: 0 <= i < |entries| ==> minlen <= entries[i].len
    ensures ok <==> NoConflict(entries)
  {
    hide Pow2, SeenRows, ShiftPrefix, NoConflict, NoRepeat;
    var seen;
    ok, seen := Remember(entries);
    if !ok {
      RepeatConflicts(entries);
      return;
    }
    for i := 0 to |entries|
      invariant forall j, k :: 0 <= j < i && 0 <= k < |entries| ==> !ShiftPrefix(entries[k], entries[j])
    {
      var found := PrefixSeen(seen, entries, entries[i], minlen);
      if found {
        ghost var k :| 0 <= k < |entries| && ShiftPrefix(entries[k], entries[i]);
        PrefixConflicts(entries, k, i);
        return false;
      }
    }
    NoPrefixNoRepeat(entries);
  }

  lemma RepeatConflicts(s: seq<Code>)
    requires !NoRepeat(s)
    ensures !NoConflict(s)
  {
    hide ShiftPrefix;
    var i, j :| 0 <= i < j < |s| && SameWord(s[i], s[j]);
    assert Conflict(s[i], s[j]);
  }

  lemma PrefixConflicts(s: seq<Code>, k: nat, i: nat)
    requires k < |s| && i < |s| && ShiftPrefix(s[k], s[i])
    ensures !NoConflict(s)
  {
    hide Pow2;
    assert k < i ==> Conflict(s[k], s[i]);
    assert i < k ==> Conflict(s[i], s[k]);
  }

  lemma NoPrefixNoRepeat(s: seq<Code>)
    requires NoRepeat(s) && forall j, k :: 0 <= j < |s| && 0 <= k < |s| ==> !ShiftPrefix(s[k], s[j])
    ensures NoConflict(s)
  {
    hide ShiftPrefix;
  }

  ghost predicate Constructible(entries: seq<Code>) {
    entries != [] && (forall i :: 0 <= i < |entries| ==> entries[i].len <= MAX_LEN) && NoConflict(entries)
  }

  method Lengths(entries: seq<Code>) returns (minlen: int, maxlen: int)
    requires entries != []
    ensures forall i :: 0 <= i < |entries| ==> minlen <= entries[i].len <= maxlen
    ensures exists i :: 0 <= i < |entries| && entries[i].len == minlen
    ensures exists i :: 0 <= i < |entries| && entries[i].len == maxlen
  {
    minlen, maxlen := entries[0].len, entries[0].len;
    for i := 1 to |entries|
      invariant forall k :: 0 <= k < i ==> minlen <= entries[k].len <= maxlen
      invariant exists k :: 0 <= k < i && entries[k].len == minlen
      invariant exists k :: 0 <= k < i && entries[k].len == maxlen
    {
      if entries[i].len < minlen { minlen := entries[i].len; }
      if entries[i].len > maxlen { maxlen := entries[i].len; }
    }
  }

  /** The constructor: it returns exactly on non-empty lists of lengths at most 16 with no
      conflicting rows, and then holds the same rows in (length, code) order. */
  method MakeVlc(entries: seq<Code>) returns (r: Outcome<Vlc>)
    ensures r.Return? <==> Constructible(entries)
    ensures r.Return? ==>
      && Sorted(r.value.entries) && multiset(r.value.entries) == multiset(entries)
      && NoConflict(r.value.entries)
      && forall i :: 0 <= i < |r.value.entries| ==>
           r.value.minlen <= r.value.entries[i].len <= r.value.maxlen <= MAX_LEN
  {
    if entries == [] {
      return Raise;
    }
    var sorted := SortCodes(entries);
    var minlen, maxlen := Lengths(entries);
    if maxlen > 16 {
      return Raise;
    }
    forall i | 0 <= i < |sorted| ensures minlen <= sorted[i].len <= maxlen {
      assert sorted[i] in multiset(entries);
    }
    var ok := CheckPrefixFree(sorted, minlen);
    ConflictPermutes(entries, sorted);
    r := if ok then Return(Vlc(sorted, minlen, maxlen)) else Raise;
  }

  lemma ConflictPermutes(s: seq<Code>, t: seq<Code>)
    requires multiset(s) == multiset(t)
    ensures NoConflict(s) <==> NoConflict(t)
  {
    if !NoConflict(s) { ConflictCarried(s, t); }
    if !NoConflict(t) { ConflictCarried(t, s); }
  }

  lemma ConflictCarried(s: seq<Code>, t: seq<Code>)
    requires multiset(s) == multiset(t) && !NoConflict(s)
    ensures !NoConflict(t)
  {
    var i, j :| 0 <= i < j < |s| && Conflict(s[i], s[j]);
    var a, b := TwoPositions(s, t, i, j);
    assert Conflict(t[a], t[b]) && Conflict(t[b], t[a]);
  }

  function Without(s: seq<Code>, i: nat): (r: seq<Code>)
    requires i < |s|
    ensures |r| == |s| - 1
  {
    s[..i] + s[i + 1..]
  }

  lemma WithoutOne(s: seq<Code>, i: nat)
    requires i < |s|
    ensures multiset(Without(s, i)) == multiset(s) - multiset{s[i]}
  {
    assert s == s[..i] + ([s[i]] + s[i + 1..]);
    assert multiset(s) == multiset(s[..i]) + multiset{s[i]} + multiset(s[i + 1..]);
  }

  /** Two positions of s have counterparts in any rearrangement t. */
  lemma TwoPositions(s: seq<Code>, t: seq<Code>, i: nat, j: nat) returns (a: nat, b: nat)
    requires multiset(s) == multiset(t) && i < j < |s|
    ensures a < |t| && b < |t| && a != b && t[a] == s[i] && t[b] == s[j]
  {
    hide Without;
    a := Position(s, t, i);
    WithoutOne(s, i);
    WithoutOne(t, a);
    WithoutAt(s, i, j - 1);
    var c := Position(Without(s, i), Without(t, a), j - 1);
    WithoutAt(t, a, c);
    b := if c < a then c else c + 1;
  }

  /** A position of s has a counterpart in any rearrangement t. */
  lemma Position(s: seq<Code>, t: seq<Code>, i: nat) returns (a: nat)
    requires multiset(s) == multiset(t) && i < |s|
    ensures a < |t| && t[a] == s[i]
  {
    assert s[i] in multiset(t);
    a :| 0 <= a < |t| && t[a] == s[i];
  }

  lemma WithoutAt(s: seq<Code>, i: nat, k: nat)
    requires i < |s| && k < |s| - 1
    ensures Without(s, i)[k] == s[if k < i then k else k + 1]
  {}

  // ------------------------------------------------------------- brackets --

  /** How many rows are shorter than l. */
  function ShorterThan(s: seq<Code>, l: int): (n: nat)
    ensures n <= |s|
  {
    if s == [] then 0
    else ShorterThan(s[..|s| - 1], l) + if s[|s| - 1].len < l then 1 else 0
  }

  /** How many rows have length l. */
  function OfLength(s: seq<Code>, l: int): (n: nat)
    ensures n <= |s|
  {
    if s == [] then 0
    else OfLength(s[..|s| - 1], l) + if s[|s| - 1].len == l then 1 else 0
  }

  lemma {:induction false} ShorterStep(s: seq<Code>, l: int)
    ensures ShorterThan(s, l + 1) == ShorterThan(s, l) + OfLength(s, l)
  {
    if s != [] { ShorterStep(s[..|s| - 1], l); }
  }

  lemma {:induction false} ShorterNone(s: seq<Code>, l: int)
    requires forall i :: 0 <= i < |s| ==> s[i].len >= l
    ensures ShorterThan(s, l) == 0
  {
    if s != [] { ShorterNone(s[..|s| - 1], l); }
  }

  /** In a sorted list the rows shorter than l come first. */
  lemma {:induction false} ShorterComeFirst(s: seq<Code>, l: int, i: nat)
    requires Sorted(s) && i < |s|
    ensures s[i].len < l <==> i < ShorterThan(s, l)
  {
    var front := s[..|s| - 1];
    if i < |s| - 1 {
      ShorterComeFirst(front, l, i);
      if s[|s| - 1].len < l { AllShorter(front, l); }
    } else {
      if s[|s| - 1].len < l { AllShorter(front, l); }
    }
  }

  lemma {:induction false} AllShorter(s: seq<Code>, l: int)
    requires forall i :: 0 <= i < |s| ==> s[i].len < l
    ensures ShorterThan(s, l) == |s|
  {
    if s != [] { AllShorter(s[..|s| - 1], l); }
  }

  /** Rows off[l] .. off[l] + cnt[l] - 1 are exactly those of length l. */
  ghost predicate Brackets(v: Vlc, off: seq<nat>, cnt: seq<nat>) {
    && v.maxlen >= 0 && |off| == |cnt| == v.maxlen + 2
    && (forall l :: 0 <= l <= v.maxlen ==> off[l] + cnt[l] <= |v.entries|)
    && forall l, i :: 0 <= l <= v.maxlen && 0 <= i < |v.entries| ==>
         (v.entries[i].len == l <==> off[l] <= i < off[l] + cnt[l])
  }

  method Offsets(v: Vlc) returns (off: seq<nat>, cnt: seq<nat>)
    requires Sorted(v.entries) && v.maxlen >= 0
    requires forall i :: 0 <= i < |v.entries| ==> 0 <= v.entries[i].len <= v.maxlen
    ensures Brackets(v, off, cnt)
    ensures forall l :: 0 <= l < v.maxlen + 2 ==> cnt[l] == OfLength(v.entries, l)
  {
    hide ShorterThan, OfLength, Sorted;
    off, cnt := seq(v.maxlen + 2, _ => 0), seq(v.maxlen + 2, _ => 0);
    assert v.entries[..0] == [];
    CountNone();
    for i := 0 to |v.entries|
      invariant |cnt| == v.maxlen + 2
      invariant forall l :: 0 <= l < |cnt| ==> cnt[l] == OfLength(v.entries[..i], l)
    {
      var l := v.entries[i].len;
      CountNext(v.entries, i);
      cnt := cnt[l := cnt[l] + 1];
    }
    assert v.entries[..|v.entries|] == v.entries;
    var run := 0;
    ShorterNone(v.entries, 0);
    for l := 0 to v.maxlen + 2
      invariant |off| == v.maxlen + 2
      invariant run == ShorterThan(v.entries, l)
      invariant forall k :: 0 <= k < l ==> off[k] == ShorterThan(v.entries, k)
    {
      off := off[l := run];
      run := run + cnt[l];
      ShorterStep(v.entries, l);
    }
    forall l | 0 <= l <= v.maxlen ensures off[l] + cnt[l] <= |v.entries| { ShorterStep(v.entries, l); }
    forall l, i | 0 <= l <= v.maxlen && 0 <= i < |v.entries|
      ensures v.entries[i].len == l <==> off[l] <= i < off[l] + cnt[l]
    {
      ShorterStep(v.entries, l);
      ShorterComeFirst(v.entries, l, i);
      ShorterComeFirst(v.entries, l + 1, i);
    }
  }

  lemma CountNone()
    ensures forall l :: OfLength([], l) == 0
  {}

  lemma CountNext(s: seq<Code>, i: nat)
    requires i < |s|
    ensures forall l :: OfLength(s[..i + 1], l) == OfLength(s[..i], l) + if s[i].len == l then 1 else 0
  {
    assert s[..i + 1][..i] == s[..i];
  }

  // --------------------------------------------------------------- search --

  /** The inner binary search: a row of length l with this code, if there is one. */
  method SearchLength(v: Vlc, off: seq<nat>, cnt: seq<nat>, l: nat, code: nat) returns (r: Option<nat>)
    requires Sorted(v.entries) && Brackets(v, off, cnt) && l <= v.maxlen
    ensures r.Some? ==> r.value < |v.entries| && v.entries[r.value].len == l && v.entries[r.value].code == code
    ensures r.None? ==> forall i :: 0 <= i < |v.entries| && v.entries[i].len == l ==> v.entries[i].code != code
  {
    var lo: int := off[l];
    var hi: int := lo + cnt[l] - 1;
    while lo <= hi
      invariant off[l] <= lo <= hi + 1 <= off[l] + cnt[l]
      invariant forall i :: off[l] <= i < lo ==> v.entries[i].code < code
      invariant forall i :: hi < i < off[l] + cnt[l] ==> code < v.entries[i].code
    {
      var mid := (lo + hi) / 2;
      assert forall i :: off[l] <= i < off[l] + cnt[l] ==> v.entries[i].len == l;
      assert forall i :: off[l] <= i < mid ==> Before(v.entries[i], v.entries[mid]);
      assert forall i :: mid < i < off[l] + cnt[l] ==> Before(v.entries[mid], v.entries[i]);
      if v.entries[mid].code == code {
        return Some(mid);
      }
      if v.entries[mid].code < code { lo := mid + 1; } else { hi := mid - 1; }
    }
    r := None;
  }

  /** The bit at position i of a stream that reads as zeros past its end. */
  function BitAt(s: seq<Bit>, i: nat): (b: Bit) {
    if i < |s| then s[i] else 0
  }

  /** n bits from position pos, zeros past the end. */
  function Show(s: seq<Bit>, pos: nat, n: nat): (t: seq<Bit>)
    ensures |t| == n && forall i :: 0 <= i < n ==> t[i] == BitAt(s, pos + i)
  {
    if n == 0 then [] else Show(s, pos, n - 1) + [BitAt(s, pos + n - 1)]
  }

  /** The next sixteen bits as a pattern. */
  function Peek(s: seq<Bit>, pos: nat): (p: nat)
    ensures p < 0x10000 && BitsOf(p, MAX_LEN) == Show(s, pos, MAX_LEN)
  {
    var t := Show(s, pos, MAX_LEN);
    ValueBound(t);
    Pow2Sixteen();
    BitsOfValue(t);
    Value(t)
  }

  lemma MatchesShown(c: Code, s: seq<Bit>, pos: nat)
    requires Fits(c)
    ensures Matches(c, Peek(s, pos)) <==> c.code == Value(Show(s, pos, c.len))
    ensures Matches(c, Peek(s, pos)) <==> Word(c) == Show(s, pos, c.len)
  {
    var t, u := Show(s, pos, MAX_LEN), Show(s, pos, c.len);
    assert t[..c.len] == u;
    assert Word(c) <= t <==> Word(c) == t[..c.len];
    ValueOfBits(c.code, c.len);
    BitsOfValue(u);
  }

  /** What the search answers: nothing at the end of the stream, otherwise the row whose word comes
      next, the stream read as if zeros followed. */
  function SearchAnswer(entries: seq<Code>, s: seq<Bit>, pos: nat): (r: Option<Hit>)
    requires AllFit(entries)
  {
    if pos >= |s| then None else HitOf(Find(entries, Peek(s, pos)))
  }

  /** One length: a row of this length that the stream shows, or none. */
  method SearchOne(v: Vlc, off: seq<nat>, cnt: seq<nat>, l: nat, code: nat, ghost s: seq<Bit>, ghost pos: nat)
      returns (r: Option<nat>)
    requires Sorted(v.entries) && Brackets(v, off, cnt) && AllFit(v.entries) && 1 <= l <= v.maxlen
    requires forall i :: 0 <= i < |v.entries| ==> v.minlen <= v.entries[i].len
    requires code == Value(Show(s, pos, l))
    ensures r.Some? ==>
      r.value < |v.entries| && v.entries[r.value].len == l && Matches(v.entries[r.value], Peek(s, pos))
    ensures r.None? ==>
      forall i :: 0 <= i < |v.entries| && v.entries[i].len == l ==> !Matches(v.entries[i], Peek(s, pos))
  {
    hide Sorted, Pow2, BitsOf, Matches, Peek, Word, Show, Value;
    r := None;
    if l >= v.minlen && cnt[l] != 0 {
      r := SearchLength(v, off, cnt, l, code);
    }
    forall i | 0 <= i < |v.entries| && v.entries[i].len == l
      ensures Matches(v.entries[i], Peek(s, pos)) <==> v.entries[i].code == code
    {
      MatchesShown(v.entries[i], s, pos);
    }
  }

  lemma ShowNext(s: seq<Bit>, pos: nat, l: nat)
    requires l > 0
    ensures Value(Show(s, pos, l)) == 2 * Value(Show(s, pos, l - 1)) + BitAt(s, pos + l - 1)
  {
    assert Show(s, pos, l)[..l - 1] == Show(s, pos, l - 1);
  }

  lemma ShowNone(s: seq<Bit>, pos: nat)
    ensures Value(Show(s, pos, 0)) == 0
  {}

  /** m4b_vlc: one bit at a time, a binary search per length. It finds exactly the row whose
      word comes next in the stream. */
  method Search(v: Vlc, off: seq<nat>, cnt: seq<nat>, s: seq<Bit>, pos: nat) returns (r: Option<Hit>)
    requires Sorted(v.entries) && Brackets(v, off, cnt) && AllFit(v.entries) && NoConflict(v.entries)
    requires forall i :: 0 <= i < |v.entries| ==> v.minlen <= v.entries[i].len <= v.maxlen
    ensures r == SearchAnswer(v.entries, s, pos)
  {
    hide Sorted, Pow2, BitsOf, NoConflict, Matches, Find, Peek, Word, Show, Value, BitAt;
    if pos >= |s| {
      return None;
    }
    ghost var p := Peek(s, pos);
    var code := 0;
    ShowNone(s, pos);
    for l := 1 to v.maxlen + 1
      invariant code == Value(Show(s, pos, l - 1))
      invariant forall i :: 0 <= i < |v.entries| && v.entries[i].len < l ==> !Matches(v.entries[i], p)
    {
      ShowNext(s, pos, l);
      code := 2 * code + BitAt(s, pos + l - 1);
      var k := SearchOne(v, off, cnt, l, code, s, pos);
      if k.Some? {
        OnlyMatch(v.entries, p, k.value);
        return Some(Hit(v.entries[k.value].sym, l));
      }
    }
    FindNone(v.entries, p);
    r := None;
  }

  lemma OnlyMatch(s: seq<Code>, p: nat, k: nat)
    requires AllFit(s) && NoConflict(s) && k < |s| && Matches(s[k], p)
    ensures Find(s, p) == Some(s[k])
  {
    forall j | k < j < |s| ensures !Matches(s[j], p) {
      if Matches(s[j], p) {
        MatchesComparable(s[k], s[j], p);
        ConflictIsComparable(s[k], s[j]);
      }
    }
    FindIsLast(s, p, k);
  }
}
