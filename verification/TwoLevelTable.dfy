/** tools/gen_mpeg12_tables.py: the two-level lookup table, how it is built from
    a code list with every collision checked, and how a pattern is looked up. */
module TwoLevelTable {
  import opened Bits
  import opened Outcomes
  import opened Codewords

  const VLC_BITS: nat := 9
  const N1: nat := 512
  const LOW: nat := 7

  /** (sym, len, sub): a leaf, a node (sub == 1: sym is a base, len a width), or
      no code (len == 0). */
  datatype Entry = Entry(sym: int, len: nat, sub: nat)

  type Slot = Option<Entry>

  // ---------------------------------------------------------------- shape --

  predicate Short(c: Code) { c.len <= VLC_BITS }

  function Pre(c: Code): (p: nat)
    requires Fits(c) && !Short(c)
    ensures p < N1
  {
    Pow2Add(VLC_BITS, c.len - VLC_BITS);
    DivRange(c.code, Pow2(c.len - VLC_BITS), Pow2(VLC_BITS));
    c.code / Pow2(c.len - VLC_BITS)
  }

  /** The part of a long codeword behind its first nine bits: the bits, and how many. */
  datatype Key = Key(rest: nat, extra: nat)

  function Suffix(c: Code): (k: Key)
    requires Fits(c) && !Short(c)
    ensures GoodKey(k)
  {
    Key(c.code % Pow2(c.len - VLC_BITS), c.len - VLC_BITS)
  }

  predicate GoodKey(k: Key) {
    1 <= k.extra <= LOW && k.rest < Pow2(k.extra)
  }

  function KeyCode(k: Key): (c: Code)
    requires GoodKey(k)
    ensures Fits(c)
  {
    Code(k.rest, k.extra, 0)
  }

  lemma LongWord(c: Code)
    requires Fits(c) && !Short(c)
    ensures Word(c) == BitsOf(Pre(c), VLC_BITS) + Word(KeyCode(Suffix(c)))
  {
    var m := Pow2(c.len - VLC_BITS);
    Pow2Add(VLC_BITS, c.len - VLC_BITS);
    var q, r := DivParts(c.code, m, Pow2(VLC_BITS));
    BitsOfSplit(q, r, VLC_BITS, c.len - VLC_BITS);
  }

  /** Two rows that a correct table cannot hold together. Equal long rows are the
      exception: the second assignment to the dictionary overwrites the first. */
  predicate Clash(c: Code, d: Code)
    requires Fits(c) && Fits(d)
  {
    Comparable(c, d) && !(SameWord(c, d) && !Short(c))
  }

  ghost predicate Acceptable(codes: seq<Code>) {
    AllFit(codes) && forall i, j :: 0 <= i < j < |codes| ==> !Clash(codes[i], codes[j])
  }

  // --------------------------------------------------------------- ranges --

  /** Claims slots lo .. lo + n - 1 for e, refusing when one is already taken. */
  method ClaimRange(t: seq<Slot>, lo: nat, n: nat, e: Entry) returns (ok: bool, u: seq<Slot>)
    requires lo + n <= |t|
    ensures ok <==> forall x :: lo <= x < lo + n ==> t[x].None?
    ensures |u| == |t|
    ensures ok ==> forall x :: 0 <= x < |t| ==> u[x] == if lo <= x < lo + n then Some(e) else t[x]
  {
    u := t;
    for k := 0 to n
      invariant |u| == |t|
      invariant forall x :: lo <= x < lo + k ==> t[x].None?
      invariant forall x :: 0 <= x < |t| ==> u[x] == if lo <= x < lo + k then Some(e) else t[x]
    {
      if u[lo + k].Some? {
        return false, u;
      }
      u := u[lo + k := Some(e)];
    }
    ok := true;
  }

  // ---------------------------------------------------------- first level --

  /** Every short row among the first n owns exactly its interval of the first level. */
  ghost predicate FirstLevel(ent: seq<Slot>, codes: seq<Code>, n: nat)
    requires AllFit(codes) && n <= |codes|
  {
    && |ent| == N1
    && (forall x, k :: 0 <= x < N1 && 0 <= k < n && Short(codes[k]) && In(codes[k], VLC_BITS, x) ==>
          ent[x] == Some(Entry(codes[k].sym, codes[k].len, 0)))
    && (forall x :: 0 <= x < N1 && ent[x].Some? ==>
          exists k :: 0 <= k < n && Short(codes[k]) && In(codes[k], VLC_BITS, x))
    && (forall i, j :: 0 <= i < j < n && Short(codes[i]) && Short(codes[j]) ==> !Clash(codes[i], codes[j]))
  }

  lemma FreeMeansNoClash(ent: seq<Slot>, codes: seq<Code>, n: nat)
    requires AllFit(codes) && n < |codes| && Short(codes[n]) && FirstLevel(ent, codes, n)
    requires forall x :: 0 <= x < N1 && In(codes[n], VLC_BITS, x) ==> ent[x].None?
    ensures forall i :: 0 <= i < n && Short(codes[i]) ==> !Clash(codes[i], codes[n])
  {
    forall i | 0 <= i < n && Short(codes[i]) && Comparable(codes[i], codes[n]) ensures false {
      var x := ComparableMeet(codes[i], codes[n], VLC_BITS);
    }
  }

  /** One short row: claims its interval, or refuses because an earlier short row clashes. */
  method PlaceShort(ent: seq<Slot>, codes: seq<Code>, n: nat) returns (ok: bool, next: seq<Slot>)
    requires AllFit(codes) && n < |codes| && Short(codes[n]) && FirstLevel(ent, codes, n)
    ensures ok <==> forall i :: 0 <= i < n && Short(codes[i]) ==> !Clash(codes[i], codes[n])
    ensures ok ==> FirstLevel(next, codes, n + 1)
  {
    hide Comparable, Word;
    var c := codes[n];
    var lo := c.code * Pow2(VLC_BITS - c.len);
    var size := Pow2(VLC_BITS - c.len);
    ghost var _, _ := InRange(c, VLC_BITS);
    ok, next := ClaimRange(ent, lo, size, Entry(c.sym, c.len, 0));
    if ok {
      FreeMeansNoClash(ent, codes, n);
      PlacedFirstLevel(ent, next, codes, n);
    } else {
      var x :| lo <= x < lo + size && ent[x].Some?;
      var i :| 0 <= i < n && Short(codes[i]) && In(codes[i], VLC_BITS, x);
      InMeans(codes[i], c, VLC_BITS, x);
    }
  }

  lemma PlacedFirstLevel(ent: seq<Slot>, next: seq<Slot>, codes: seq<Code>, n: nat)
    requires AllFit(codes) && n < |codes| && Short(codes[n]) && FirstLevel(ent, codes, n)
    requires forall i :: 0 <= i < n && Short(codes[i]) ==> !Clash(codes[i], codes[n])
    requires |next| == N1
    requires forall x :: 0 <= x < N1 ==>
      next[x] == if In(codes[n], VLC_BITS, x) then Some(Entry(codes[n].sym, codes[n].len, 0)) else ent[x]
    ensures FirstLevel(next, codes, n + 1)
  {
    forall x, k | 0 <= x < N1 && 0 <= k < n + 1 && Short(codes[k]) && In(codes[k], VLC_BITS, x)
      ensures next[x] == Some(Entry(codes[k].sym, codes[k].len, 0))
    {
      if k < n && In(codes[n], VLC_BITS, x) {
        InMeans(codes[k], codes[n], VLC_BITS, x);
      }
    }
  }

  // --------------------------------------------------------- second level --

  /** subs[pre]: the widest suffix, the suffixes in insertion order, and their symbols. */
  datatype Sub = Sub(width: nat, keys: seq<Key>, syms: map<Key, int>)

  ghost predicate Distinct(keys: seq<Key>) {
    forall a, b :: 0 <= a < b < |keys| ==> keys[a] != keys[b]
  }

  ghost predicate SubOk(s: Sub) {
    && 1 <= s.width <= LOW
    && Distinct(s.keys)
    && (forall k :: k in s.syms <==> k in s.keys)
    && (forall k :: k in s.keys ==> GoodKey(k) && k.extra <= s.width)
  }

  predicate LongAt(c: Code, pre: nat, key: Key)
    requires Fits(c)
  {
    !Short(c) && Pre(c) == pre && Suffix(c) == key
  }

  ghost predicate SubsOk(subs: map<nat, Sub>) {
    forall p :: p in subs ==> SubOk(subs[p]) && p < N1 && |subs[p].keys| > 0
  }

  ghost predicate HoldsRows(subs: map<nat, Sub>, codes: seq<Code>, n: nat)
    requires AllFit(codes) && n <= |codes|
  {
    forall k :: 0 <= k < n && !Short(codes[k]) ==>
      Pre(codes[k]) in subs && Suffix(codes[k]) in subs[Pre(codes[k])].syms
  }

  ghost predicate OnlyRows(subs: map<nat, Sub>, codes: seq<Code>, n: nat)
    requires AllFit(codes) && n <= |codes|
  {
    forall p, key :: p in subs && key in subs[p].syms ==> LastRow(subs[p].syms[key], codes, n, p, key)
  }

  /** subs holds exactly the long rows among the first n, the last row winning a key. */
  ghost predicate Collected(subs: map<nat, Sub>, codes: seq<Code>, n: nat)
    requires AllFit(codes) && n <= |codes|
  {
    SubsOk(subs) && HoldsRows(subs, codes, n) && OnlyRows(subs, codes, n)
  }

  ghost predicate LastRow(sym: int, codes: seq<Code>, n: nat, pre: nat, key: Key)
    requires AllFit(codes) && n <= |codes|
  {
    exists k :: 0 <= k < n && LongAt(codes[k], pre, key) && codes[k].sym == sym
             && forall j :: k < j < n ==> !LongAt(codes[j], pre, key)
  }

  /** Widen, assign. */
  function AddKey(s: Sub, key: Key, sym: int): (next: Sub)
    ensures next.syms == s.syms[key := sym]
  {
    var width := if s.width < key.extra then key.extra else s.width;
    var keys := if key in s.syms then s.keys else s.keys + [key];
    Sub(width, keys, s.syms[key := sym])
  }

  /** setdefault. */
  function SubOf(subs: map<nat, Sub>, pre: nat): (s: Sub)
    ensures s.syms == if pre in subs then subs[pre].syms else map[]
  {
    if pre in subs then subs[pre] else Sub(0, [], map[])
  }

  /** The long branch of the loop: setdefault, widen, assign. */
  function AddLong(subs: map<nat, Sub>, c: Code): (next: map<nat, Sub>)
    requires Fits(c) && !Short(c)
  {
    subs[Pre(c) := AddKey(SubOf(subs, Pre(c)), Suffix(c), c.sym)]
  }

  /** How one assignment changes the dictionary of dictionaries. */
  ghost predicate Assigned(subs: map<nat, Sub>, next: map<nat, Sub>, pre: nat, key: Key, sym: int) {
    && pre in next
    && next[pre].syms == (if pre in subs then subs[pre].syms else map[])[key := sym]
    && next.Keys == subs.Keys + {pre}
    && forall p :: p in subs && p != pre ==> next[p] == subs[p]
  }

  lemma AddLongSubsOk(subs: map<nat, Sub>, c: Code)
    requires Fits(c) && !Short(c) && SubsOk(subs)
    ensures SubsOk(AddLong(subs, c))
    ensures Assigned(subs, AddLong(subs, c), Pre(c), Suffix(c), c.sym)
  {
    hide Pre, Suffix, SubOk, GoodKey, AddKey;
    AddKeyOk(SubOf(subs, Pre(c)), Suffix(c), c.sym);
  }

  lemma AddKeyOk(s: Sub, key: Key, sym: int)
    requires GoodKey(key) && (SubOk(s) || s == Sub(0, [], map[]))
    ensures var next := AddKey(s, key, sym); SubOk(next) && |next.keys| > 0
  {}

  lemma AddLongHolds(subs: map<nat, Sub>, next: map<nat, Sub>, codes: seq<Code>, n: nat)
    requires AllFit(codes) && n < |codes| && !Short(codes[n]) && HoldsRows(subs, codes, n)
    requires Assigned(subs, next, Pre(codes[n]), Suffix(codes[n]), codes[n].sym)
    ensures HoldsRows(next, codes, n + 1)
  {}

  lemma AddLongOnly(subs: map<nat, Sub>, next: map<nat, Sub>, codes: seq<Code>, n: nat)
    requires AllFit(codes) && n < |codes| && !Short(codes[n]) && OnlyRows(subs, codes, n)
    requires Assigned(subs, next, Pre(codes[n]), Suffix(codes[n]), codes[n].sym)
    ensures OnlyRows(next, codes, n + 1)
  {
    var pre, key := Pre(codes[n]), Suffix(codes[n]);
    forall p, k | p in next && k in next[p].syms ensures LastRow(next[p].syms[k], codes, n + 1, p, k) {
      if p == pre && k == key {
        assert LongAt(codes[n], p, k);
      } else {
        assert next[p].syms[k] == subs[p].syms[k];
        KeepRow(subs[p].syms[k], codes, n, p, k);
      }
    }
  }

  lemma KeepRow(sym: int, codes: seq<Code>, n: nat, pre: nat, key: Key)
    requires AllFit(codes) && n < |codes| && LastRow(sym, codes, n, pre, key)
    requires !LongAt(codes[n], pre, key)
    ensures LastRow(sym, codes, n + 1, pre, key)
  {
    var k :| 0 <= k < n && LongAt(codes[k], pre, key) && codes[k].sym == sym
             && forall j :: k < j < n ==> !LongAt(codes[j], pre, key);
    assert forall j :: k < j < n + 1 ==> !LongAt(codes[j], pre, key);
  }

  lemma ShortKeepsCollected(subs: map<nat, Sub>, codes: seq<Code>, n: nat)
    requires AllFit(codes) && n < |codes| && Short(codes[n]) && Collected(subs, codes, n)
    ensures Collected(subs, codes, n + 1)
  {
    forall p, k | p in subs && k in subs[p].syms ensures LastRow(subs[p].syms[k], codes, n + 1, p, k) {
      KeepRow(subs[p].syms[k], codes, n, p, k);
    }
  }

  /** Suffixes of one subtable that cannot both be placed. */
  predicate KeyClash(a: Key, b: Key)
    requires GoodKey(a) && GoodKey(b)
  {
    Comparable(KeyCode(a), KeyCode(b))
  }

  /** The first n suffixes of s own exactly their intervals of the block. */
  ghost predicate BlockOk(block: seq<Slot>, s: Sub, n: nat)
    requires SubOk(s) && n <= |s.keys|
  {
    && |block| == Pow2(s.width)
    && (forall y, a :: 0 <= y < |block| && 0 <= a < n && In(KeyCode(s.keys[a]), s.width, y) ==>
          block[y] == Some(Entry(s.syms[s.keys[a]], s.keys[a].extra, 0)))
    && (forall y :: 0 <= y < |block| && block[y].Some? ==>
          exists a :: 0 <= a < n && In(KeyCode(s.keys[a]), s.width, y))
    && (forall a, b :: 0 <= a < b < n ==> !KeyClash(s.keys[a], s.keys[b]))
  }

  lemma FreeMeansNoKeyClash(block: seq<Slot>, s: Sub, n: nat)
    requires SubOk(s) && n < |s.keys| && BlockOk(block, s, n)
    requires forall y :: 0 <= y < |block| && In(KeyCode(s.keys[n]), s.width, y) ==> block[y].None?
    ensures forall a :: 0 <= a < n ==> !KeyClash(s.keys[a], s.keys[n])
  {
    forall a | 0 <= a < n && KeyClash(s.keys[a], s.keys[n]) ensures false {
      var y := ComparableMeet(KeyCode(s.keys[a]), KeyCode(s.keys[n]), s.width);
    }
  }

  method PlaceKey(block: seq<Slot>, s: Sub, n: nat) returns (ok: bool, next: seq<Slot>)
    requires SubOk(s) && n < |s.keys| && BlockOk(block, s, n)
    ensures ok <==> forall a :: 0 <= a < n ==> !KeyClash(s.keys[a], s.keys[n])
    ensures ok ==> BlockOk(next, s, n + 1)
  {
    hide Pow2, Comparable, Word;
    var key := s.keys[n];
    var c := KeyCode(key);
    var size := Pow2(s.width - key.extra);
    var off := key.rest * size;
    ghost var _, _ := InRange(c, s.width);
    ok, next := ClaimRange(block, off, size, Entry(s.syms[key], key.extra, 0));
    if ok {
      FreeMeansNoKeyClash(block, s, n);
      PlacedBlock(block, next, s, n);
    } else {
      var y :| off <= y < off + size && block[y].Some?;
      var a :| 0 <= a < n && In(KeyCode(s.keys[a]), s.width, y);
      InMeans(KeyCode(s.keys[a]), c, s.width, y);
    }
  }

  lemma PlacedBlock(block: seq<Slot>, next: seq<Slot>, s: Sub, n: nat)
    requires SubOk(s) && n < |s.keys| && BlockOk(block, s, n)
    requires forall a :: 0 <= a < n ==> !KeyClash(s.keys[a], s.keys[n])
    requires |next| == |block|
    requires forall y :: 0 <= y < |block| ==>
      next[y] == if In(KeyCode(s.keys[n]), s.width, y)
                 then Some(Entry(s.syms[s.keys[n]], s.keys[n].extra, 0)) else block[y]
    ensures BlockOk(next, s, n + 1)
  {
    forall y, a | 0 <= y < |block| && 0 <= a < n + 1 && In(KeyCode(s.keys[a]), s.width, y)
      ensures next[y] == Some(Entry(s.syms[s.keys[a]], s.keys[a].extra, 0))
    {
      if a < n && In(KeyCode(s.keys[n]), s.width, y) {
        InMeans(KeyCode(s.keys[a]), KeyCode(s.keys[n]), s.width, y);
      }
    }
  }

  ghost predicate KeysCompatible(s: Sub)
    requires SubOk(s)
  {
    forall a, b :: 0 <= a < b < |s.keys| ==> !KeyClash(s.keys[a], s.keys[b])
  }

  method FillBlock(s: Sub) returns (ok: bool, block: seq<Slot>)
    requires SubOk(s)
    ensures ok <==> KeysCompatible(s)
    ensures ok ==> BlockOk(block, s, |s.keys|)
  {
    block := seq(Pow2(s.width), _ => None);
    for n := 0 to |s.keys|
      invariant BlockOk(block, s, n)
    {
      ok, block := PlaceKey(block, s, n);
      if !ok {
        return;
      }
    }
    ok := true;
  }

  /** Slot x has become the node of subtable s, whose block lies behind the first level. */
  ghost predicate IsNode(entries: seq<Slot>, x: nat, s: Sub)
    requires SubOk(s)
  {
    && x < N1 <= |entries| && entries[x].Some?
    && var e := entries[x].value;
    && e.sub == 1 && e.len == s.width && N1 <= e.sym && e.sym + Pow2(s.width) <= |entries|
    && BlockOk(entries[e.sym..e.sym + Pow2(s.width)], s, |s.keys|)
  }

  /** Prefixes below n have been turned into nodes; the rest of the first level is untouched. */
  ghost predicate SecondLevel(entries: seq<Slot>, ent: seq<Slot>, subs: map<nat, Sub>, n: nat)
    requires SubsOk(subs)
  {
    && |ent| == N1 <= |entries|
    && (forall x :: 0 <= x < n && x < N1 && x in subs ==>
          ent[x].None? && KeysCompatible(subs[x]) && IsNode(entries, x, subs[x]))
    && (forall x :: 0 <= x < N1 && !(x < n && x in subs) ==> entries[x] == ent[x])
  }

  lemma AppendNode(entries: seq<Slot>, ent: seq<Slot>, subs: map<nat, Sub>, n: nat, block: seq<Slot>)
    requires SubsOk(subs) && SecondLevel(entries, ent, subs, n) && n in subs
    requires ent[n].None? && KeysCompatible(subs[n]) && BlockOk(block, subs[n], |subs[n].keys|)
    requires |block| == Pow2(subs[n].width)
    ensures var next := entries[n := Some(Entry(|entries|, subs[n].width, 1))] + block;
            SecondLevel(next, ent, subs, n + 1)
  {
    hide BlockOk, KeysCompatible, SubOk, Pow2;
    var next := entries[n := Some(Entry(|entries|, subs[n].width, 1))] + block;
    assert next[|entries|..|entries| + Pow2(subs[n].width)] == block;
    forall x | 0 <= x < n && x in subs ensures IsNode(next, x, subs[x]) {
      assert IsNode(entries, x, subs[x]);
      var b, m := entries[x].value.sym, Pow2(subs[x].width);
      assert next[b..b + m] == entries[b..b + m];
    }
  }

  /** The second phase: one node and one block per collected prefix, in increasing order. */
  method AppendBlocks(ent: seq<Slot>, subs: map<nat, Sub>) returns (ok: bool, entries: seq<Slot>)
    requires SubsOk(subs) && |ent| == N1
    ensures ok <==> forall x :: x in subs ==> ent[x].None? && KeysCompatible(subs[x])
    ensures ok ==> SecondLevel(entries, ent, subs, N1)
  {
    entries := ent;
    for pre := 0 to N1
      invariant SecondLevel(entries, ent, subs, pre)
    {
      if pre in subs {
        if entries[pre].Some? {
          return false, entries;
        }
        var block;
        ok, block := FillBlock(subs[pre]);
        if !ok {
          return;
        }
        AppendNode(entries, ent, subs, pre, block);
        entries := entries[pre := Some(Entry(|entries|, subs[pre].width, 1))] + block;
      }
    }
    ok := true;
  }

  // --------------------------------------------------------------- lookup --

  /** Every index a lookup can form is inside the table. */
  ghost predicate TableOk(t: seq<Entry>) {
    && N1 <= |t|
    && forall x :: 0 <= x < N1 && t[x].sub != 0 ==>
         t[x].len <= LOW && 0 <= t[x].sym && t[x].sym + Pow2(t[x].len) <= |t|
  }

  /** tools/gen_mpeg12_tables.py decodes: the symbol, or None when the pattern names no code. */
  function Decodes(t: seq<Entry>, pattern: nat, width: nat): (r: Option<int>)
    requires TableOk(t) && width >= MAX_LEN
  {
    var e := t[pattern / Pow2(width - VLC_BITS) % N1];
    var f := if e.sub != 0 then t[e.sym + pattern / Pow2(width - VLC_BITS - e.len) % Pow2(e.len)] else e;
    if f.len == 0 then None else Some(f.sym)
  }

  /** The symbol together with the number of bits the lookup consumes. */
  datatype Hit = Hit(sym: int, used: nat)

  function Lookup(t: seq<Entry>, p: nat): (r: Option<Hit>)
    requires TableOk(t)
  {
    var e := t[p / Pow2(LOW) % N1];
    if e.sub != 0 then
      var f := t[e.sym + p / Pow2(LOW - e.len) % Pow2(e.len)];
      if f.len == 0 then None else Some(Hit(f.sym, VLC_BITS + f.len))
    else if e.len == 0 then None
    else Some(Hit(e.sym, e.len))
  }

  function HitOf(c: Option<Code>): (h: Option<Hit>) {
    if c.Some? && c.value.len >= 0 then Some(Hit(c.value.sym, c.value.len)) else None
  }

  function Flatten(entries: seq<Slot>): (t: seq<Entry>)
    ensures |t| == |entries|
    ensures forall i :: 0 <= i < |t| ==> t[i] == if entries[i].None? then Entry(0, 0, 0) else entries[i].value
  {
    seq(|entries|, i requires 0 <= i < |entries| => if entries[i].None? then Entry(0, 0, 0) else entries[i].value)
  }
}
