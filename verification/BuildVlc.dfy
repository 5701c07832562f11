/** tools/gen_mpeg12_tables.py build_vlc: exactly which code lists are accepted,
    and what the resulting table answers on every 16-bit pattern. */
module BuildVlc {
  import opened Bits
  import opened Outcomes
  import opened Codewords
  import opened TwoLevelTable

  // ------------------------------------------------- matching, level by level --

  /** p is its nine-bit head followed by its seven-bit rest. */
  lemma SplitPattern(p: nat, x: nat, z: nat)
    requires p < 0x10000 && x == p / 128 && z == p % 128
    ensures x < N1 && BitsOf(p, MAX_LEN) == BitsOf(x, VLC_BITS) + BitsOf(z, LOW)
  {
    assert Pow2(7) == 128;
    BitsOfSplit(x, z, VLC_BITS, LOW);
  }

  lemma ShortMatches(c: Code, p: nat)
    requires Fits(c) && Short(c) && p < 0x10000
    ensures Matches(c, p) <==> In(c, VLC_BITS, p / 128)
  {
    var x, z := p / 128, p % 128;
    SplitPattern(p, x, z);
    assert Pow2(VLC_BITS) == N1;
    InIsPrefix(c, VLC_BITS, x);
    var s := BitsOf(p, MAX_LEN);
    assert s[..c.len] == BitsOf(x, VLC_BITS)[..c.len];
    assert Word(c) <= s <==> Word(c) == s[..c.len];
    assert Word(c) <= BitsOf(x, VLC_BITS) <==> Word(c) == BitsOf(x, VLC_BITS)[..c.len];
  }

  lemma LongMatches(c: Code, p: nat)
    requires Fits(c) && !Short(c) && p < 0x10000
    ensures Matches(c, p) <==> Pre(c) == p / 128 && Word(KeyCode(Suffix(c))) <= BitsOf(p % 128, LOW)
  {
    var x, z := p / 128, p % 128;
    SplitPattern(p, x, z);
    LongWord(c);
    var tail := Word(KeyCode(Suffix(c)));
    PrefixOfConcat(BitsOf(Pre(c), VLC_BITS), tail, BitsOf(x, VLC_BITS), BitsOf(z, LOW));
    assert Pow2(VLC_BITS) == N1;
    ValueOfBits(x, VLC_BITS);
    ValueOfBits(Pre(c), VLC_BITS);
  }

  lemma PrefixOfConcat(a: seq<Bit>, b: seq<Bit>, s: seq<Bit>, t: seq<Bit>)
    requires |a| == |s|
    ensures a + b <= s + t <==> a == s && b <= t
  {
    var u := a + b;
    var v := s + t;
    if u <= v {
      assert a == u[..|a|] == v[..|a|] == s;
      assert |b| <= |t|;
      assert b == u[|a|..] == v[|a|..|u|] == t[..|b|];
    }
  }

  lemma KeyMatches(k: Key, w: nat, z: nat, y: nat, r: nat)
    requires GoodKey(k) && k.extra <= w <= LOW
    requires z == y * Pow2(LOW - w) + r && r < Pow2(LOW - w) && y < Pow2(w)
    ensures Word(KeyCode(k)) <= BitsOf(z, LOW) <==> In(KeyCode(k), w, y)
  {
    BitsOfSplit(y, r, w, LOW - w);
    InIsPrefix(KeyCode(k), w, y);
    var s := BitsOf(z, LOW);
    assert s[..k.extra] == BitsOf(y, w)[..k.extra];
    assert Word(KeyCode(k)) <= s <==> Word(KeyCode(k)) == s[..k.extra];
  }

  lemma IndexIsSuffix(p: nat, w: nat)
    requires p < 0x10000 && w <= LOW
    ensures p / Pow2(LOW - w) % Pow2(w) == (p % 128) / Pow2(LOW - w)
  {
    var m, n := Pow2(LOW - w), Pow2(w);
    Pow2Add(w, LOW - w);
    assert n * m == 128 by { assert Pow2(7) == 128; }
    DivSplit(p, p / 128, p % 128, m, n);
  }

  lemma DivSplit(p: nat, x: nat, z: nat, m: nat, n: nat)
    requires m > 0 && n > 0 && z < n * m && p == x * (n * m) + z
    ensures p / m % n == z / m
  {
    var q, r := DivParts(z, m, n);
    assert p == m * (x * n + q) + r by { assert x * (n * m) == m * (x * n); }
    DivModUnique(p, m, x * n + q, r);
    DivModUnique(x * n + q, n, x, q);
  }

  // ------------------------------------------------------ what a lookup finds --

  ghost predicate Finished(entries: seq<Slot>, ent: seq<Slot>, subs: map<nat, Sub>, codes: seq<Code>) {
    && Acceptable(codes)
    && FirstLevel(ent, codes, |codes|)
    && Collected(subs, codes, |codes|)
    && SecondLevel(entries, ent, subs, N1)
  }

  lemma FlattenOk(entries: seq<Slot>, ent: seq<Slot>, subs: map<nat, Sub>, codes: seq<Code>)
    requires Finished(entries, ent, subs, codes)
    ensures TableOk(Flatten(entries))
  {
    var t := Flatten(entries);
    forall x | 0 <= x < N1 && t[x].sub != 0
      ensures t[x].len <= LOW && 0 <= t[x].sym && t[x].sym + Pow2(t[x].len) <= |t|
    {
      if x in subs {
        assert IsNode(entries, x, subs[x]);
      }
    }
  }

  /** A row that matches p and cannot be outlived by a later match is the one Find returns. */
  lemma ShortWins(codes: seq<Code>, p: nat, k: nat)
    requires Acceptable(codes) && k < |codes| && Short(codes[k]) && Matches(codes[k], p)
    ensures Find(codes, p) == Some(codes[k])
  {
    forall j | k < j < |codes| ensures !Matches(codes[j], p) {
      if Matches(codes[j], p) { MatchesComparable(codes[k], codes[j], p); }
    }
    FindIsLast(codes, p, k);
  }

  lemma LongWins(codes: seq<Code>, p: nat, k: nat)
    requires Acceptable(codes) && k < |codes| && !Short(codes[k]) && Matches(codes[k], p)
    requires forall j :: k < j < |codes| ==> !LongAt(codes[j], Pre(codes[k]), Suffix(codes[k]))
    ensures Find(codes, p) == Some(codes[k])
  {
    forall j | k < j < |codes| ensures !Matches(codes[j], p) {
      if Matches(codes[j], p) {
        MatchesComparable(codes[k], codes[j], p);
      }
    }
    FindIsLast(codes, p, k);
  }

  lemma LookupLeaf(entries: seq<Slot>, ent: seq<Slot>, subs: map<nat, Sub>, codes: seq<Code>, p: nat)
    requires Finished(entries, ent, subs, codes) && p < 0x10000 && p / 128 !in subs
    requires TableOk(Flatten(entries))
    ensures Lookup(Flatten(entries), p) == HitOf(Find(codes, p))
  {
    var x := p / 128;
    assert Pow2(7) == 128 && x % N1 == x;
    assert entries[x] == ent[x];
    if ent[x].Some? {
      var k :| 0 <= k < |codes| && Short(codes[k]) && In(codes[k], VLC_BITS, x);
      ShortMatches(codes[k], p);
      ShortWins(codes, p, k);
    } else {
      forall k | 0 <= k < |codes| ensures !Matches(codes[k], p) {
        if Short(codes[k]) { ShortMatches(codes[k], p); } else { LongMatches(codes[k], p); }
      }
      FindNone(codes, p);
    }
  }

  /** A lookup that reaches a node reads the slot named by the next bits. */
  lemma NodeStep(t: seq<Entry>, p: nat, base: nat, w: nat) returns (y: nat, r: nat)
    requires TableOk(t) && p < 0x10000 && w <= LOW && t[p / 128] == Entry(base, w, 1)
    ensures p % 128 == y * Pow2(LOW - w) + r && r < Pow2(LOW - w) && y < Pow2(w) && base + y < |t|
    ensures Lookup(t, p)
            == if t[base + y].len == 0 then None else Some(Hit(t[base + y].sym, VLC_BITS + t[base + y].len))
  {
    assert Pow2(7) == 128 && p / 128 % N1 == p / 128;
    Pow2Add(w, LOW - w);
    y, r := DivParts(p % 128, Pow2(LOW - w), Pow2(w));
    IndexIsSuffix(p, w);
  }

  /** A collected prefix leads to a node over its subtable. */
  lemma NodeAt(entries: seq<Slot>, ent: seq<Slot>, subs: map<nat, Sub>, codes: seq<Code>, x: nat) returns (base: nat)
    requires Finished(entries, ent, subs, codes) && x in subs
    ensures x < N1 && SubOk(subs[x]) && ent[x].None?
    ensures base + Pow2(subs[x].width) <= |entries|
    ensures Flatten(entries)[x] == Entry(base, subs[x].width, 1)
    ensures BlockOk(entries[base..base + Pow2(subs[x].width)], subs[x], |subs[x].keys|)
  {
    hide BlockOk, SubOk, FirstLevel, Acceptable, Pow2, HoldsRows, OnlyRows, KeysCompatible;
    assert IsNode(entries, x, subs[x]);
    base := entries[x].value.sym;
  }

  lemma LookupNode(entries: seq<Slot>, ent: seq<Slot>, subs: map<nat, Sub>, codes: seq<Code>, p: nat)
    requires Finished(entries, ent, subs, codes) && p < 0x10000 && p / 128 in subs
    requires TableOk(Flatten(entries))
    ensures Lookup(Flatten(entries), p) == HitOf(Find(codes, p))
  {
    hide Pow2, BlockOk, Acceptable, FirstLevel, Collected, SecondLevel, Lookup, Find, TableOk;
    var x, z := p / 128, p % 128;
    var s := subs[x];
    var base := NodeAt(entries, ent, subs, codes, x);
    var y, r := NodeStep(Flatten(entries), p, base, s.width);
    var block := entries[base..base + Pow2(s.width)];
    SlotAnswer(subs, codes, ent, p, x, z, y, r, block);
    assert block[y] == entries[base + y];
  }

  lemma SlotAnswer(subs: map<nat, Sub>, codes: seq<Code>, ent: seq<Slot>, p: nat, x: nat, z: nat, y: nat, r: nat,
      block: seq<Slot>)
    requires Acceptable(codes) && Collected(subs, codes, |codes|) && FirstLevel(ent, codes, |codes|)
    requires p < 0x10000 && x == p / 128 && z == p % 128 && x in subs && ent[x].None?
    requires SubOk(subs[x]) && BlockOk(block, subs[x], |subs[x].keys|)
    requires z == y * Pow2(LOW - subs[x].width) + r && r < Pow2(LOW - subs[x].width) && y < Pow2(subs[x].width)
    ensures y < |block|
    ensures block[y].None? ==> Find(codes, p) == None
    ensures block[y].Some? ==>
      var e := block[y].value;
      e.sub == 0 && e.len > 0 && HitOf(Find(codes, p)) == Some(Hit(e.sym, VLC_BITS + e.len))
  {
    hide Pow2, BitsOf, Word, In, Acceptable, FirstLevel, HoldsRows, OnlyRows, Find, HitOf;
    var s := subs[x];
    forall key | key in s.keys
      ensures Word(KeyCode(key)) <= BitsOf(z, LOW) <==> In(KeyCode(key), s.width, y)
    {
      KeyMatches(key, s.width, z, y, r);
    }
    BlockAnswer(ent, subs, codes, p, x, z, y, block);
  }

  /** What slot y of subtable x says about p. */
  lemma BlockAnswer(ent: seq<Slot>, subs: map<nat, Sub>, codes: seq<Code>, p: nat, x: nat, z: nat, y: nat,
      block: seq<Slot>)
    requires Acceptable(codes) && Collected(subs, codes, |codes|) && FirstLevel(ent, codes, |codes|)
    requires p < 0x10000 && x == p / 128 && z == p % 128 && x in subs && ent[x].None?
    requires BlockOk(block, subs[x], |subs[x].keys|) && y < |block|
    requires forall key :: key in subs[x].keys ==>
      (Word(KeyCode(key)) <= BitsOf(z, LOW) <==> In(KeyCode(key), subs[x].width, y))
    ensures block[y].None? ==> Find(codes, p) == None
    ensures block[y].Some? ==>
      var e := block[y].value;
      e.sub == 0 && e.len > 0 && HitOf(Find(codes, p)) == Some(Hit(e.sym, VLC_BITS + e.len))
  {
    hide Pow2, BitsOf, Word, In, Acceptable, FirstLevel, HoldsRows, OnlyRows, Find, HitOf;
    var s := subs[x];
    if block[y].Some? {
      var a :| 0 <= a < |s.keys| && In(KeyCode(s.keys[a]), s.width, y);
      NodeHit(subs, codes, p, x, z, s.keys[a]);
    } else {
      forall key | key in s.keys ensures !(Word(KeyCode(key)) <= BitsOf(z, LOW)) {
        var a :| 0 <= a < |s.keys| && s.keys[a] == key;
      }
      NodeMiss(ent, subs, codes, p, x, z);
    }
  }

  lemma NodeHit(subs: map<nat, Sub>, codes: seq<Code>, p: nat, x: nat, z: nat, key: Key)
    requires Acceptable(codes) && Collected(subs, codes, |codes|)
    requires p < 0x10000 && x == p / 128 && z == p % 128 && x in subs
    requires key in subs[x].keys && Word(KeyCode(key)) <= BitsOf(z, LOW)
    ensures HitOf(Find(codes, p)) == Some(Hit(subs[x].syms[key], VLC_BITS + key.extra))
  {
    assert LastRow(subs[x].syms[key], codes, |codes|, x, key);
    var k :| 0 <= k < |codes| && LongAt(codes[k], x, key) && codes[k].sym == subs[x].syms[key]
             && forall j :: k < j < |codes| ==> !LongAt(codes[j], x, key);
    LongMatches(codes[k], p);
    LongWins(codes, p, k);
  }

  lemma NodeMiss(ent: seq<Slot>, subs: map<nat, Sub>, codes: seq<Code>, p: nat, x: nat, z: nat)
    requires Acceptable(codes) && Collected(subs, codes, |codes|) && FirstLevel(ent, codes, |codes|)
    requires p < 0x10000 && x == p / 128 && z == p % 128 && x in subs && ent[x].None?
    requires forall key :: key in subs[x].keys ==> !(Word(KeyCode(key)) <= BitsOf(z, LOW))
    ensures Find(codes, p) == None
  {
    forall k | 0 <= k < |codes| ensures !Matches(codes[k], p) {
      if Short(codes[k]) { ShortMatches(codes[k], p); } else { LongMatches(codes[k], p); }
    }
    FindNone(codes, p);
  }

  lemma LookupCorrect(entries: seq<Slot>, ent: seq<Slot>, subs: map<nat, Sub>, codes: seq<Code>)
    requires Finished(entries, ent, subs, codes)
    ensures TableOk(Flatten(entries))
    ensures forall p :: 0 <= p < 0x10000 ==> Lookup(Flatten(entries), p) == HitOf(Find(codes, p))
  {
    FlattenOk(entries, ent, subs, codes);
    forall p | 0 <= p < 0x10000 ensures Lookup(Flatten(entries), p) == HitOf(Find(codes, p)) {
      if p / 128 in subs {
        LookupNode(entries, ent, subs, codes, p);
      } else {
        LookupLeaf(entries, ent, subs, codes, p);
      }
    }
  }

  // ---------------------------------------------------------------- building --

  /** The Kraft sum in units of 2^-16 (every term is a whole number of them). */
  function Kraft(codes: seq<Code>): (k: nat)
    requires AllFit(codes)
  {
    if |codes| == 0 then 0 else Kraft(codes[..|codes| - 1]) + Pow2(MAX_LEN - codes[|codes| - 1].len)
  }

  /** Long rows clash exactly when they share a prefix and their different suffixes are comparable. */
  lemma LongClash(c: Code, d: Code)
    requires Fits(c) && Fits(d) && !Short(c) && !Short(d)
    ensures Clash(c, d) <==> Pre(c) == Pre(d) && Suffix(c) != Suffix(d) && KeyClash(Suffix(c), Suffix(d))
  {
    LongWord(c);
    LongWord(d);
    var a, b := BitsOf(Pre(c), VLC_BITS), BitsOf(Pre(d), VLC_BITS);
    PrefixOfConcat(a, Word(KeyCode(Suffix(c))), b, Word(KeyCode(Suffix(d))));
    PrefixOfConcat(b, Word(KeyCode(Suffix(d))), a, Word(KeyCode(Suffix(c))));
    assert Pow2(9) == N1;
    ValueOfBits(Pre(c), VLC_BITS);
    ValueOfBits(Pre(d), VLC_BITS);
    if c.len == d.len && Comparable(c, d) { EqualLengthComparable(c, d); }
    if Pre(c) == Pre(d) && Suffix(c) == Suffix(d) { SameFromParts(c, d); }
  }

  lemma SameFromParts(c: Code, d: Code)
    requires Fits(c) && Fits(d) && !Short(c) && !Short(d) && Pre(c) == Pre(d) && Suffix(c) == Suffix(d)
    ensures SameWord(c, d)
  {
    SameDivMod(c.code, d.code, Pow2(c.len - VLC_BITS));
  }

  lemma SameDivMod(a: int, b: int, m: int)
    requires m > 0 && a / m == b / m && a % m == b % m
    ensures a == b
  {
    assert a == m * (a / m) + a % m;
    assert b == m * (b / m) + b % m;
  }

  /** A short and a long row clash exactly when the short one owns the long one's prefix slot. */
  lemma MixedClash(c: Code, d: Code)
    requires Fits(c) && Fits(d) && Short(c) && !Short(d)
    ensures Clash(c, d) <==> In(c, VLC_BITS, Pre(d))
    ensures Clash(d, c) <==> In(c, VLC_BITS, Pre(d))
  {
    LongWord(d);
    assert Pow2(9) == N1;
    InIsPrefix(c, VLC_BITS, Pre(d));
    var s, h := Word(d), BitsOf(Pre(d), VLC_BITS);
    assert s[..c.len] == h[..c.len];
    assert Word(c) <= s <==> Word(c) == s[..c.len];
    assert Word(c) <= h <==> Word(c) == h[..c.len];
  }

  ghost predicate Placeable(ent: seq<Slot>, subs: map<nat, Sub>)
    requires SubsOk(subs) && |ent| == N1
  {
    forall x :: x in subs ==> ent[x].None? && KeysCompatible(subs[x])
  }

  /** When both phases go through, no two rows clash. */
  lemma PlacedMeansAcceptable(ent: seq<Slot>, subs: map<nat, Sub>, codes: seq<Code>)
    requires AllFit(codes) && FirstLevel(ent, codes, |codes|) && Collected(subs, codes, |codes|)
    requires Placeable(ent, subs)
    ensures Acceptable(codes)
  {
    forall i, j | 0 <= i < j < |codes| ensures !Clash(codes[i], codes[j]) {
      var c, d := codes[i], codes[j];
      if Short(c) && !Short(d) {
        MixedClash(c, d);
      } else if !Short(c) && Short(d) {
        MixedClash(d, c);
      } else if !Short(c) && !Short(d) {
        LongClash(c, d);
        if Pre(c) == Pre(d) && Suffix(c) != Suffix(d) {
          CompatiblePair(subs[Pre(c)], Suffix(c), Suffix(d));
        }
      }
    }
  }

  lemma CompatiblePair(s: Sub, a: Key, b: Key)
    requires SubOk(s) && KeysCompatible(s) && a in s.syms && b in s.syms && a != b
    ensures !KeyClash(a, b)
  {
    var i :| 0 <= i < |s.keys| && s.keys[i] == a;
    var j :| 0 <= j < |s.keys| && s.keys[j] == b;
    assert i < j ==> !KeyClash(s.keys[i], s.keys[j]);
    assert j < i ==> !KeyClash(s.keys[j], s.keys[i]);
  }

  lemma SlotIsFree(ent: seq<Slot>, subs: map<nat, Sub>, codes: seq<Code>, x: nat)
    requires Acceptable(codes) && FirstLevel(ent, codes, |codes|) && Collected(subs, codes, |codes|) && x in subs
    ensures ent[x].None?
  {
    hide Clash, In, Pre, Suffix, KeyCode, HoldsRows, SubOk;
    var d := RowOf(subs, codes, x, subs[x].keys[0]);
    if ent[x].Some? {
      var i :| 0 <= i < |codes| && Short(codes[i]) && In(codes[i], VLC_BITS, x);
      MixedClash(codes[i], codes[d]);
    }
  }

  lemma SuffixesApart(subs: map<nat, Sub>, codes: seq<Code>, x: nat, a: nat, b: nat)
    requires Acceptable(codes) && Collected(subs, codes, |codes|) && x in subs && a < b < |subs[x].keys|
    ensures !KeyClash(subs[x].keys[a], subs[x].keys[b])
  {
    hide Clash, Pre, Suffix, KeyCode, HoldsRows, OnlyRows, KeyClash;
    var s := subs[x];
    var i := RowOf(subs, codes, x, s.keys[a]);
    var j := RowOf(subs, codes, x, s.keys[b]);
    LongClash(codes[i], codes[j]);
    LongClash(codes[j], codes[i]);
    KeyClashSwaps(s.keys[a], s.keys[b]);
  }

  lemma KeyClashSwaps(a: Key, b: Key)
    requires GoodKey(a) && GoodKey(b)
    ensures KeyClash(a, b) <==> KeyClash(b, a)
  {}

  /** When no two rows clash, the second phase goes through. */
  lemma AcceptableMeansPlaced(ent: seq<Slot>, subs: map<nat, Sub>, codes: seq<Code>)
    requires Acceptable(codes) && FirstLevel(ent, codes, |codes|) && Collected(subs, codes, |codes|)
    ensures Placeable(ent, subs)
  {
    hide Acceptable, KeyClash, HoldsRows, OnlyRows, In;
    forall x | x in subs ensures ent[x].None? && KeysCompatible(subs[x]) {
      SlotIsFree(ent, subs, codes, x);
      forall a, b | 0 <= a < b < |subs[x].keys| ensures !KeyClash(subs[x].keys[a], subs[x].keys[b]) {
        SuffixesApart(subs, codes, x, a, b);
      }
    }
  }

  lemma RowOf(subs: map<nat, Sub>, codes: seq<Code>, x: nat, key: Key) returns (k: nat)
    requires AllFit(codes) && Collected(subs, codes, |codes|) && x in subs && key in subs[x].keys
    ensures k < |codes| && LongAt(codes[k], x, key)
  {
    assert LastRow(subs[x].syms[key], codes, |codes|, x, key);
    k :| 0 <= k < |codes| && LongAt(codes[k], x, key);
  }

  datatype Built = Built(entries: seq<Entry>, kraft: nat)

  method CheckRange(codes: seq<Code>) returns (ok: bool)
    ensures ok <==> AllFit(codes)
  {
    for i := 0 to |codes|
      invariant forall k :: 0 <= k < i ==> Fits(codes[k])
    {
      var c := codes[i];
      if c.len < 1 || c.len > 16 {
        return false;
      }
      if c.code / Pow2(c.len) != 0 {
        ShiftedOut(c.code, Pow2(c.len));
        return false;
      }
      ShiftedOut(c.code, Pow2(c.len));
    }
    ok := true;
  }

  /** code >> len is zero exactly when the code fits its length. */
  lemma ShiftedOut(v: int, m: int)
    requires m > 0
    ensures v / m == 0 <==> 0 <= v < m
  {
    assert v == m * (v / m) + v % m;
    if 0 <= v < m { DivModUnique(v, m, 0, v); }
  }

  /** The first loop over the code list: short rows go into ent, long rows into subs. */
  method Distribute(codes: seq<Code>) returns (ok: bool, ent: seq<Slot>, subs: map<nat, Sub>)
    requires AllFit(codes)
    ensures Acceptable(codes) ==> ok
    ensures ok ==> FirstLevel(ent, codes, |codes|) && Collected(subs, codes, |codes|)
  {
    hide FirstLevel, Collected, SubsOk, HoldsRows, OnlyRows, AddLong, Clash, In, Word;
    ent := seq(N1, _ => None);
    subs := map[];
    NothingPlaced(ent, codes);
    for i := 0 to |codes|
      invariant FirstLevel(ent, codes, i)
      invariant Collected(subs, codes, i)
    {
      if codes[i].len <= VLC_BITS {
        ok, ent := PlaceShort(ent, codes, i);
        if !ok {
          return;
        }
        ShortKeepsCollected(subs, codes, i);
      } else {
        LongCollected(subs, codes, i);
        subs := AddLong(subs, codes[i]);
        LongKeepsFirstLevel(ent, codes, i);
      }
    }
    ok := true;
  }

  lemma NothingPlaced(ent: seq<Slot>, codes: seq<Code>)
    requires AllFit(codes) && |ent| == N1 && forall x :: 0 <= x < N1 ==> ent[x].None?
    ensures FirstLevel(ent, codes, 0) && Collected(map[], codes, 0)
  {}

  /** One more long row. */
  lemma LongCollected(subs: map<nat, Sub>, codes: seq<Code>, n: nat)
    requires AllFit(codes) && n < |codes| && !Short(codes[n]) && Collected(subs, codes, n)
    ensures Collected(AddLong(subs, codes[n]), codes, n + 1)
  {
    hide SubsOk, HoldsRows, OnlyRows, AddLong, Assigned;
    AddLongSubsOk(subs, codes[n]);
    AddLongHolds(subs, AddLong(subs, codes[n]), codes, n);
    AddLongOnly(subs, AddLong(subs, codes[n]), codes, n);
  }

  lemma LongKeepsFirstLevel(ent: seq<Slot>, codes: seq<Code>, n: nat)
    requires AllFit(codes) && n < |codes| && !Short(codes[n]) && FirstLevel(ent, codes, n)
    ensures FirstLevel(ent, codes, n + 1)
  {}

  /** build_vlc returns exactly on acceptable lists, and its table then answers every
      16-bit pattern with the last row whose codeword prefixes it, or with nothing. */
  method Build(codes: seq<Code>) returns (r: Outcome<Built>)
    ensures r.Return? <==> Acceptable(codes)
    ensures r.Return? ==> TableOk(r.value.entries) && r.value.kraft == Kraft(codes)
    ensures r.Return? ==> forall p :: 0 <= p < 0x10000 ==> Lookup(r.value.entries, p) == HitOf(Find(codes, p))
  {
    var ok := CheckRange(codes);
    if !ok {
      return Raise;
    }
    var ent, subs;
    ok, ent, subs := Distribute(codes);
    if !ok {
      return Raise;
    }
    var entries;
    ok, entries := AppendBlocks(ent, subs);
    if !ok {
      if Acceptable(codes) { AcceptableMeansPlaced(ent, subs, codes); }
      return Raise;
    }
    PlacedMeansAcceptable(ent, subs, codes);
    LookupCorrect(entries, ent, subs, codes);
    var kraft := 0;
    for i := 0 to |codes|
      invariant kraft == Kraft(codes[..i])
    {
      assert codes[..i + 1][..i] == codes[..i];
      kraft := kraft + Pow2(MAX_LEN - codes[i].len);
    }
    assert codes[..|codes|] == codes;
    r := Return(Built(Flatten(entries), kraft));
  }

  // ------------------------------------------------------- what it is good for --

  /** With no codeword listed twice, acceptable means prefix-free. */
  lemma AcceptableIsPrefixFree(codes: seq<Code>)
    requires AllFit(codes) && NoRepeat(codes)
    ensures Acceptable(codes) <==> PrefixFree(codes)
  {}

  /** In a prefix-free list at most one codeword prefixes a pattern, and Find is that one. */
  lemma FindIsUnique(codes: seq<Code>, p: nat, k: nat)
    requires AllFit(codes) && PrefixFree(codes) && k < |codes|
    ensures Matches(codes[k], p) <==> Find(codes, p) == Some(codes[k])
  {
    if Matches(codes[k], p) {
      forall j | 0 <= j < |codes| && j != k ensures !Matches(codes[j], p) {
        if Matches(codes[j], p) {
          if j < k { MatchesComparable(codes[j], codes[k], p); } else { MatchesComparable(codes[k], codes[j], p); }
        }
      }
      FindIsLast(codes, p, k);
    } else {
      FindMatches(codes, p);
    }
  }

  lemma {:induction false} FindMatches(codes: seq<Code>, p: nat)
    requires AllFit(codes)
    ensures Find(codes, p).Some? ==>
      Find(codes, p).value in codes && Fits(Find(codes, p).value) && Matches(Find(codes, p).value, p)
  {
    if |codes| > 0 { FindMatches(codes[..|codes| - 1], p); }
  }

  /** decodes looks only at the sixteen leading bits, and returns the symbol a lookup hits. */
  lemma DecodesIsLookup(t: seq<Entry>, p: nat)
    requires TableOk(t)
    ensures Decodes(t, p, MAX_LEN) == match Lookup(t, p) case None => None case Some(h) => Some(h.sym)
  {}
}
