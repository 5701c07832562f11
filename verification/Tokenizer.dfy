/** tools/lmtok.py: the byte alphabet, the reverse vocabulary, encode and decode. */
module Tokenizer {
  import opened Bits
  import opened Outcomes
  import opened Bpe
  import Utf8

  type Text = Utf8.Text

  // ------------------------------------------------------------------ byte alphabet --

  predicate Printable(b: nat) {
    33 <= b <= 126 || 161 <= b <= 172 || 174 <= b <= 255
  }

  /** How many unprintable values lie below b. */
  function Below(b: nat): (n: nat) {
    if b <= 33 then b else if b < 127 then 33 else if b <= 161 then b - 94 else if b <= 173 then 67 else 68
  }

  /** The character that stands for a byte. */
  function ByteChar(b: nat): (c: nat) {
    if Printable(b) then b else 256 + Below(b)
  }

  /** BYTE_DECODER. */
  function CharByte(c: nat): (r: Option<Byte>) {
    if c < 256 then if Printable(c) then Some(c) else None
    else if c < 289 then Some(c - 256)
    else if c < 323 then Some(c - 162)
    else if c == 323 then Some(173)
    else None
  }

  /** 256 bytes, 256 different characters. */
  lemma AlphabetBijective(b: Byte, c: nat)
    ensures CharByte(ByteChar(b)) == Some(b)
    ensures CharByte(c).Some? ==> ByteChar(CharByte(c).value) == c
  {}

  /** How many of the first b values are no printable Latin-1 characters. */
  ghost function Unprintables(b: nat): (n: nat) {
    if b == 0 then 0
    else Unprintables(b - 1) + if 33 <= b - 1 <= 126 || 161 <= b - 1 <= 172 || 174 <= b - 1 <= 255 then 0 else 1
  }

  /** Printable bytes stand for themselves, the others for 256, 257 and so on in their order. */
  lemma {:induction false} ByteCharIs(b: nat)
    requires b < 256
    ensures Unprintables(b) == Below(b)
    ensures ByteChar(b)
            == if 33 <= b <= 126 || 161 <= b <= 172 || 174 <= b <= 255 then b else 256 + Unprintables(b)
  {
    if b > 0 { ByteCharIs(b - 1); }
  }

  function Range(a: nat, b: nat): (r: seq<nat>)
    requires a <= b
    ensures |r| == b - a && forall i :: 0 <= i < b - a ==> r[i] == a + i
  {
    seq(b - a, i requires 0 <= i < b - a => a + i)
  }

  lemma RangeMembers(a: nat, b: nat, x: nat)
    requires a <= b
    ensures x in Range(a, b) <==> a <= x < b
  {
    if a <= x < b { assert Range(a, b)[x - a] == x; }
  }

  /** bytes_to_unicode: the printable bytes first, then the others numbered from 256. */
  method BytesToUnicode() returns (m: map<nat, nat>)
    ensures forall b: nat :: b in m <==> b < 256
    ensures forall b: nat :: b in m ==> m[b] == ByteChar(b)
  {
    var bs := Range(33, 127) + Range(161, 173) + Range(174, 256);
    forall x: nat ensures x in bs <==> Printable(x) {
      RangeMembers(33, 127, x);
      RangeMembers(161, 173, x);
      RangeMembers(174, 256, x);
    }
    var cs := bs;
    var n := 0;
    assert forall k :: 0 <= k < |bs| ==> Printable(bs[k]);
    for b := 0 to 256
      invariant |bs| == |cs| && n == Below(b)
      invariant forall x: nat :: x in bs <==> Printable(x) || x < b
      invariant forall k :: 0 <= k < |bs| ==> cs[k] == ByteChar(bs[k])
    {
      if b !in bs {
        bs := bs + [b];
        cs := cs + [256 + n];
        n := n + 1;
      }
    }
    m := map[];
    for k := 0 to |bs|
      invariant forall x: nat :: x in m <==> x in bs[..k]
      invariant forall x: nat :: x in m ==> m[x] == ByteChar(x)
    {
      assert bs[..k + 1] == bs[..k] + [bs[k]];
      m := m[bs[k] := cs[k]];
    }
    assert bs[..|bs|] == bs;
  }

  // ------------------------------------------------------------- the reverse vocabulary --

  ghost predicate IsReverse<K, V>(m: map<K, V>, rev: map<V, K>) {
    && (forall k :: k in m ==> m[k] in rev && rev[m[k]] == k)
    && (forall v :: v in rev ==> rev[v] in m && m[rev[v]] == v)
  }

  ghost predicate Injective<K, V>(m: map<K, V>, keys: set<K>) {
    forall j, k :: j in keys && k in keys && j in m && k in m && m[j] == m[k] ==> j == k
  }

  /** The reverse map after the tokens in seen: as many ids as tokens so far, or a repeated id. */
  ghost predicate Reversing(vocab: map<Symbol, nat>, rev: map<nat, Symbol>, seen: set<Symbol>) {
    && seen <= vocab.Keys && |rev| <= |seen|
    && (forall v :: v in rev ==> rev[v] in seen && vocab[rev[v]] == v)
    && (forall k :: k in seen ==> vocab[k] in rev)
    && (|rev| == |seen| <==> Injective(vocab, seen))
  }

  /** id_to_tok with its length check: it raises exactly when two tokens share an id. */
  method ReverseVocab(vocab: map<Symbol, nat>) returns (r: Outcome<map<nat, Symbol>>)
    ensures r.Return? <==> Injective(vocab, vocab.Keys)
    ensures r.Return? ==> IsReverse(vocab, r.value)
  {
    hide Injective, Reversing, IsReverse;
    var rev: map<nat, Symbol> := map[];
    var rest := vocab.Keys;
    ghost var seen: set<Symbol> := {};
    NothingReversed(vocab);
    while rest != {}
      invariant rest + seen == vocab.Keys && rest !! seen && Reversing(vocab, rev, seen)
      decreases |rest|
    {
      var s :| s in rest;
      GrowReverse(vocab, rev, seen, s);
      rev := rev[vocab[s] := s];
      rest, seen := rest - {s}, seen + {s};
    }
    assert seen == vocab.Keys;
    AllReversed(vocab, rev);
    if |vocab| != |rev| {
      return Raise;
    }
    r := Return(rev);
  }

  lemma NothingReversed(vocab: map<Symbol, nat>)
    ensures Reversing(vocab, map[], {})
  {}

  lemma AllReversed(vocab: map<Symbol, nat>, rev: map<nat, Symbol>)
    requires Reversing(vocab, rev, vocab.Keys)
    ensures |vocab| == |rev| <==> Injective(vocab, vocab.Keys)
    ensures |vocab| == |rev| ==> IsReverse(vocab, rev)
  {
    assert |vocab| == |vocab.Keys|;
  }

  /** One more token: its id is new exactly when the map stays one-to-one. */
  lemma InjectiveGrow<K, V>(m: map<K, V>, seen: set<K>, s: K, unused: bool)
    requires s in m && s !in seen && seen <= m.Keys && (unused <==> forall k :: k in seen ==> m[k] != m[s])
    ensures Injective(m, seen + {s}) <==> Injective(m, seen) && unused
  {
    if !unused {
      var k :| k in seen && m[k] == m[s];
      assert k in seen + {s} && s in seen + {s} && k != s;
    }
    if Injective(m, seen) && unused {
      forall j, k | j in seen + {s} && k in seen + {s} && m[j] == m[k] ensures j == k {
      }
    }
    if Injective(m, seen + {s}) {
      forall j, k | j in seen && k in seen && m[j] == m[k] ensures j == k {
        assert j in seen + {s} && k in seen + {s};
      }
    }
  }

  lemma OneMoreKey(rev: map<nat, Symbol>, v: nat, s: Symbol)
    ensures |rev[v := s]| == |rev| + if v in rev then 0 else 1
  {
    var rev' := rev[v := s];
    assert |rev'| == |rev'.Keys| && |rev| == |rev.Keys|;
    if v in rev { assert rev'.Keys == rev.Keys; } else { assert rev'.Keys == rev.Keys + {v}; }
  }

  lemma GrowReverse(vocab: map<Symbol, nat>, rev: map<nat, Symbol>, seen: set<Symbol>, s: Symbol)
    requires s in vocab && s !in seen && Reversing(vocab, rev, seen)
    ensures Reversing(vocab, rev[vocab[s] := s], seen + {s})
  {
    hide Injective;
    var v := vocab[s];
    var unused := v !in rev;
    OneMoreKey(rev, v, s);
    assert |seen + {s}| == |seen| + 1;
    if !unused {
      assert rev[v] in seen && vocab[rev[v]] == v;
    }
    InjectiveGrow(vocab, seen, s, unused);
    var rev' := rev[v := s];
    forall u | u in rev' ensures rev'[u] in seen + {s} && vocab[rev'[u]] == u {
      assert u == v || u in rev;
    }
  }

  // -------------------------------------------------------------------------- tokenizer --

  /** What __init__ leaves behind; nfc and split stand for the Unicode and regex libraries. */
  datatype Tokenizer = Tokenizer(
    vocab: map<Symbol, nat>, rev: map<nat, Symbol>, ranks: Ranks,
    added: map<Text, nat>, addedRev: map<nat, Text>, special: set<Text>,
    nfc: Text -> Text, split: Text -> seq<Text>)

  function Join(pieces: seq<Text>): (t: Text) {
    if pieces == [] then [] else pieces[0] + Join(pieces[1..])
  }

  ghost predicate SplitOk(tk: Tokenizer) {
    forall t: Text :: Join(tk.split(t)) == t && [] !in tk.split(t)
  }

  /** The vocabulary is one-to-one and holds the 256 base characters and every merge result. */
  ghost predicate Loaded(tk: Tokenizer) {
    && IsReverse(tk.vocab, tk.rev) && Distinct(tk.ranks) && SplitOk(tk)
    && (forall b: Byte :: [ByteChar(b)] in tk.vocab)
    && (forall p :: p in tk.ranks ==> p.0 + p.1 in tk.vocab)
  }

  ghost predicate AddedOk(tk: Tokenizer) {
    IsReverse(tk.added, tk.addedRev) && forall t :: t in tk.added ==> tk.added[t] !in tk.rev
  }

  function ByteString(b: seq<Byte>): (s: seq<nat>)
    ensures |s| == |b|
  {
    if b == [] then [] else [ByteChar(b[0])] + ByteString(b[1..])
  }

  /** All symbols of a list of pretokens, each merged on its own. */
  ghost function Symbols(ranks: Ranks, pieces: seq<Text>): (w: Word) {
    if pieces == [] then []
    else PieceSymbols(ranks, pieces[0]) + Symbols(ranks, pieces[1..])
  }

  ghost predicate Known(vocab: map<Symbol, nat>, w: Word) {
    forall i :: 0 <= i < |w| ==> w[i] in vocab
  }

  function IdsOf(vocab: map<Symbol, nat>, w: Word): (ids: seq<nat>)
    requires Known(vocab, w)
    ensures |ids| == |w| && forall i :: 0 <= i < |w| ==> ids[i] == vocab[w[i]]
  {
    seq(|w|, i requires 0 <= i < |w| => vocab[w[i]])
  }

  /** The symbols one pretoken is merged into. */
  ghost function PieceSymbols(ranks: Ranks, piece: Text): (w: Word) {
    Merged(ranks, Letters(ByteString(Utf8.Encode(piece))))
  }

  /** One pretoken's ids; the "not in vocab" error is never reached with a complete vocabulary. */
  method EncodePiece(tk: Tokenizer, piece: Text) returns (r: Outcome<seq<nat>>)
    requires Loaded(tk) && piece != []
    ensures var w := PieceSymbols(tk.ranks, piece); r.Return? && Known(tk.vocab, w) && r.value == IdsOf(tk.vocab, w)
  {
    hide Loaded, Merged, Letters, ByteString, Concat, Done, Distinct;
    LoadedOk(tk);
    var merged := BpeWord(tk.ranks, ByteString(Utf8.Encode(piece)));
    PieceKnown(tk, piece);
    var w := merged.value;
    var ids: seq<nat> := [];
    for i := 0 to |w|
      invariant ids == IdsOf(tk.vocab, w[..i])
    {
      if w[i] !in tk.vocab {
        return Raise;
      }
      ids := ids + [tk.vocab[w[i]]];
      assert w[..i + 1] == w[..i] + [w[i]];
    }
    assert w[..|w|] == w;
    r := Return(ids);
  }

  /** _encode_chunk */
  method EncodeChunk(tk: Tokenizer, text: Text) returns (r: Outcome<seq<nat>>)
    requires Loaded(tk)
    ensures var w := Symbols(tk.ranks, tk.split(text)); r.Return? && Known(tk.vocab, w) && r.value == IdsOf(tk.vocab, w)
  {
    hide Loaded, PieceSymbols, Symbols;
    LoadedOk(tk);
    var pieces := tk.split(text);
    SplitPieces(tk, text);
    var ids: seq<nat> := [];
    NoPieces(tk);
    assert pieces[..0] == [];
    for k := 0 to |pieces|
      invariant Known(tk.vocab, Symbols(tk.ranks, pieces[..k]))
      invariant ids == IdsOf(tk.vocab, Symbols(tk.ranks, pieces[..k]))
    {
      assert pieces[k] in pieces;
      var one := EncodePiece(tk, pieces[k]);
      assert pieces[..k + 1] == pieces[..k] + [pieces[k]];
      SymbolsSnoc(tk.ranks, pieces[..k], pieces[k]);
      IdsAppend(tk.vocab, Symbols(tk.ranks, pieces[..k]), PieceSymbols(tk.ranks, pieces[k]));
      ids := ids + one.value;
    }
    assert pieces[..|pieces|] == pieces;
    r := Return(ids);
  }

  lemma NoPieces(tk: Tokenizer)
    ensures Symbols(tk.ranks, []) == []
  {}

  lemma IdsAppend(vocab: map<Symbol, nat>, v: Word, w: Word)
    requires Known(vocab, v) && Known(vocab, w)
    ensures Known(vocab, v + w) && IdsOf(vocab, v + w) == IdsOf(vocab, v) + IdsOf(vocab, w)
  {}

  lemma LoadedOk(tk: Tokenizer)
    requires Loaded(tk)
    ensures Distinct(tk.ranks) && SplitOk(tk) && IsReverse(tk.vocab, tk.rev)
  {}

  lemma SplitPieces(tk: Tokenizer, text: Text)
    requires SplitOk(tk)
    ensures Join(tk.split(text)) == text && [] !in tk.split(text)
  {}

  lemma {:induction false} SymbolsSnoc(ranks: Ranks, pieces: seq<Text>, p: Text)
    ensures Symbols(ranks, pieces + [p]) == Symbols(ranks, pieces) + PieceSymbols(ranks, p)
  {
    hide PieceSymbols;
    if pieces == [] {
      assert [p][1..] == [] && pieces + [p] == [p];
    } else {
      assert (pieces + [p])[1..] == pieces[1..] + [p];
      SymbolsSnoc(ranks, pieces[1..], p);
    }
  }

  /** Every symbol a pretoken is merged into has an id. */
  lemma PieceKnown(tk: Tokenizer, piece: Text)
    requires Loaded(tk)
    ensures Known(tk.vocab, PieceSymbols(tk.ranks, piece))
  {
    hide Merged, IsReverse, SplitOk, Concat, Done, ByteChar;
    var b := Utf8.Encode(piece);
    var w := Letters(ByteString(b));
    MergedKeeps(tk.ranks, w);
    var r := Merged(tk.ranks, w);
    forall i | 0 <= i < |r| ensures r[i] in tk.vocab {
      assert r[i] in r;
      if r[i] in w {
        var k :| 0 <= k < |w| && w[k] == r[i];
        ByteStringAt(b, k);
      }
    }
  }

  lemma {:induction false} ByteStringAt(b: seq<Byte>, k: nat)
    requires k < |b|
    ensures ByteString(b)[k] == ByteChar(b[k])
  {
    if k > 0 { ByteStringAt(b[1..], k - 1); }
  }

  // ------------------------------------------------------------------------------ decode --

  /** The bytes a token's characters stand for; an unknown character is a KeyError. */
  function SymbolBytes(s: Symbol): (r: Outcome<seq<Byte>>) {
    if s == [] then Return([])
    else
      var rest := SymbolBytes(s[1..]);
      if CharByte(s[0]).None? || rest.Raise? then Raise else Return([CharByte(s[0]).value] + rest.value)
  }

  /** What one id contributes. */
  function TokenBytes(tk: Tokenizer, id: nat, skip: bool): (r: Outcome<seq<Byte>>) {
    if id in tk.rev then SymbolBytes(tk.rev[id])
    else if id in tk.addedRev then
      if skip && tk.addedRev[id] in tk.special then Return([]) else Return(Utf8.Encode(tk.addedRev[id]))
    else Raise
  }

  function Both(a: Outcome<seq<Byte>>, b: Outcome<seq<Byte>>): (r: Outcome<seq<Byte>>) {
    if a.Raise? || b.Raise? then Raise else Return(a.value + b.value)
  }

  function DecodeBytes(tk: Tokenizer, ids: seq<nat>, skip: bool): (r: Outcome<seq<Byte>>) {
    if ids == [] then Return([]) else Both(TokenBytes(tk, ids[0], skip), DecodeBytes(tk, ids[1..], skip))
  }

  lemma BothAssoc(a: Outcome<seq<Byte>>, b: Outcome<seq<Byte>>, c: Outcome<seq<Byte>>)
    ensures Both(Both(a, b), c) == Both(a, Both(b, c))
  {
    if a.Return? && b.Return? && c.Return? { assert (a.value + b.value) + c.value == a.value + (b.value + c.value); }
  }

  lemma EmptyFirst(b: Outcome<seq<Byte>>)
    ensures Both(Return([]), b) == b == Both(b, Return([]))
  {
    if b.Return? { assert [] + b.value == b.value == b.value + []; }
  }

  lemma {:induction false} DecodeAppend(tk: Tokenizer, a: seq<nat>, b: seq<nat>, skip: bool)
    ensures DecodeBytes(tk, a + b, skip) == Both(DecodeBytes(tk, a, skip), DecodeBytes(tk, b, skip))
  {
    hide TokenBytes;
    if a == [] {
      assert a + b == b;
      EmptyFirst(DecodeBytes(tk, b, skip));
    } else {
      assert (a + b)[1..] == a[1..] + b;
      DecodeAppend(tk, a[1..], b, skip);
      BothAssoc(TokenBytes(tk, a[0], skip), DecodeBytes(tk, a[1..], skip), DecodeBytes(tk, b, skip));
    }
  }

  /** decode: bytes first, one UTF-8 decoding with replacement at the end. */
  method Decode(tk: Tokenizer, ids: seq<nat>, skip: bool) returns (r: Outcome<Text>)
    ensures r.Return? <==> DecodeBytes(tk, ids, skip).Return?
    ensures r.Return? ==> r.value == Utf8.Decode(DecodeBytes(tk, ids, skip).value)
  {
    hide TokenBytes;
    var out: seq<Byte> := [];
    assert ids[..0] == [];
    for k := 0 to |ids|
      invariant DecodeBytes(tk, ids[..k], skip) == Return(out)
    {
      var t := TokenBytes(tk, ids[k], skip);
      assert ids[..k + 1] == ids[..k] + [ids[k]] && [ids[k]][1..] == [];
      DecodeAppend(tk, ids[..k], [ids[k]], skip);
      EmptyFirst(t);
      if t.Raise? {
        assert ids == ids[..k + 1] + ids[k + 1..];
        DecodeAppend(tk, ids[..k + 1], ids[k + 1..], skip);
        return Raise;
      }
      out := out + t.value;
    }
    assert ids[..|ids|] == ids;
    r := Return(Utf8.Decode(out));
  }
}
