/** tools/lmtok.py encode, and why decode undoes it. */
module TokenRoundTrip {
  import opened Bits
  import opened Outcomes
  import opened Bpe
  import opened Tokenizer
  import Utf8

  // ---------------------------------------------------------- added tokens and chunks --

  /** One hit of the added-token pattern. */
  datatype Match = Match(start: nat, end: nat)

  datatype Chunk = Chunk(special: bool, text: Text)

  /** Hits in order, none empty or overlapping, each an added token. */
  ghost predicate MatchesOk(tk: Tokenizer, text: Text, ms: seq<Match>, pos: nat) {
    if ms == [] then pos <= |text|
    else
      && pos <= ms[0].start < ms[0].end <= |text| && text[ms[0].start..ms[0].end] in tk.added
      && MatchesOk(tk, text, ms[1..], ms[0].end)
  }

  /** The text from pos on, cut at the hits. */
  ghost function ChunksFrom(tk: Tokenizer, text: Text, ms: seq<Match>, pos: nat): (cs: seq<Chunk>)
    requires MatchesOk(tk, text, ms, pos)
  {
    if ms == [] then if pos < |text| then [Chunk(false, text[pos..])] else []
    else
      (if ms[0].start > pos then [Chunk(false, text[pos..ms[0].start])] else [])
      + [Chunk(true, text[ms[0].start..ms[0].end])] + ChunksFrom(tk, text, ms[1..], ms[0].end)
  }

  function Flat(cs: seq<Chunk>): (t: Text) {
    if cs == [] then [] else cs[0].text + Flat(cs[1..])
  }

  ghost predicate ChunksOk(tk: Tokenizer, cs: seq<Chunk>) {
    forall i :: 0 <= i < |cs| && cs[i].special ==> cs[i].text in tk.added
  }

  lemma FlatCons(c: Chunk, rest: seq<Chunk>)
    ensures Flat([c] + rest) == c.text + Flat(rest)
  {
    assert ([c] + rest)[1..] == rest;
  }

  lemma Slices(text: Text, a: nat, b: nat)
    requires a <= b <= |text|
    ensures text[a..b] + text[b..] == text[a..]
  {}

  /** The chunks lose nothing. */
  lemma {:induction false} ChunksCover(tk: Tokenizer, text: Text, ms: seq<Match>, pos: nat)
    requires MatchesOk(tk, text, ms, pos)
    ensures pos <= |text| && Flat(ChunksFrom(tk, text, ms, pos)) == text[pos..]
    decreases |ms|
  {
    hide Flat;
    if ms == [] {
      FlatNone();
      if pos < |text| {
        var last := Chunk(false, text[pos..]);
        FlatCons(last, []);
        assert [last] + [] == [last] && last.text + [] == text[pos..];
      }
    } else {
      var m := ms[0];
      ChunksCover(tk, text, ms[1..], m.end);
      var rest, hit := ChunksFrom(tk, text, ms[1..], m.end), Chunk(true, text[m.start..m.end]);
      FlatCons(hit, rest);
      Slices(text, m.start, m.end);
      if m.start > pos {
        var gap := Chunk(false, text[pos..m.start]);
        FlatCons(gap, [hit] + rest);
        Slices(text, pos, m.start);
        assert [gap] + [hit] + rest == [gap] + ([hit] + rest);
      } else {
        assert [] + [hit] + rest == [hit] + rest;
      }
    }
  }

  lemma FlatNone()
    ensures Flat([]) == []
  {}

  /** Special chunks are added tokens, and there are none without hits. */
  lemma {:induction false} SpecialChunks(tk: Tokenizer, text: Text, ms: seq<Match>, pos: nat)
    requires MatchesOk(tk, text, ms, pos)
    ensures ChunksOk(tk, ChunksFrom(tk, text, ms, pos))
    ensures ms == [] ==> forall c :: c in ChunksFrom(tk, text, ms, pos) ==> !c.special
    decreases |ms|
  {
    if ms != [] { SpecialChunks(tk, text, ms[1..], ms[0].end); }
  }

  /** The chunk loop of encode. */
  method Chunks(tk: Tokenizer, text: Text, ms: seq<Match>) returns (cs: seq<Chunk>)
    requires MatchesOk(tk, text, ms, 0)
    ensures cs == ChunksFrom(tk, text, ms, 0)
  {
    cs := [];
    var pos: nat := 0;
    assert ms[0..] == ms;
    for k := 0 to |ms|
      invariant MatchesOk(tk, text, ms[k..], pos)
      invariant cs + ChunksFrom(tk, text, ms[k..], pos) == ChunksFrom(tk, text, ms, 0)
    {
      assert ms[k..][1..] == ms[k + 1..];
      ghost var was := cs;
      var m := ms[k];
      if m.start > pos {
        cs := cs + [Chunk(false, text[pos..m.start])];
      }
      cs := cs + [Chunk(true, text[m.start..m.end])];
      ghost var later := ChunksFrom(tk, text, ms[k + 1..], m.end);
      assert cs + later == was + ChunksFrom(tk, text, ms[k..], pos);
      pos := m.end;
    }
    assert ms[|ms|..] == [];
    if pos < |text| {
      cs := cs + [Chunk(false, text[pos..])];
    }
  }

  // --------------------------------------------------------------------------- encode --

  ghost function PlainIds(tk: Tokenizer, text: Text): (ids: seq<nat>)
    requires Loaded(tk)
  {
    ChunkKnown(tk, tk.split(tk.nfc(text)));
    IdsOf(tk.vocab, Symbols(tk.ranks, tk.split(tk.nfc(text))))
  }

  lemma {:induction false} ChunkKnown(tk: Tokenizer, pieces: seq<Text>)
    requires Loaded(tk)
    ensures Known(tk.vocab, Symbols(tk.ranks, pieces))
  {
    hide Loaded, PieceSymbols;
    if pieces != [] {
      PieceKnown(tk, pieces[0]);
      ChunkKnown(tk, pieces[1..]);
    }
  }

  ghost function ChunkIds(tk: Tokenizer, c: Chunk): (ids: seq<nat>)
    requires Loaded(tk) && (c.special ==> c.text in tk.added)
  {
    if c.special then [tk.added[c.text]] else PlainIds(tk, c.text)
  }

  ghost function AllIds(tk: Tokenizer, cs: seq<Chunk>): (ids: seq<nat>)
    requires Loaded(tk) && ChunksOk(tk, cs)
  {
    if cs == [] then [] else ChunkIds(tk, cs[0]) + AllIds(tk, cs[1..])
  }

  lemma {:induction false} AllIdsSnoc(tk: Tokenizer, cs: seq<Chunk>, c: Chunk)
    requires Loaded(tk) && ChunksOk(tk, cs + [c])
    ensures ChunksOk(tk, cs) && (c.special ==> c.text in tk.added)
    ensures AllIds(tk, cs + [c]) == AllIds(tk, cs) + ChunkIds(tk, c)
  {
    hide Loaded, ChunkIds;
    assert (cs + [c])[|cs|] == c;
    assert forall i :: 0 <= i < |cs| ==> (cs + [c])[i] == cs[i];
    if cs == [] {
      assert cs + [c] == [c] && [c][1..] == [];
    } else {
      assert (cs + [c])[1..] == cs[1..] + [c];
      AllIdsSnoc(tk, cs[1..], c);
    }
  }

  /** encode, given where the added-token pattern hits. */
  method Encode(tk: Tokenizer, text: Text, ms: seq<Match>) returns (r: Outcome<seq<nat>>)
    requires Loaded(tk) && MatchesOk(tk, text, ms, 0)
    ensures var cs := ChunksFrom(tk, text, ms, 0); ChunksOk(tk, cs) && r == Return(AllIds(tk, cs))
  {
    hide Loaded, MatchesOk, ChunksFrom, AllIds, Symbols;
    SpecialChunks(tk, text, ms, 0);
    NoIds(tk);
    if text == [] {
      EmptyText(tk, ms);
      return Return([]);
    }
    var cs := Chunks(tk, text, ms);
    var ids: seq<nat> := [];
    assert cs[..0] == [];
    for k := 0 to |cs|
      invariant ChunksOk(tk, cs[..k]) && ids == AllIds(tk, cs[..k])
    {
      assert cs[..k + 1] == cs[..k] + [cs[k]];
      AllIdsSnoc(tk, cs[..k], cs[k]);
      if cs[k].special {
        ids := ids + [tk.added[cs[k].text]];
      } else {
        var one := EncodeChunk(tk, tk.nfc(cs[k].text));
        ids := ids + one.value;
      }
    }
    assert cs[..|cs|] == cs;
    r := Return(ids);
  }

  lemma EmptyText(tk: Tokenizer, ms: seq<Match>)
    requires MatchesOk(tk, [], ms, 0)
    ensures ChunksFrom(tk, [], ms, 0) == []
  {}

  lemma NoIds(tk: Tokenizer)
    requires Loaded(tk)
    ensures AllIds(tk, []) == []
  {}

  // ----------------------------------------------------------------------- round trip --

  /** What decoding must give back: plain text normalised, added tokens as they are unless they are
      special and skipped. */
  ghost function Normalised(tk: Tokenizer, cs: seq<Chunk>, skip: bool): (t: Text) {
    if cs == [] then []
    else
      (if !cs[0].special then tk.nfc(cs[0].text) else if skip && cs[0].text in tk.special then [] else cs[0].text)
      + Normalised(tk, cs[1..], skip)
  }

  lemma {:induction false} SymbolBytesAppend(a: Symbol, b: Symbol)
    ensures SymbolBytes(a + b) == Both(SymbolBytes(a), SymbolBytes(b))
  {
    hide CharByte;
    if a == [] {
      assert a + b == b;
      EmptyFirst(SymbolBytes(b));
    } else {
      assert (a + b)[1..] == a[1..] + b;
      SymbolBytesAppend(a[1..], b);
      var head := if CharByte(a[0]).None? then Raise else Return([CharByte(a[0]).value]);
      BothAssoc(head, SymbolBytes(a[1..]), SymbolBytes(b));
    }
  }

  lemma {:induction false} ByteStringBack(b: seq<Byte>)
    ensures SymbolBytes(ByteString(b)) == Return(b)
  {
    hide CharByte, ByteChar;
    if b != [] {
      ByteStringBack(b[1..]);
      AlphabetBijective(b[0], 0);
      assert ByteString(b)[1..] == ByteString(b[1..]);
      assert b == [b[0]] + b[1..];
    }
  }

  /** Decoding the ids of a word gives the bytes of its characters, wherever the symbols were cut. */
  lemma {:induction false} DecodeWord(tk: Tokenizer, w: Word, skip: bool)
    requires IsReverse(tk.vocab, tk.rev) && Known(tk.vocab, w)
    ensures DecodeBytes(tk, IdsOf(tk.vocab, w), skip) == SymbolBytes(Concat(w))
  {
    hide SymbolBytes, IsReverse;
    if w == [] {
      NoSymbol();
    } else {
      var ids := IdsOf(tk.vocab, w);
      assert ids[1..] == IdsOf(tk.vocab, w[1..]);
      DecodeWord(tk, w[1..], skip);
      ReverseAt(tk, w[0]);
      SymbolBytesAppend(w[0], Concat(w[1..]));
    }
  }

  lemma NoSymbol()
    ensures SymbolBytes([]) == Return([])
  {}

  lemma ReverseAt(tk: Tokenizer, s: Symbol)
    requires IsReverse(tk.vocab, tk.rev) && s in tk.vocab
    ensures tk.vocab[s] in tk.rev && tk.rev[tk.vocab[s]] == s
  {}

  lemma {:induction false} ByteStringAppend(a: seq<Byte>, b: seq<Byte>)
    ensures ByteString(a + b) == ByteString(a) + ByteString(b)
  {
    hide ByteChar;
    if a == [] {
      assert a + b == b;
    } else {
      assert (a + b)[1..] == a[1..] + b;
      ByteStringAppend(a[1..], b);
    }
  }

  lemma {:induction false} ConcatAppend(v: Word, w: Word)
    ensures Concat(v + w) == Concat(v) + Concat(w)
  {
    if v == [] {
      assert v + w == w;
    } else {
      assert (v + w)[1..] == v[1..] + w;
      ConcatAppend(v[1..], w);
    }
  }

  /** The symbols of a list of pretokens spell the bytes of their concatenation. */
  lemma {:induction false} SymbolsSpell(ranks: Ranks, pieces: seq<Text>)
    requires Distinct(ranks)
    ensures Concat(Symbols(ranks, pieces)) == ByteString(Utf8.Encode(Join(pieces)))
  {
    hide Merged, Letters, ByteString, Concat, Done, Distinct, Utf8.Encode;
    if pieces == [] {
      NothingSpelled();
    } else {
      var b := ByteString(Utf8.Encode(pieces[0]));
      MergedKeeps(ranks, Letters(b));
      ConcatLetters(b);
      SymbolsSpell(ranks, pieces[1..]);
      ConcatAppend(PieceSymbols(ranks, pieces[0]), Symbols(ranks, pieces[1..]));
      Utf8.EncodeConcat(pieces[0], Join(pieces[1..]));
      ByteStringAppend(Utf8.Encode(pieces[0]), Utf8.Encode(Join(pieces[1..])));
    }
  }

  lemma NothingSpelled()
    ensures Concat([]) == [] && Utf8.Encode([]) == [] && ByteString([]) == []
  {}

  lemma PlainBack(tk: Tokenizer, text: Text, skip: bool)
    requires Loaded(tk)
    ensures DecodeBytes(tk, PlainIds(tk, text), skip) == Return(Utf8.Encode(tk.nfc(text)))
  {
    hide Loaded, SplitOk, IsReverse, Distinct, Symbols, ByteString, SymbolBytes, DecodeBytes;
    LoadedOk(tk);
    var t := tk.nfc(text);
    SplitPieces(tk, t);
    ChunkKnown(tk, tk.split(t));
    DecodeWord(tk, Symbols(tk.ranks, tk.split(t)), skip);
    SymbolsSpell(tk.ranks, tk.split(t));
    ByteStringBack(Utf8.Encode(t));
  }

  lemma SpecialBack(tk: Tokenizer, c: Chunk, skip: bool)
    requires Loaded(tk) && AddedOk(tk) && c.special && c.text in tk.added
    ensures DecodeBytes(tk, ChunkIds(tk, c), skip)
            == Return(Utf8.Encode(if skip && c.text in tk.special then [] else c.text))
  {
    hide Loaded, Utf8.Encode;
    NothingSpelled();
    var id := tk.added[c.text];
    assert DecodeBytes(tk, [id][1..], skip) == Return([]);
    EmptyFirst(TokenBytes(tk, id, skip));
  }

  /** For every text, every way the added tokens hit it, every splitter that partitions and every
      complete one-to-one vocabulary: the decoded bytes are those of the normalised text. */
  lemma {:induction false} RoundTrip(tk: Tokenizer, cs: seq<Chunk>, skip: bool)
    requires Loaded(tk) && ChunksOk(tk, cs) && (AddedOk(tk) || forall c :: c in cs ==> !c.special)
    ensures DecodeBytes(tk, AllIds(tk, cs), skip) == Return(Utf8.Encode(Normalised(tk, cs, skip)))
  {
    hide Loaded, AddedOk, DecodeBytes, PlainIds, Utf8.Encode;
    if cs == [] {
      NothingSpelled();
      NoDecode(tk, skip);
    } else {
      RoundTrip(tk, cs[1..], skip);
      var c := cs[0];
      DecodeAppend(tk, ChunkIds(tk, c), AllIds(tk, cs[1..]), skip);
      var head := if !c.special then tk.nfc(c.text) else if skip && c.text in tk.special then [] else c.text;
      if c.special {
        SpecialBack(tk, c, skip);
      } else {
        PlainBack(tk, c.text, skip);
      }
      Utf8.EncodeConcat(head, Normalised(tk, cs[1..], skip));
    }
  }

  lemma NoDecode(tk: Tokenizer, skip: bool)
    ensures DecodeBytes(tk, [], skip) == Return([])
  {}

  /** encode then decode, as a caller sees it: a text without added tokens comes back normalised; the
      empty text has no ids and comes back empty. */
  method EncodeThenDecode(tk: Tokenizer, text: Text, skip: bool) returns (ids: seq<nat>, back: Text)
    requires Loaded(tk)
    ensures ids == if text == [] then [] else PlainIds(tk, text)
    ensures back == if text == [] then [] else tk.nfc(text)
    ensures DecodeBytes(tk, ids, skip) == Return(Utf8.Encode(back)) && Utf8.Decode(Utf8.Encode(back)) == back
  {
    hide Loaded, DecodeBytes, Utf8.Decode, Utf8.Encode, PlainIds;
    SpecialChunks(tk, text, [], 0);
    var encoded := Encode(tk, text, []);
    ids := encoded.value;
    ghost var cs := ChunksFrom(tk, text, [], 0);
    RoundTrip(tk, cs, skip);
    if text != [] {
      assert cs == [Chunk(false, text)] && cs[1..] == [];
      assert Normalised(tk, cs, skip) == tk.nfc(text) + Normalised(tk, [], skip) == tk.nfc(text);
      assert AllIds(tk, cs) == PlainIds(tk, text) + AllIds(tk, []) == PlainIds(tk, text);
    }
    var d := Decode(tk, ids, skip);
    Utf8.DecodeEncode(if text == [] then [] else tk.nfc(text));
    back := d.value;
  }
}
