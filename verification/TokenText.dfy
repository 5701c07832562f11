/** tools/gen_html5lib_tok.py esc and serialize: the textual form of HTML token lists, and exactly
    which lists share one. Strings are the UTF-8 bytes the generator escapes. */
module TokenText {
  import opened Bits
  import opened Outcomes
  import opened Buffers

  type Str = seq<Byte>

  const BAR: Byte := 124
  const COMMA: Byte := 44
  const EQUALS: Byte := 61
  const PERCENT: Byte := 37
  const NEWLINE: Byte := 10

  // -------------------------------------------------------------------------- escaping --

  predicate Escaped(ch: Byte) {
    ch == BAR || ch == COMMA || ch == EQUALS || ch == PERCENT || ch < 0x20 || ch >= 0x7F
  }

  function Hex(n: nat): (c: Byte)
    requires n < 16
  {
    if n < 10 then 48 + n else 55 + n
  }

  function Unhex(c: Byte): (n: nat) { if c < 58 then (if c >= 48 then c - 48 else 0) else c - 55 }

  function EscByte(ch: Byte): (s: Str)
    ensures s != [] && Clean(s)
  {
    if Escaped(ch) then [PERCENT, Hex(ch / 16), Hex(ch % 16)] else [ch]
  }

  /** esc */
  function Esc(b: Str): (s: Str)
    ensures Clean(s)
  {
    if b == [] then [] else EscByte(b[0]) + Esc(b[1..])
  }

  /** No separator of any kind. */
  ghost predicate Clean(s: Str) {
    forall i :: 0 <= i < |s| ==> s[i] != BAR && s[i] != COMMA && s[i] != EQUALS && s[i] != NEWLINE
  }

  function Unesc(s: Str): (b: seq<nat>) {
    if s == [] then []
    else if s[0] == PERCENT && |s| >= 3 then [Unhex(s[1]) * 16 + Unhex(s[2])] + Unesc(s[3..])
    else [s[0]] + Unesc(s[1..])
  }

  lemma {:induction false} UnescEsc(b: Str)
    ensures Unesc(Esc(b)) == b
  {
    hide EscByte, Clean;
    if b != [] {
      hide Unesc;
      UnescEsc(b[1..]);
      UnescByte(b[0], Esc(b[1..]));
      assert b == [b[0]] + b[1..];
    }
  }

  lemma UnescByte(ch: Byte, rest: Str)
    ensures Unesc(EscByte(ch) + rest) == [ch] + Unesc(rest)
  {
    var e := EscByte(ch);
    assert (e + rest)[|e|..] == rest;
  }

  lemma EscInjective(a: Str, b: Str)
    ensures Esc(a) == Esc(b) <==> a == b
  {
    UnescEsc(a);
    UnescEsc(b);
  }

  // ---------------------------------------------------------------------------- cutting --

  ghost predicate Lacks(s: Str, sep: Byte) { forall i :: 0 <= i < |s| ==> s[i] != sep }

  /** Empty, or starting with the separator. */
  ghost predicate Ends(r: Str, sep: Byte) { r == [] || r[0] == sep }

  /** Position of the first separator, or the length. */
  function First(s: Str, sep: Byte): (n: nat)
    ensures n <= |s|
  {
    if s == [] || s[0] == sep then 0 else 1 + First(s[1..], sep)
  }

  lemma {:induction false} FirstIs(x: Str, r: Str, sep: Byte)
    requires Lacks(x, sep) && Ends(r, sep)
    ensures First(x + r, sep) == |x|
  {
    if x == [] {
      assert x + r == r;
    } else {
      assert (x + r)[1..] == x[1..] + r;
      FirstIs(x[1..], r, sep);
    }
  }

  /** A text is cut in one way at the first separator. */
  lemma CutUnique(x: Str, r: Str, y: Str, s: Str, sep: Byte)
    requires Lacks(x, sep) && Lacks(y, sep) && Ends(r, sep) && Ends(s, sep)
    ensures x + r == y + s <==> x == y && r == s
  {
    hide First;
    FirstIs(x, r, sep);
    FirstIs(y, s, sep);
    assert x == (x + r)[..|x|] && r == (x + r)[|x|..];
    assert y == (y + s)[..|y|] && s == (y + s)[|y|..];
  }

  /** The same with the separator written out. */
  lemma CutAt(x: Str, r: Str, y: Str, s: Str, sep: Byte)
    requires Lacks(x, sep) && Lacks(y, sep)
    ensures x + ([sep] + r) == y + ([sep] + s) <==> x == y && r == s
  {
    CutUnique(x, [sep] + r, y, [sep] + s, sep);
    assert ([sep] + r)[1..] == r && ([sep] + s)[1..] == s;
  }

  // ------------------------------------------------------------------------- attributes --

  datatype Attr = Attr(key: Str, value: Str)

  /** Lexicographic order. */
  predicate Less(a: Str, b: Str) {
    b != [] && (a == [] || a[0] < b[0] || (a[0] == b[0] && Less(a[1..], b[1..])))
  }

  lemma {:induction false} LessTotal(a: Str, b: Str)
    ensures Less(a, b) || a == b || Less(b, a)
    ensures !(Less(a, b) && Less(b, a)) && !Less(a, a)
  {
    if a != [] && b != [] {
      LessTotal(a[1..], b[1..]);
      if a[0] == b[0] && a[1..] == b[1..] {
        assert a == [a[0]] + a[1..] && b == [b[0]] + b[1..];
      }
    }
    if a != [] { LessTotal(a[1..], a[1..]); }
  }

  lemma {:induction false} LessTrans(a: Str, b: Str, c: Str)
    requires Less(a, b) && Less(b, c)
    ensures Less(a, c)
  {
    if a != [] && a[0] == b[0] && b[0] == c[0] { LessTrans(a[1..], b[1..], c[1..]); }
  }

  function AttrMap(attrs: seq<Attr>): (m: map<Str, Str>) {
    if attrs == [] then map[] else AttrMap(attrs[1..])[attrs[0].key := attrs[0].value]
  }

  /** The keys of a dictionary are distinct. */
  ghost predicate DistinctKeys(attrs: seq<Attr>) {
    attrs != [] ==> attrs[0].key !in AttrMap(attrs[1..]) && DistinctKeys(attrs[1..])
  }

  function Insert(x: Attr, attrs: seq<Attr>): (r: seq<Attr>) {
    if attrs == [] || Less(x.key, attrs[0].key) then [x] + attrs else [attrs[0]] + Insert(x, attrs[1..])
  }

  /** Attributes in order of their keys, which are distinct, so values never decide. */
  function Sorted(attrs: seq<Attr>): (r: seq<Attr>) {
    if attrs == [] then [] else Insert(attrs[0], Sorted(attrs[1..]))
  }

  ghost predicate Ascending(attrs: seq<Attr>) {
    attrs != [] ==> (forall k :: k in AttrMap(attrs[1..]) ==> Less(attrs[0].key, k)) && Ascending(attrs[1..])
  }

  lemma {:induction false} InsertAscending(x: Attr, attrs: seq<Attr>)
    requires Ascending(attrs) && x.key !in AttrMap(attrs)
    ensures Ascending(Insert(x, attrs)) && AttrMap(Insert(x, attrs)) == AttrMap(attrs)[x.key := x.value]
  {
    hide Less;
    if attrs == [] {
      assert [x] + attrs == [x] && [x][1..] == [];
    } else {
      var h, t := attrs[0], attrs[1..];
      LessTotal(x.key, h.key);
      if Less(x.key, h.key) {
        assert ([x] + attrs)[1..] == attrs;
        forall k | k in AttrMap(attrs) ensures Less(x.key, k) {
          if k != h.key { LessTrans(x.key, h.key, k); }
        }
      } else {
        InsertAscending(x, t);
        assert ([h] + Insert(x, t))[1..] == Insert(x, t);
      }
    }
  }

  lemma {:induction false} SortedAscending(attrs: seq<Attr>)
    requires DistinctKeys(attrs)
    ensures Ascending(Sorted(attrs)) && AttrMap(Sorted(attrs)) == AttrMap(attrs)
  {
    if attrs != [] {
      SortedAscending(attrs[1..]);
      InsertAscending(attrs[0], Sorted(attrs[1..]));
    }
  }

  /** An ascending list is determined by its map. */
  lemma {:induction false} AscendingUnique(a: seq<Attr>, b: seq<Attr>)
    requires Ascending(a) && Ascending(b) && AttrMap(a) == AttrMap(b)
    ensures a == b
  {
    hide Less;
    EmptyMap(a);
    EmptyMap(b);
    if a != [] {
      HeadsAgree(a, b);
      NotBelow(a);
      NotBelow(b);
      var k := a[0].key;
      assert AttrMap(a[1..]) == AttrMap(a) - {k} && AttrMap(b[1..]) == AttrMap(b) - {k};
      AscendingUnique(a[1..], b[1..]);
      assert AttrMap(a)[k] == a[0].value && AttrMap(b)[k] == b[0].value;
      assert a == [a[0]] + a[1..] && b == [b[0]] + b[1..];
    }
  }

  lemma EmptyMap(a: seq<Attr>)
    ensures AttrMap(a) == map[] <==> a == []
  {
    if a != [] { assert a[0].key in AttrMap(a); }
  }

  lemma HeadsAgree(a: seq<Attr>, b: seq<Attr>)
    requires Ascending(a) && Ascending(b) && AttrMap(a) == AttrMap(b) && a != [] && b != []
    ensures a[0].key == b[0].key
  {
    hide Less;
    assert a[0].key in AttrMap(b) && b[0].key in AttrMap(a);
    LessTotal(a[0].key, b[0].key);
  }

  lemma NotBelow(a: seq<Attr>)
    requires Ascending(a) && a != []
    ensures a[0].key !in AttrMap(a[1..])
  {
    hide Less;
    LessTotal(a[0].key, a[0].key);
  }

  function AttrText(x: Attr): (s: Str)
    ensures s != []
  {
    Esc(x.key) + ([EQUALS] + Esc(x.value))
  }

  /** All attributes, separated by commas. */
  function AttrsText(attrs: seq<Attr>): (s: Str) {
    if attrs == [] then [] else AttrText(attrs[0]) + MoreAttrs(attrs[1..])
  }

  function MoreAttrs(attrs: seq<Attr>): (s: Str)
    decreases attrs, 1
  {
    if attrs == [] then [] else [COMMA] + (AttrText(attrs[0]) + MoreAttrs(attrs[1..]))
  }

  lemma AttrTextInjective(x: Attr, y: Attr)
    ensures AttrText(x) == AttrText(y) <==> x == y
    ensures Lacks(AttrText(x), COMMA) && Lacks(AttrText(x), BAR) && Lacks(AttrText(x), NEWLINE)
  {
    hide Esc;
    CutAt(Esc(x.key), Esc(x.value), Esc(y.key), Esc(y.value), EQUALS);
    EscInjective(x.key, y.key);
    EscInjective(x.value, y.value);
  }

  lemma {:induction false} MoreInjective(a: seq<Attr>, b: seq<Attr>)
    ensures MoreAttrs(a) == MoreAttrs(b) <==> a == b
    decreases |a|
  {
    hide AttrText;
    if a != [] && b != [] {
      var x, y, r, s := AttrText(a[0]), AttrText(b[0]), MoreAttrs(a[1..]), MoreAttrs(b[1..]);
      AttrTextInjective(a[0], b[0]);
      AttrTextInjective(b[0], a[0]);
      CutUnique(x, r, y, s, COMMA);
      MoreInjective(a[1..], b[1..]);
      assert ([COMMA] + (x + r))[1..] == x + r && ([COMMA] + (y + s))[1..] == y + s;
      assert a == [a[0]] + a[1..] && b == [b[0]] + b[1..];
    }
  }

  lemma AttrsInjective(a: seq<Attr>, b: seq<Attr>)
    ensures AttrsText(a) == AttrsText(b) <==> a == b
  {
    hide AttrText;
    if a != [] && b != [] {
      AttrTextInjective(a[0], b[0]);
      AttrTextInjective(b[0], a[0]);
      CutUnique(AttrText(a[0]), MoreAttrs(a[1..]), AttrText(b[0]), MoreAttrs(b[1..]), COMMA);
      MoreInjective(a[1..], b[1..]);
      assert a == [a[0]] + a[1..] && b == [b[0]] + b[1..];
    }
  }

  lemma {:induction false} AttrsLack(attrs: seq<Attr>)
    ensures Lacks(MoreAttrs(attrs), BAR) && Lacks(AttrsText(attrs), BAR)
    ensures Lacks(MoreAttrs(attrs), NEWLINE) && Lacks(AttrsText(attrs), NEWLINE)
  {
    hide AttrText;
    if attrs != [] {
      AttrTextInjective(attrs[0], attrs[0]);
      AttrsLack(attrs[1..]);
    }
  }

  /** The text of a tag's attributes depends on them as a map, and determines that map. */
  lemma AttrsAsMap(a: seq<Attr>, b: seq<Attr>)
    requires DistinctKeys(a) && DistinctKeys(b)
    ensures AttrsText(Sorted(a)) == AttrsText(Sorted(b)) <==> AttrMap(a) == AttrMap(b)
  {
    hide AttrsText, Sorted, Ascending;
    SortedAscending(a);
    SortedAscending(b);
    AttrsInjective(Sorted(a), Sorted(b));
    if AttrMap(a) == AttrMap(b) { AscendingUnique(Sorted(a), Sorted(b)); }
  }

  // ------------------------------------------------------------------------------ tokens --

  datatype Token =
    | Doctype(root: Option<Str>, pub: Option<Str>, sys: Option<Str>, correct: bool)
    | StartTag(name: Str, attrs: seq<Attr>, selfClosing: bool)
    | EndTag(name: Str)
    | Comment(data: Str)
    | Character(data: Str)

  const NONE: Str := [PERCENT, 48, 48]

  function FieldText(f: Option<Str>): (s: Str)
    ensures Clean(s)
  {
    if f.None? then NONE else Esc(f.value)
  }

  function Digit(b: bool): (s: Str) { if b then [49] else [48] }

  /** The tag letter, then the fields separated by bars. */
  function LineOf(t: Token): (s: Str) {
    match t
    case Doctype(name, pub, sys, correct) =>
      [68, BAR] + (FieldText(name) + ([BAR] + (FieldText(pub)
                + ([BAR] + (FieldText(sys) + ([BAR] + Digit(!correct)))))))
    case StartTag(name, attrs, selfClosing) =>
      [83, BAR] + (Esc(name) + ([BAR] + (AttrsText(Sorted(attrs)) + ([BAR] + Digit(selfClosing)))))
    case EndTag(name) => [69, BAR] + Esc(name)
    case Comment(data) => [67, BAR] + Esc(data)
    case Character(data) => [84, BAR] + Esc(data)
  }

  /** What a line can tell apart: attributes as a map, and a doctype field that is the single NUL
      character looks like an absent one. */
  datatype Shape =
    | DoctypeS(root: Option<Str>, pub: Option<Str>, sys: Option<Str>, correct: bool)
    | StartS(name: Str, attrs: map<Str, Str>, selfClosing: bool)
    | EndS(name: Str)
    | CommentS(data: Str)
    | CharacterS(data: Str)

  function Blur(f: Option<Str>): (r: Option<Str>) { if f == Some([0]) then None else f }

  function ShapeOf(t: Token): (s: Shape) {
    match t
    case Doctype(name, pub, sys, correct) => DoctypeS(Blur(name), Blur(pub), Blur(sys), correct)
    case StartTag(name, attrs, selfClosing) => StartS(name, AttrMap(attrs), selfClosing)
    case EndTag(name) => EndS(name)
    case Comment(data) => CommentS(data)
    case Character(data) => CharacterS(data)
  }

  ghost predicate TokenOk(t: Token) { t.StartTag? ==> DistinctKeys(t.attrs) }

  lemma NulText()
    ensures Esc([0]) == NONE
  {
    assert [0][1..] == [] && EscByte(0) == [PERCENT, 48, 48];
    assert Esc([]) == [];
  }

  lemma FieldInjective(f: Option<Str>, g: Option<Str>)
    ensures FieldText(f) == FieldText(g) <==> Blur(f) == Blur(g)
  {
    hide Esc;
    NulText();
    if f.Some? {
      EscInjective(f.value, [0]);
      if g.Some? { EscInjective(f.value, g.value); }
    }
    if g.Some? { EscInjective(g.value, [0]); }
  }

  lemma DoctypeLines(a: Token, b: Token)
    requires a.Doctype? && b.Doctype?
    ensures LineOf(a) == LineOf(b) <==> ShapeOf(a) == ShapeOf(b)
  {
    hide FieldText, Blur;
    var a3, b3 := [BAR] + Digit(!a.correct), [BAR] + Digit(!b.correct);
    var a2, b2 := FieldText(a.sys) + a3, FieldText(b.sys) + b3;
    var a1, b1 := FieldText(a.pub) + ([BAR] + a2), FieldText(b.pub) + ([BAR] + b2);
    AfterTag(68, FieldText(a.root) + ([BAR] + a1), FieldText(b.root) + ([BAR] + b1));
    CutAt(FieldText(a.root), a1, FieldText(b.root), b1, BAR);
    CutAt(FieldText(a.pub), a2, FieldText(b.pub), b2, BAR);
    CutAt(FieldText(a.sys), Digit(!a.correct), FieldText(b.sys), Digit(!b.correct), BAR);
    FieldInjective(a.root, b.root);
    FieldInjective(a.pub, b.pub);
    FieldInjective(a.sys, b.sys);
  }

  lemma AfterTag(c: Byte, x: Str, y: Str)
    ensures [c, BAR] + x == [c, BAR] + y <==> x == y
  {
    assert ([c, BAR] + x)[2..] == x && ([c, BAR] + y)[2..] == y;
  }

  lemma StartLines(a: Token, b: Token)
    requires a.StartTag? && b.StartTag? && TokenOk(a) && TokenOk(b)
    ensures LineOf(a) == LineOf(b) <==> ShapeOf(a) == ShapeOf(b)
  {
    hide Esc, AttrsText, Sorted, AttrMap;
    var x, y := AttrsText(Sorted(a.attrs)), AttrsText(Sorted(b.attrs));
    var a1, b1 := x + ([BAR] + Digit(a.selfClosing)), y + ([BAR] + Digit(b.selfClosing));
    AfterTag(83, Esc(a.name) + ([BAR] + a1), Esc(b.name) + ([BAR] + b1));
    CutAt(Esc(a.name), a1, Esc(b.name), b1, BAR);
    AttrsLack(Sorted(a.attrs));
    AttrsLack(Sorted(b.attrs));
    CutAt(x, Digit(a.selfClosing), y, Digit(b.selfClosing), BAR);
    EscInjective(a.name, b.name);
    AttrsAsMap(a.attrs, b.attrs);
  }

  /** Two tokens have the same line exactly when they have the same shape. */
  lemma LineInjective(a: Token, b: Token)
    requires TokenOk(a) && TokenOk(b)
    ensures LineOf(a) == LineOf(b) <==> ShapeOf(a) == ShapeOf(b)
  {
    if a.Doctype? && b.Doctype? {
      DoctypeLines(a, b);
    } else if a.StartTag? && b.StartTag? {
      StartLines(a, b);
    } else if a.EndTag? && b.EndTag? {
      SimpleLines(69, a.name, b.name);
    } else if a.Comment? && b.Comment? {
      SimpleLines(67, a.data, b.data);
    } else if a.Character? && b.Character? {
      SimpleLines(84, a.data, b.data);
    } else {
      hide Esc, AttrsText, Sorted, FieldText, AttrMap, Blur;
      assert LineOf(a)[0] != LineOf(b)[0];
    }
  }

  lemma SimpleLines(c: Byte, x: Str, y: Str)
    ensures [c, BAR] + Esc(x) == [c, BAR] + Esc(y) <==> x == y
  {
    hide Esc;
    AfterTag(c, Esc(x), Esc(y));
    EscInjective(x, y);
  }

  lemma LineLacks(t: Token)
    ensures Lacks(LineOf(t), NEWLINE)
  {
    hide Esc, AttrsText, Sorted, FieldText;
    if t.StartTag? { AttrsLack(Sorted(t.attrs)); }
  }

  // ------------------------------------------------------------------------- whole lists --

  /** Adjacent character tokens made one. */
  function Coalesce(ts: seq<Token>): (r: seq<Token>)
    ensures |r| <= |ts|
    decreases |ts|
  {
    if |ts| < 2 then ts
    else if ts[0].Character? && ts[1].Character? then Coalesce([Character(ts[0].data + ts[1].data)] + ts[2..])
    else [ts[0]] + Coalesce(ts[1..])
  }

  /** One line per token. */
  function Lines(ts: seq<Token>): (s: Str) {
    if ts == [] then [] else LineOf(ts[0]) + ([NEWLINE] + Lines(ts[1..]))
  }

  function Shapes(ts: seq<Token>): (r: seq<Shape>) {
    if ts == [] then [] else [ShapeOf(ts[0])] + Shapes(ts[1..])
  }

  ghost predicate AllTokensOk(ts: seq<Token>) { forall i :: 0 <= i < |ts| ==> TokenOk(ts[i]) }

  lemma {:induction false} LinesInjective(a: seq<Token>, b: seq<Token>)
    requires AllTokensOk(a) && AllTokensOk(b)
    ensures Lines(a) == Lines(b) <==> Shapes(a) == Shapes(b)
    decreases |a|
  {
    hide LineOf, ShapeOf, TokenOk;
    if a != [] && b != [] {
      LineInjective(a[0], b[0]);
      LineLacks(a[0]);
      LineLacks(b[0]);
      CutAt(LineOf(a[0]), Lines(a[1..]), LineOf(b[0]), Lines(b[1..]), NEWLINE);
      LinesInjective(a[1..], b[1..]);
      assert Shapes(a)[0] == ShapeOf(a[0]) && Shapes(b)[0] == ShapeOf(b[0]);
      assert Shapes(a)[1..] == Shapes(a[1..]) && Shapes(b)[1..] == Shapes(b[1..]);
    }
  }

  lemma {:induction false} CoalesceOk(ts: seq<Token>)
    requires AllTokensOk(ts)
    ensures AllTokensOk(Coalesce(ts))
    decreases |ts|
  {
    hide DistinctKeys;
    if |ts| >= 2 {
      if ts[0].Character? && ts[1].Character? {
        CoalesceOk([Character(ts[0].data + ts[1].data)] + ts[2..]);
      } else {
        CoalesceOk(ts[1..]);
      }
    }
  }

  /** Two token lists have the same text exactly when they agree after coalescing characters, taking
      attributes as maps and not telling a lone-NUL doctype field from an absent one. */
  lemma SerializeInjective(a: seq<Token>, b: seq<Token>)
    requires AllTokensOk(a) && AllTokensOk(b)
    ensures Lines(Coalesce(a)) == Lines(Coalesce(b)) <==> Shapes(Coalesce(a)) == Shapes(Coalesce(b))
  {
    hide Lines, Shapes, Coalesce, AllTokensOk;
    CoalesceOk(a);
    CoalesceOk(b);
    LinesInjective(Coalesce(a), Coalesce(b));
  }

  /** The collision: a doctype named by one NUL character and a doctype without a name. */
  lemma NulCollides()
    ensures var a, b := Doctype(Some([0]), None, None, true), Doctype(None, None, None, true);
      a != b && Lines([a]) == Lines([b])
  {
    hide Esc;
    NulText();
    var a, b := Doctype(Some([0]), None, None, true), Doctype(None, None, None, true);
    assert [a][1..] == [] && [b][1..] == [];
    assert LineOf(a) == LineOf(b);
  }

  /** serialize: pending text is written when another token comes; out lists the tokens written. */
  method Serialize(ts: seq<Token>) returns (text: Str)
    ensures text == Lines(Coalesce(ts))
  {
    hide LineOf, Lines, Coalesce;
    ghost var out: seq<Token> := [];
    var pending: Option<Str> := None;
    text := [];
    NothingYet(ts);
    assert ts[0..] == ts;
    for k := 0 to |ts|
      invariant text == Lines(out)
      invariant out + Coalesce(Held(pending) + ts[k..]) == Coalesce(ts)
    {
      assert ts[k..] == [ts[k]] + ts[k + 1..];
      if ts[k].Character? {
        MergePending(pending, ts[k].data, ts[k + 1..]);
        pending := Some((if pending.Some? then pending.value else []) + ts[k].data);
      } else {
        if pending.Some? {
          FlushPending(pending.value, ts[k], ts[k + 1..]);
          LinesSnoc(out, Character(pending.value));
          text := text + (LineOf(Character(pending.value)) + [NEWLINE]);
          ConcatAssoc(out, [Character(pending.value)], Coalesce([ts[k]] + ts[k + 1..]));
          out := out + [Character(pending.value)];
          pending := None;
        }
        assert Held(pending) + ts[k..] == [ts[k]] + ts[k + 1..];
        TakeOther(ts[k], ts[k + 1..]);
        LinesSnoc(out, ts[k]);
        text := text + (LineOf(ts[k]) + [NEWLINE]);
        ConcatAssoc(out, [ts[k]], Coalesce(ts[k + 1..]));
        out := out + [ts[k]];
        assert Held(pending) + ts[k + 1..] == ts[k + 1..];
      }
    }
    assert ts[|ts|..] == [];
    FinalFlush(pending);
    if pending.Some? {
      LinesSnoc(out, Character(pending.value));
      text := text + (LineOf(Character(pending.value)) + [NEWLINE]);
      out := out + [Character(pending.value)];
    } else {
      assert out + [] == out;
    }
  }

  /** The text not yet written, as a token. */
  function Held(pending: Option<Str>): (r: seq<Token>) { if pending.None? then [] else [Character(pending.value)] }

  lemma NothingYet(ts: seq<Token>)
    ensures Lines([]) == [] && [] + Coalesce(Held(None) + ts) == Coalesce(ts)
  {
    assert Held(None) + ts == ts;
  }

  lemma MergePending(pending: Option<Str>, data: Str, rest: seq<Token>)
    ensures var joined := (if pending.Some? then pending.value else []) + data;
      Coalesce(Held(pending) + ([Character(data)] + rest)) == Coalesce(Held(Some(joined)) + rest)
  {
    var ts := Held(pending) + ([Character(data)] + rest);
    if pending.Some? {
      assert ts[0] == Character(pending.value) && ts[1] == Character(data) && ts[2..] == rest;
    } else {
      assert [] + data == data && ts == [Character(data)] + rest;
    }
  }

  lemma FlushPending(data: Str, t: Token, rest: seq<Token>)
    requires !t.Character?
    ensures Coalesce(Held(Some(data)) + ([t] + rest)) == [Character(data)] + Coalesce([t] + rest)
  {
    var ts := Held(Some(data)) + ([t] + rest);
    assert ts[0] == Character(data) && ts[1] == t && ts[1..] == [t] + rest;
  }

  lemma TakeOther(t: Token, rest: seq<Token>)
    requires !t.Character?
    ensures Coalesce([t] + rest) == [t] + Coalesce(rest)
  {
    assert ([t] + rest)[1..] == rest;
  }

  lemma FinalFlush(pending: Option<Str>)
    ensures Coalesce(Held(pending) + []) == Held(pending)
  {
    assert Held(pending) + [] == Held(pending);
  }

  lemma {:induction false} LinesSnoc(ts: seq<Token>, t: Token)
    ensures Lines(ts + [t]) == Lines(ts) + (LineOf(t) + [NEWLINE])
  {
    hide LineOf;
    if ts == [] {
      assert ts + [t] == [t] && [t][1..] == [];
      ConcatAssoc([], [], LineOf(t) + [NEWLINE]);
    } else {
      assert (ts + [t])[1..] == ts[1..] + [t];
      LinesSnoc(ts[1..], t);
      var end := LineOf(t) + [NEWLINE];
      ConcatAssoc([NEWLINE], Lines(ts[1..]), end);
      ConcatAssoc(LineOf(ts[0]), [NEWLINE] + Lines(ts[1..]), end);
    }
  }
}
