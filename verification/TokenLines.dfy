/** tools/gen_html5lib_tok.py, the text of a token list byte by byte: what is escaped and how, each kind of
    line, the order of attributes and the joining of character tokens. */
module TokenLines {
  import opened Bits
  import opened Outcomes
  import opened TokenText

  // -------------------------------------------------------------------------- escaping --

  /** "0123456789ABCDEF" */
  const DIGITS: seq<Byte> := [48, 49, 50, 51, 52, 53, 54, 55, 56, 57, 65, 66, 67, 68, 69, 70]

  /** One byte: the four separators, control characters and everything from 127 on as % and two upper-case
      digits, the rest as it is. */
  lemma EscIs(ch: Byte)
    ensures Esc([ch]) == if ch == 124 || ch == 44 || ch == 61 || ch == 37 || ch <= 31 || 127 <= ch
                         then [37, DIGITS[ch / 16], DIGITS[ch % 16]] else [ch]
  {
    assert [ch][1..] == [] && Esc([]) == [];
    HexIs(ch / 16);
    HexIs(ch % 16);
  }

  lemma HexIs(n: nat)
    requires n < 16
    ensures Hex(n) == DIGITS[n]
  {}

  lemma {:induction false} EscAppend(a: Str, b: Str)
    ensures Esc(a + b) == Esc(a) + Esc(b)
  {
    hide EscByte, Clean;
    if a == [] {
      assert a + b == b;
    } else {
      assert (a + b)[1..] == a[1..] + b;
      EscAppend(a[1..], b);
    }
  }

  // ------------------------------------------------------------------------------ lines --

  /** An absent field is "%00". */
  ghost function FieldOr(f: Option<Str>): (s: Str) {
    if f.None? then [37, 48, 48] else Esc(f.value)
  }

  /** "D|name|public|system|0 or 1", 1 when it forces quirks; "S|name|attributes|0 or 1", 1 when
      self-closing; "E|name", "C|text", "T|text". */
  lemma LineIs(t: Token)
    ensures LineOf(t) == match t
      case Doctype(name, pub, sys, correct) =>
        [68, 124] + (FieldOr(name) + ([124] + (FieldOr(pub)
                  + ([124] + (FieldOr(sys) + [124, if correct then 48 else 49])))))
      case StartTag(name, attrs, selfClosing) =>
        [83, 124] + (Esc(name) + ([124] + (AttrsText(Sorted(attrs)) + [124, if selfClosing then 49 else 48])))
      case EndTag(name) => [69, 124] + Esc(name)
      case Comment(data) => [67, 124] + Esc(data)
      case Character(data) => [84, 124] + Esc(data)
  {
    hide Esc, AttrsText, Sorted;
    match t
    case Doctype(name, pub, sys, correct) =>
      assert [BAR] + Digit(!correct) == [124, if correct then 48 else 49];
    case StartTag(_, _, selfClosing) =>
      assert [BAR] + Digit(selfClosing) == [124, if selfClosing then 49 else 48];
    case _ =>
  }

  /** Every line ends in a line feed. */
  lemma LinesIs(ts: seq<Token>)
    ensures Lines([]) == []
    ensures ts != [] ==> Lines(ts) == LineOf(ts[0]) + [10] + Lines(ts[1..])
  {
    hide LineOf;
  }

  // ------------------------------------------------------------------------- attributes --

  /** key=value, separated by commas. */
  lemma AttrsIs(a: seq<Attr>)
    ensures AttrsText([]) == []
    ensures |a| == 1 ==> AttrsText(a) == Esc(a[0].key) + [61] + Esc(a[0].value)
    ensures |a| > 1 ==> AttrsText(a) == Esc(a[0].key) + [61] + Esc(a[0].value) + [44] + AttrsText(a[1..])
  {
    hide Esc;
    if |a| == 1 {
      assert a[1..] == [] && MoreAttrs([]) == [];
    } else if |a| > 1 {
      assert MoreAttrs(a[1..]) == [44] + (AttrText(a[1]) + MoreAttrs(a[1..][1..]));
    }
  }

  /** The order of keys: at the first difference the smaller byte, or the end, comes first. */
  lemma {:induction false} LessIs(a: Str, b: Str)
    ensures Less(a, b) <==> FirstDiffers(a, b)
    decreases |a|
  {
    if a != [] && b != [] {
      LessIs(a[1..], b[1..]);
      if a[0] == b[0] { Further(a, b); }
      if FirstDiffers(a, b) && a[0] != b[0] {
        var i: nat :| DiffersAt(a, b, i);
        assert forall j :: 0 <= j < i ==> a[j] == a[..i][j] == b[..i][j] == b[j];
      }
      if a[0] < b[0] { assert DiffersAt(a, b, 0); }
    } else {
      if a == [] && b != [] { assert DiffersAt(a, b, 0); }
    }
  }

  ghost predicate DiffersAt(a: Str, b: Str, i: nat) {
    i <= |a| && i < |b| && a[..i] == b[..i] && (i == |a| || a[i] < b[i])
  }

  ghost predicate FirstDiffers(a: Str, b: Str) { exists i: nat :: DiffersAt(a, b, i) }

  lemma Further(a: Str, b: Str)
    requires a != [] && b != [] && a[0] == b[0]
    ensures FirstDiffers(a, b) <==> FirstDiffers(a[1..], b[1..])
  {
    if FirstDiffers(a, b) {
      var i: nat :| DiffersAt(a, b, i);
      assert i > 0;
      assert a[1..][..i - 1] == a[..i][1..] && b[1..][..i - 1] == b[..i][1..];
      assert DiffersAt(a[1..], b[1..], i - 1);
    }
    if FirstDiffers(a[1..], b[1..]) {
      var i: nat :| DiffersAt(a[1..], b[1..], i);
      assert a[..i + 1] == [a[0]] + a[1..][..i] && b[..i + 1] == [b[0]] + b[1..][..i];
      assert DiffersAt(a, b, i + 1);
    }
  }

  // ------------------------------------------------------------------- joined characters --

  /** The data of tokens one after the other. */
  ghost function AllData(ts: seq<Token>): (s: Str)
    requires forall i :: 0 <= i < |ts| ==> ts[i].Character?
  {
    if ts == [] then [] else ts[0].data + AllData(ts[1..])
  }

  /** A run of character tokens becomes one with all their text. */
  lemma {:induction false} CoalesceRun(ts: seq<Token>)
    requires ts != [] && forall i :: 0 <= i < |ts| ==> ts[i].Character?
    ensures Coalesce(ts) == [Character(AllData(ts))]
    decreases |ts|
  {
    if |ts| == 1 {
      assert ts[1..] == [] && ts == [ts[0]] && ts[0].data + [] == ts[0].data;
    } else {
      var rest := ts[2..];
      var joined := [Character(ts[0].data + ts[1].data)] + rest;
      CoalesceRun(joined);
      DataCons(joined[0], rest);
      DataCons(ts[1], rest);
      assert ts[1..] == [ts[1]] + rest;
      Regrouped(ts[0].data, ts[1].data, AllData(rest));
    }
  }

  lemma DataCons(t: Token, rest: seq<Token>)
    requires t.Character? && forall i :: 0 <= i < |rest| ==> rest[i].Character?
    ensures AllData([t] + rest) == t.data + AllData(rest)
  {
    assert ([t] + rest)[1..] == rest;
  }

  lemma JoinStep(ts: seq<Token>)
    requires |ts| >= 2 && ts[0].Character? && ts[1].Character?
    ensures Coalesce(ts) == Coalesce(Joined(ts))
  {}

  /** The first two tokens made one. */
  ghost function Joined(ts: seq<Token>): (r: seq<Token>)
    requires |ts| >= 2 && ts[0].Character? && ts[1].Character?
    ensures |r| == |ts| - 1 && forall i :: 1 <= i < |r| ==> r[i] == ts[i + 1]
  {
    [Character(ts[0].data + ts[1].data)] + ts[2..]
  }

  lemma KeepStep(ts: seq<Token>)
    requires ts != [] && (|ts| == 1 || !ts[0].Character? || !ts[1].Character?)
    ensures Coalesce(ts) == [ts[0]] + Coalesce(ts[1..])
  {
    if |ts| == 1 { assert ts[1..] == []; }
  }

  /** Any other token stays, and separates what is joined. */
  lemma {:induction false} CoalesceSplit(ts: seq<Token>, k: nat)
    requires k < |ts| && !ts[k].Character?
    ensures Coalesce(ts) == Coalesce(ts[..k]) + ([ts[k]] + Coalesce(ts[k + 1..]))
    decreases |ts|
  {
    hide Coalesce, Joined;
    var a := ts[..k];
    if k == 0 {
      NoTokens();
      KeepStep(ts);
    } else if ts[0].Character? && ts[1].Character? {
      var joined := Joined(ts);
      JoinStep(ts);
      JoinStep(a);
      CoalesceSplit(joined, k - 1);
      JoinedFront(ts, k);
      assert joined[k..] == ts[k + 1..];
    } else {
      KeepStep(ts);
      KeepStep(a);
      CoalesceSplit(ts[1..], k - 1);
      assert ts[1..][..k - 1] == a[1..] && ts[1..][k..] == ts[k + 1..];
      Regrouped([ts[0]], Coalesce(a[1..]), [ts[k]] + Coalesce(ts[k + 1..]));
    }
  }

  lemma NoTokens()
    ensures Coalesce([]) == []
  {}

  lemma Regrouped<T>(a: seq<T>, b: seq<T>, c: seq<T>)
    ensures a + (b + c) == a + b + c
  {}

  lemma JoinedFront(ts: seq<Token>, k: nat)
    requires 2 <= k < |ts| && ts[0].Character? && ts[1].Character?
    ensures Joined(ts)[..k - 1] == Joined(ts[..k])
  {}
}
