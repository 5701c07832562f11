/** UTF-8 as the tokenizer uses it (str.encode, bytearray.decode): encoding is character by
    character, decoding replaces what is malformed, and decoding an encoding gives the text back. */
module Utf8 {
  import opened Bits

  /** Unicode scalar values. */
  type Char = c: nat | c < 0x110000 && !(0xD800 <= c < 0xE000)
  type Text = seq<Char>

  function EncodeChar(c: Char): (b: seq<Byte>)
    ensures 1 <= |b| <= 4
  {
    if c < 0x80 then [c]
    else if c < 0x800 then [0xC0 + c / 64, 0x80 + c % 64]
    else if c < 0x10000 then [0xE0 + c / 64 / 64, 0x80 + c / 64 % 64, 0x80 + c % 64]
    else [0xF0 + c / 64 / 64 / 64, 0x80 + c / 64 / 64 % 64, 0x80 + c / 64 % 64, 0x80 + c % 64]
  }

  function Encode(t: Text): (b: seq<Byte>)
    ensures |t| <= |b|
  {
    if t == [] then [] else EncodeChar(t[0]) + Encode(t[1..])
  }

  /** Bytes that start a character. */
  predicate IsLead(b: Byte) { b < 0x80 || 0xC2 <= b <= 0xF4 }

  /** How many bytes follow the first. */
  function Trailing(lead: Byte): (n: nat)
    ensures n <= 3
  {
    if lead < 0x80 then 0 else if lead < 0xE0 then 1 else if lead < 0xF0 then 2 else 3
  }

  /** Can x be byte k of a sequence? The second byte rules out overlong forms, surrogates and values
      beyond the last plane. */
  predicate Follows(lead: Byte, k: nat, x: Byte) {
    if k == 1 then
      (if lead == 0xE0 then 0xA0 else if lead == 0xF0 then 0x90 else 0x80) <= x
      <= (if lead == 0xED then 0x9F else if lead == 0xF4 then 0x8F else 0xBF)
    else 0x80 <= x <= 0xBF
  }

  /** Length of the longest start of b that starts some sequence, from its first k bytes on. */
  function Matched(b: seq<Byte>, k: nat): (n: nat)
    requires b != [] && IsLead(b[0]) && 1 <= k <= |b| && k <= Trailing(b[0]) + 1
    ensures k <= n <= |b| && n <= Trailing(b[0]) + 1
    ensures forall i :: k <= i < n ==> Follows(b[0], i, b[i])
    decreases |b| - k
  {
    if k == |b| || k > Trailing(b[0]) || !Follows(b[0], k, b[k]) then k else Matched(b, k + 1)
  }

  /** The value of one sequence of 1 to 4 bytes. */
  function CharOf(b: seq<int>): (v: int)
    requires 1 <= |b| <= 4
  {
    if |b| == 1 then b[0]
    else if |b| == 2 then (b[0] - 0xC0) * 64 + (b[1] - 0x80)
    else if |b| == 3 then ((b[0] - 0xE0) * 64 + (b[1] - 0x80)) * 64 + (b[2] - 0x80)
    else (((b[0] - 0xF0) * 64 + (b[1] - 0x80)) * 64 + (b[2] - 0x80)) * 64 + (b[3] - 0x80)
  }

  const REPLACEMENT: Char := 0xFFFD

  /** A complete sequence is a character. */
  lemma Complete(b: seq<Byte>)
    requires b != [] && IsLead(b[0]) && |b| == Trailing(b[0]) + 1 && forall i :: 1 <= i < |b| ==> Follows(b[0], i, b[i])
    ensures 0 <= CharOf(b) < 0x110000 && !(0xD800 <= CharOf(b) < 0xE000)
  {
    if |b| > 1 { assert Follows(b[0], 1, b[1]); }
    if |b| > 2 { assert Follows(b[0], 2, b[2]); }
    if |b| > 3 { assert Follows(b[0], 3, b[3]); }
  }

  /** Decoding with replacement: each byte that cannot start a character, and each longest start of a
      sequence that goes wrong, becomes one replacement character. */
  function Decode(b: seq<Byte>): (t: Text)
    decreases |b|
  {
    if b == [] then []
    else if !IsLead(b[0]) then [REPLACEMENT] + Decode(b[1..])
    else
      var n := Matched(b, 1);
      if n <= Trailing(b[0]) then [REPLACEMENT] + Decode(b[n..])
      else
        Complete(b[..n]);
        [CharOf(b[..n])] + Decode(b[n..])
  }

  lemma OneChar(c: Char)
    ensures var b := EncodeChar(c);
      && IsLead(b[0]) && |b| == Trailing(b[0]) + 1 && CharOf(b) == c
      && forall i :: 1 <= i < |b| ==> Follows(b[0], i, b[i])
  {}

  lemma {:induction false} MatchedAll(b: seq<Byte>, k: nat)
    requires b != [] && IsLead(b[0]) && 1 <= k <= Trailing(b[0]) + 1 <= |b|
    requires forall i :: k <= i <= Trailing(b[0]) ==> Follows(b[0], i, b[i])
    ensures Matched(b, k) == Trailing(b[0]) + 1
    decreases |b| - k
  {
    if k <= Trailing(b[0]) { MatchedAll(b, k + 1); }
  }

  /** Decoding the encoding of a text gives the text, without replacements. */
  lemma {:induction false} DecodeEncode(t: Text)
    ensures Decode(Encode(t)) == t
  {
    hide EncodeChar, CharOf, Follows, Trailing, IsLead;
    if t != [] {
      var b, x := Encode(t), EncodeChar(t[0]);
      OneChar(t[0]);
      assert b[..|x|] == x && b[0] == x[0] && b[|x|..] == Encode(t[1..]);
      assert forall i :: 0 <= i < |x| ==> b[i] == x[i];
      MatchedAll(b, 1);
      DecodeEncode(t[1..]);
      assert t == [t[0]] + t[1..];
    }
  }

  /** Encoding pieces one by one gives the encoding of the whole. */
  lemma {:induction false} EncodeConcat(s: Text, t: Text)
    ensures Encode(s + t) == Encode(s) + Encode(t)
  {
    hide EncodeChar;
    if s == [] {
      assert s + t == t;
    } else {
      assert (s + t)[1..] == s[1..] + t;
      EncodeConcat(s[1..], t);
    }
  }

  // ------------------------------------------------------- what is replaced, by encodings --

  /** A start of a sequence, byte by byte. */
  ghost predicate Begins(x: seq<Byte>) {
    x != [] && IsLead(x[0]) && |x| <= Trailing(x[0]) + 1 && forall i :: 1 <= i < |x| ==> Follows(x[0], i, x[i])
  }

  lemma Digits(q: int, r: int)
    requires 0 <= q && 0 <= r < 64
    ensures (q * 64 + r) / 64 == q && (q * 64 + r) % 64 == r
  {}

  /** A complete sequence is the encoding of its value. */
  lemma Inverse(b: seq<Byte>)
    requires Begins(b) && |b| == Trailing(b[0]) + 1
    ensures 0 <= CharOf(b) < 0x110000 && !(0xD800 <= CharOf(b) < 0xE000) && EncodeChar(CharOf(b)) == b
  {
    hide EncodeChar, CharOf;
    Complete(b);
    if |b| == 1 { Inverse1(b); }
    else if |b| == 2 { Inverse2(b); }
    else if |b| == 3 { Inverse3(b); }
    else { Inverse4(b); }
  }

  lemma Inverse1(b: seq<Byte>)
    requires |b| == 1 && b[0] < 0x80
    ensures EncodeChar(CharOf(b)) == b
  {}

  lemma Inverse2(b: seq<Byte>)
    requires |b| == 2 && 0xC2 <= b[0] < 0xE0 && Follows(b[0], 1, b[1])
    ensures 0 <= CharOf(b) < 0x800 && EncodeChar(CharOf(b)) == b
  {
    var p: int, q: int := b[0] - 0xC0, b[1] - 0x80;
    Digits(p, q);
  }

  lemma Inverse3(b: seq<Byte>)
    requires |b| == 3 && 0xE0 <= b[0] < 0xF0 && Follows(b[0], 1, b[1]) && Follows(b[0], 2, b[2])
    requires 0 <= CharOf(b) < 0x110000 && !(0xD800 <= CharOf(b) < 0xE000)
    ensures EncodeChar(CharOf(b)) == b
  {
    var p: int, q: int, r: int := b[0] - 0xE0, b[1] - 0x80, b[2] - 0x80;
    Digits(p * 64 + q, r);
    Digits(p, q);
  }

  lemma Inverse4(b: seq<Byte>)
    requires |b| == 4 && 0xF0 <= b[0] <= 0xF4 && Follows(b[0], 1, b[1]) && Follows(b[0], 2, b[2])
    requires Follows(b[0], 3, b[3])
    requires 0 <= CharOf(b) < 0x110000
    ensures EncodeChar(CharOf(b)) == b
  {
    var p: int, q: int, r: int, t: int := b[0] - 0xF0, b[1] - 0x80, b[2] - 0x80, b[3] - 0x80;
    Digits((p * 64 + q) * 64 + r, t);
    Digits(p * 64 + q, r);
    Digits(p, q);
  }

  /** x is how the encoding of some character starts. */
  ghost predicate StartsChar(x: seq<Byte>) {
    exists c: Char :: x <= EncodeChar(c)
  }

  /** The smallest byte that can stand at position k. */
  function Least(lead: Byte, k: nat): (x: Byte)
    ensures Follows(lead, k, x)
  {
    if k == 1 && lead == 0xE0 then 0xA0 else if k == 1 && lead == 0xF0 then 0x90 else 0x80
  }

  lemma {:induction false} Completed(x: seq<Byte>)
    requires Begins(x)
    ensures StartsChar(x)
    decreases Trailing(x[0]) + 1 - |x|
  {
    hide EncodeChar, CharOf, Follows, Trailing, IsLead, Least;
    if |x| == Trailing(x[0]) + 1 {
      Inverse(x);
      var c: Char := CharOf(x);
      assert x <= EncodeChar(c);
    } else {
      Completed(x + [Least(x[0], |x|)]);
    }
  }

  /** Starts of encodings, byte by byte. */
  lemma StartsIs(x: seq<Byte>)
    requires x != []
    ensures StartsChar(x) <==> Begins(x)
  {
    hide EncodeChar, CharOf, Follows, Trailing, IsLead;
    if StartsChar(x) {
      var c: Char :| x <= EncodeChar(c);
      OneChar(c);
      assert forall i :: 0 <= i < |x| ==> x[i] == EncodeChar(c)[i];
    }
    if Begins(x) { Completed(x); }
  }

  lemma {:induction false} MatchedSteps(b: seq<Byte>, k: nat, n: nat)
    requires 1 <= k <= n <= |b| && Begins(b[..n]) && (n == |b| || !Begins(b[..n + 1]))
    ensures Matched(b, k) == n
    decreases n - k
  {
    hide Follows, Trailing, IsLead;
    assert b[..n][0] == b[0] && forall i :: 1 <= i < n ==> b[..n][i] == b[i];
    if k < n {
      MatchedSteps(b, k + 1, n);
    } else if n < |b| {
      assert forall i :: 1 <= i <= n ==> b[..n + 1][i] == b[i];
    }
  }

  /** Nothing encoded stands in front of b, and its first n bytes, but no more, start an encoding; or
      nothing does, and n is 1. */
  ghost predicate Broken(b: seq<Byte>, n: nat) {
    && 1 <= n <= |b| && (forall c: Char :: !(EncodeChar(c) <= b))
    && (StartsChar(b[..n]) || n == 1) && (n < |b| && StartsChar(b[..1]) ==> !StartsChar(b[..n + 1]))
  }

  lemma ShortOfWhole(b: seq<Byte>, n: nat)
    requires Broken(b, n) && Begins(b[..n])
    ensures n <= Trailing(b[0])
  {
    hide EncodeChar, Follows, Trailing, IsLead, StartsChar;
    if n == Trailing(b[0]) + 1 { WholeInFront(b, n); }
  }

  lemma WholeInFront(b: seq<Byte>, n: nat)
    requires 1 <= n <= |b| && Begins(b[..n]) && n == Trailing(b[0]) + 1
    ensures exists c: Char :: EncodeChar(c) <= b
  {
    hide EncodeChar, CharOf, Follows, Trailing, IsLead;
    Inverse(b[..n]);
    var c: Char := CharOf(b[..n]);
    assert EncodeChar(c) <= b;
  }

  lemma Replaced(b: seq<Byte>, n: nat)
    requires Broken(b, n)
    ensures Decode(b) == [0xFFFD] + Decode(b[n..])
  {
    hide EncodeChar, CharOf, Follows, Trailing, IsLead, StartsChar, Broken, Begins;
    BrokenStart(b, n);
    if IsLead(b[0]) {
      ShortOfWhole(b, n);
      MatchedSteps(b, 1, n);
    }
  }

  lemma BrokenStart(b: seq<Byte>, n: nat)
    requires Broken(b, n)
    ensures 1 <= n <= |b|
    ensures if IsLead(b[0]) then Begins(b[..n]) && (n == |b| || !Begins(b[..n + 1])) else n == 1
  {
    hide EncodeChar, CharOf, Follows, Trailing, StartsChar;
    StartsIs(b[..n]);
    StartsIs(b[..1]);
    if n < |b| { StartsIs(b[..n + 1]); }
    assert b[..n][0] == b[0];
  }

  lemma Kept(b: seq<Byte>, c: Char)
    requires EncodeChar(c) <= b
    ensures Decode(b) == [c] + Decode(b[|EncodeChar(c)|..])
  {
    hide EncodeChar, CharOf, Follows, Trailing, IsLead;
    OneChar(c);
    var x := EncodeChar(c);
    assert b[..|x|] == x && forall i :: 0 <= i < |x| ==> b[i] == x[i];
    MatchedAll(b, 1);
  }

  /** Decoding in terms of encoding, for all bytes: an encoded character in front is that character;
      otherwise the longest start of an encoding, or one byte if there is none, is replaced. */
  lemma DecodeStep(b: seq<Byte>)
    requires b != []
    ensures forall c: Char :: EncodeChar(c) <= b ==> Decode(b) == [c] + Decode(b[|EncodeChar(c)|..])
    ensures forall n: nat :: Broken(b, n) ==> Decode(b) == [0xFFFD] + Decode(b[n..])
    ensures (exists c: Char :: EncodeChar(c) <= b) || (exists n: nat :: Broken(b, n))
  {
    hide EncodeChar, Decode, StartsChar;
    forall c: Char | EncodeChar(c) <= b ensures Decode(b) == [c] + Decode(b[|EncodeChar(c)|..]) { Kept(b, c); }
    forall n: nat | Broken(b, n) ensures Decode(b) == [0xFFFD] + Decode(b[n..]) { Replaced(b, n); }
    if forall c: Char :: !(EncodeChar(c) <= b) { var n := LongestStart(b); }
  }

  lemma LongestStart(b: seq<Byte>) returns (n: nat)
    requires b != [] && forall c: Char :: !(EncodeChar(c) <= b)
    ensures Broken(b, n)
  {
    hide EncodeChar, StartsChar;
    n := 1;
    while n < |b| && StartsChar(b[..1]) && StartsChar(b[..n + 1])
      invariant 1 <= n <= |b| && (StartsChar(b[..n]) || n == 1)
      decreases |b| - n
    {
      n := n + 1;
    }
  }

  /** A character cut short is one replacement character, whatever follows. */
  lemma CutChar(c: Char, k: nat, rest: seq<Byte>)
    requires 1 <= k < |EncodeChar(c)| && (rest == [] || !(0x80 <= rest[0] <= 0xBF))
    ensures Decode(EncodeChar(c)[..k] + rest) == [0xFFFD] + Decode(rest)
  {
    hide EncodeChar, CharOf, Trailing, IsLead, Begins, Follows;
    var x := EncodeChar(c)[..k];
    var b := x + rest;
    CutBegins(c, k);
    assert b[..k] == x && b[k..] == rest;
    if rest != [] {
      assert b[..k + 1][k] == rest[0];
      NoTrail(b[..k + 1], k);
    }
    MatchedSteps(b, 1, k);
  }

  lemma CutBegins(c: Char, k: nat)
    requires 1 <= k < |EncodeChar(c)|
    ensures Begins(EncodeChar(c)[..k]) && k <= Trailing(EncodeChar(c)[0]) && IsLead(EncodeChar(c)[0])
  {
    hide EncodeChar, CharOf, Trailing, IsLead, Follows;
    OneChar(c);
  }

  lemma NoTrail(x: seq<Byte>, k: nat)
    requires 1 <= k < |x| && !(0x80 <= x[k] <= 0xBF)
    ensures !Begins(x)
  {
    assert !Follows(x[0], k, x[k]);
  }

  /** Bytes that start nothing, and second bytes that would make an overlong form, a surrogate or a
      value beyond the last plane. */
  lemma BadBytes(b: seq<Byte>)
    requires b != []
    requires || 0x80 <= b[0] <= 0xC1 || 0xF5 <= b[0]
             || (|b| >= 2 && b[0] == 0xE0 && 0x80 <= b[1] <= 0x9F)
             || (|b| >= 2 && b[0] == 0xED && 0xA0 <= b[1] <= 0xBF)
             || (|b| >= 2 && b[0] == 0xF0 && 0x80 <= b[1] <= 0x8F)
             || (|b| >= 2 && b[0] == 0xF4 && 0x90 <= b[1] <= 0xBF)
    ensures Decode(b) == [0xFFFD] + Decode(b[1..])
  {
    if IsLead(b[0]) { MatchedSteps(b, 1, 1); }
  }
}
