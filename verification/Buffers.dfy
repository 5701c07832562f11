/** Parts of buffers: what stands where, what an overwrite changes and what it leaves alone. */
module Buffers {

  /** part stands at off. */
  ghost predicate HasAt<T>(s: seq<T>, off: nat, part: seq<T>) {
    off + |part| <= |s| && s[off..off + |part|] == part
  }

  /** a and b agree everywhere except in [lo, hi). */
  ghost predicate SameOutside<T>(a: seq<T>, b: seq<T>, lo: nat, hi: nat) {
    |a| == |b| && forall i :: 0 <= i < |a| && !(lo <= i < hi) ==> a[i] == b[i]
  }

  function Overlay<T>(s: seq<T>, off: nat, part: seq<T>): (r: seq<T>)
    requires off + |part| <= |s|
    ensures |r| == |s| && HasAt(r, off, part) && SameOutside(s, r, off, off + |part|)
  {
    s[..off] + part + s[off + |part|..]
  }

  lemma HasAtEnd<T>(s: seq<T>, off: nat, part: seq<T>)
    requires HasAt(s, off, part)
    ensures off + |part| <= |s|
  {}

  lemma HasAtConcat<T>(s: seq<T>, off: nat, a: seq<T>, b: seq<T>)
    ensures HasAt(s, off, a + b) <==> HasAt(s, off, a) && HasAt(s, off + |a|, b)
  {
    if HasAt(s, off, a) && HasAt(s, off + |a|, b) {
      assert s[off..off + |a + b|] == s[off..off + |a|] + s[off + |a|..off + |a| + |b|];
    }
    if HasAt(s, off, a + b) {
      var u := s[off..off + |a + b|];
      assert a == u[..|a|] == s[off..off + |a|];
      assert b == u[|a|..] == s[off + |a|..off + |a| + |b|];
    }
  }

  lemma HasAtKept<T>(s: seq<T>, t: seq<T>, off: nat, part: seq<T>, lo: nat, hi: nat)
    requires HasAt(s, off, part) && SameOutside(s, t, lo, hi) && (off + |part| <= lo || hi <= off)
    ensures HasAt(t, off, part)
  {
    assert t[off..off + |part|] == s[off..off + |part|];
  }

  lemma SameOutsideTrans<T>(a: seq<T>, b: seq<T>, c: seq<T>, lo: nat, mid: nat, hi: nat)
    requires SameOutside(a, b, lo, mid) && SameOutside(b, c, mid, hi) && lo <= mid <= hi
    ensures SameOutside(a, c, lo, hi)
  {}

  lemma SameSelf<T>(a: seq<T>, lo: nat, hi: nat)
    ensures SameOutside(a, a, lo, hi)
  {}

  lemma SameOutsideWider<T>(a: seq<T>, b: seq<T>, lo: nat, hi: nat, lo': nat, hi': nat)
    requires SameOutside(a, b, lo, hi) && lo' <= lo && hi <= hi'
    ensures SameOutside(a, b, lo', hi')
  {}

  lemma ConcatAssoc<T>(a: seq<T>, b: seq<T>, c: seq<T>)
    ensures (a + b) + c == a + (b + c) && [] + c == c
  {}
}
