/** Byte strings: little-endian fields, slices that stop at the end, and in-place
    packing (struct.pack_into, slice assignment). */
module Bytes {
  import opened Bits

  function Pow256(n: nat): (p: nat)
    ensures p > 0
  {
    if n == 0 then 1 else 256 * Pow256(n - 1)
  }

  /** The number a little-endian field spells. */
  function FromLe(s: seq<Byte>): (v: nat) {
    if s == [] then 0 else s[0] + 256 * FromLe(s[1..])
  }

  /** The n-byte little-endian spelling of v. */
  function ToLe(v: nat, n: nat): (s: seq<Byte>)
    ensures |s| == n
  {
    if n == 0 then [] else [v % 256] + ToLe(v / 256, n - 1)
  }

  lemma {:induction false} LeRoundTrip(v: nat, n: nat)
    requires v < Pow256(n)
    ensures FromLe(ToLe(v, n)) == v
  {
    if n > 0 {
      LeRoundTrip(v / 256, n - 1);
      assert ToLe(v, n)[1..] == ToLe(v / 256, n - 1);
    }
  }

  lemma {:induction false} FromLeBound(s: seq<Byte>)
    ensures FromLe(s) < Pow256(|s|)
  {
    if s != [] { FromLeBound(s[1..]); }
  }

  lemma Widths()
    ensures Pow256(2) == 0x10000 && Pow256(4) == 0x1_0000_0000 && Pow256(8) == 0x1_0000_0000_0000_0000
  {
    assert Pow256(4) == 0x1_0000_0000;
    assert Pow256(8) == 256 * (256 * (256 * (256 * Pow256(4))));
  }

  /** n bytes at off. */
  function Field(s: seq<Byte>, off: nat, n: nat): (v: nat)
    requires off + n <= |s|
  {
    FromLe(s[off..off + n])
  }

  /** s[a:b] as the host language cuts it: nothing past the end. */
  function Cut(s: seq<Byte>, a: nat, b: nat): (r: seq<Byte>)
    requires a <= b
    ensures |r| <= b - a
    ensures b <= |s| ==> r == s[a..b]
  {
    if |s| <= a then [] else if |s| < b then s[a..] else s[a..b]
  }

  /** Overwriting |b| bytes at off. */
  function Splice(s: seq<Byte>, off: nat, b: seq<Byte>): (r: seq<Byte>)
    requires off + |b| <= |s|
    ensures |r| == |s|
    ensures forall i :: 0 <= i < |s| ==> r[i] == if off <= i < off + |b| then b[i - off] else s[i]
  {
    s[..off] + b + s[off + |b|..]
  }

  lemma SpliceReads(s: seq<Byte>, off: nat, b: seq<Byte>)
    requires off + |b| <= |s|
    ensures Splice(s, off, b)[off..off + |b|] == b
  {}

  /** Two buffers agree on [a, b). */
  ghost predicate Agree(s: seq<Byte>, t: seq<Byte>, a: nat, b: nat) {
    a <= b <= |s| && b <= |t| && forall i :: a <= i < b ==> s[i] == t[i]
  }

  lemma AgreeField(s: seq<Byte>, t: seq<Byte>, a: nat, b: nat, off: nat, n: nat)
    requires Agree(s, t, a, b) && a <= off && off + n <= b
    ensures Field(s, off, n) == Field(t, off, n)
  {
    assert s[off..off + n] == t[off..off + n];
  }

  /** The bytes before the first NUL. */
  function UpToNul(s: seq<Byte>): (r: seq<Byte>)
    ensures 0 !in r && r <= s
  {
    if s == [] || s[0] == 0 then [] else [s[0]] + UpToNul(s[1..])
  }

  function Zeros(n: nat): (z: seq<Byte>)
    ensures |z| == n && forall i :: 0 <= i < n ==> z[i] == 0
  {
    seq(n, _ => 0)
  }

  /** Four bytes, written out. */
  lemma FourBytes(s: seq<Byte>, off: nat, a: nat, b: nat, c: nat, d: nat)
    requires off + 4 <= |s| && s[off] == a && s[off + 1] == b && s[off + 2] == c && s[off + 3] == d
    ensures Field(s, off, 4) == a + 256 * (b + 256 * (c + 256 * d))
  {
    var t := s[off..off + 4];
    var t1, t2, t3 := t[1..], t[2..], t[3..];
    assert t1[1..] == t2 && t2[1..] == t3 && t3[1..] == [] && FromLe([]) == 0;
    assert FromLe(t3) == d;
    assert FromLe(t2) == c + 256 * FromLe(t3);
    assert FromLe(t1) == b + 256 * FromLe(t2);
  }
}
