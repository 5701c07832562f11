/** Bitwise and, or and exclusive or on natural numbers, and the cases in which they are plain
    arithmetic. */
module Bitwise {
  import opened Bits

  function And(a: nat, b: nat): (r: nat) {
    if a == 0 || b == 0 then 0 else (if a % 2 == 1 && b % 2 == 1 then 1 else 0) + 2 * And(a / 2, b / 2)
  }

  function Or(a: nat, b: nat): (r: nat) {
    if a == 0 then b else if b == 0 then a
    else (if a % 2 == 1 || b % 2 == 1 then 1 else 0) + 2 * Or(a / 2, b / 2)
  }

  function Xor(a: nat, b: nat): (r: nat) {
    if a == 0 then b else if b == 0 then a
    else (if a % 2 != b % 2 then 1 else 0) + 2 * Xor(a / 2, b / 2)
  }

  lemma AndHalves(a: nat, b: nat)
    ensures And(a, b) == (if a % 2 == 1 && b % 2 == 1 then 1 else 0) + 2 * And(a / 2, b / 2)
  {}

  lemma DoubleIs(w: nat)
    requires w > 0
    ensures Pow2(w) == 2 * Pow2(w - 1)
  {}

  lemma Doubled(w: nat)
    requires w > 0
    ensures Pow2(w) == 2 * Pow2(w - 1) && (Pow2(w) - 1) % 2 == 1 && (Pow2(w) - 1) / 2 == Pow2(w - 1) - 1
  {
    hide Pow2;
    DoubleIs(w);
  }

  /** Masking keeps the low w bits. */
  lemma {:induction false} AndMask(q: nat, r: nat, w: nat)
    requires r < Pow2(w)
    ensures And(q * Pow2(w) + r, Pow2(w) - 1) == r
    decreases w
  {
    hide And;
    if w > 0 {
      hide Pow2;
      Doubled(w);
      var a, h := q * Pow2(w) + r, q * Pow2(w - 1);
      assert a == 2 * h + r;
      AndMask(q, r / 2, w - 1);
      AndHalves(a, Pow2(w) - 1);
      assert a / 2 == h + r / 2 && a % 2 == r % 2;
    } else {
      AndNothing(q + r);
    }
  }

  lemma AndNothing(a: nat)
    ensures And(a, 0) == 0
  {}

  /** Or of numbers with no common bits is their sum. */
  lemma {:induction false} OrSplit(h: nat, x: nat, k: nat)
    requires x < Pow2(k)
    ensures Or(h * Pow2(k), x) == h * Pow2(k) + x
    decreases k
  {
    if k > 0 {
      var a, g := h * Pow2(k), h * Pow2(k - 1);
      assert a == 2 * g && a / 2 == g && a % 2 == 0;
      OrSplit(h, x / 2, k - 1);
    }
  }

  /** Flipping the top bit. */
  lemma {:induction false} XorTop(x: nat, k: nat)
    requires x < Pow2(k + 1)
    ensures Xor(x, Pow2(k)) == if x < Pow2(k) then x + Pow2(k) else x - Pow2(k)
    decreases k
  {
    if k > 0 && x > 0 { XorTop(x / 2, k - 1); }
  }
}
