/** tools/gen_abi.py as_arg_expr and render_pack: the emitted pack expression and unpack macros,
    evaluated on 64-bit words. */
module AbiExpr {
  import opened Bits
  import opened Outcomes
  import opened Bitwise
  import opened AbiPack

  /** Width of a machine word in bits. */
  const WORD: nat := 64

  /** The value of each argument by name. */
  type Args = string -> int

  /** The emitted language: a masked argument, the checked and the wrapping shift, and or. */
  datatype Expr =
    | Masked(name: string, width: nat)
    | Shl(e: Expr, n: nat)
    | WrappingShl(e: Expr, n: nat)
    | OrElse(left: Expr, right: Expr)

  /** v modulo 2^w. */
  function Low(v: int, w: nat): (r: nat)
    ensures r < Pow2(w)
  {
    v % Pow2(w)
  }

  /** A 64-bit pattern read as a signed number. */
  function AsI64(p: nat): (v: int) {
    if p < Pow2(WORD - 1) then p else p - Pow2(WORD)
  }

  /** A word, or None where the checked shift traps because the result is no i64. */
  function Eval(e: Expr, args: Args): (r: Option<nat>) {
    match e
    case Masked(name, w) => Some(And(Low(args(name), WORD), Pow2(w) - 1))
    case Shl(x, n) =>
      var p := Eval(x, args);
      if p.None? then None
      else
        var v := AsI64(p.value) * Pow2(n);
        if v + Pow2(WORD - 1) >= 0 && v < Pow2(WORD - 1) then Some(Low(v, WORD)) else None
    case WrappingShl(x, n) =>
      var p := Eval(x, args);
      if p.None? then None else Some(Low(p.value * Pow2(n), WORD))
    case OrElse(x, y) =>
      var p, q := Eval(x, args), Eval(y, args);
      if p.None? || q.None? then None else Some(Or(p.value, q.value))
  }

  /** One field's part of the expression. */
  function TermExpr(f: PackField): (e: Expr) {
    var term := Masked(f.name, f.width);
    if f.shift > 0 && f.shift + f.width == 64 then WrappingShl(term, f.shift)
    else if f.shift > 0 then Shl(term, f.shift)
    else term
  }

  function JoinOr(acc: Expr, fs: Fields): (e: Expr)
    decreases |fs|
  {
    if fs == [] then acc else JoinOr(OrElse(acc, TermExpr(fs[0])), fs[1..])
  }

  /** as_arg_expr for a pack: highest field first. */
  method AsArgExpr(fs: Fields) returns (e: Expr)
    requires fs != []
    ensures var s := SortFields(fs, true); e == JoinOr(TermExpr(s[0]), s[1..])
  {
    hide SortFields, TermExpr;
    var s := SortFields(fs, true);
    e := TermExpr(s[0]);
    ghost var goal := JoinOr(TermExpr(s[0]), s[1..]);
    for k := 1 to |s|
      invariant JoinOr(e, s[k..]) == goal
    {
      assert s[k..][1..] == s[k + 1..];
      e := OrElse(e, TermExpr(s[k]));
    }
    assert s[|s|..] == [];
  }

  // ------------------------------------------------------------------------ one term --

  /** The field's bits in place. */
  function Term(f: PackField, args: Args): (n: nat) {
    Low(args(f.name), f.width) * Pow2(f.shift)
  }

  lemma LowIs(v: int, w: nat, q: int, r: int)
    requires v == q * Pow2(w) + r && 0 <= r < Pow2(w)
    ensures Low(v, w) == r
  {
    hide Pow2;
    DivModUnique(v, Pow2(w), q, r);
  }

  lemma LowSmall(v: nat, w: nat)
    requires v < Pow2(w)
    ensures Low(v, w) == v
  {
    LowIs(v, w, 0, v);
  }

  lemma LowQuotient(v: int, w: nat) returns (q: int)
    ensures v == q * Pow2(w) + Low(v, w)
  {
    hide Pow2;
    q := v / Pow2(w);
  }

  /** Masking the 64-bit pattern of v to w bits is v modulo 2^w, also for negative v. */
  lemma MaskedValue(v: int, w: nat)
    requires w <= 64
    ensures And(Low(v, 64), Pow2(w) - 1) == Low(v, w)
  {
    hide Pow2, And, Low;
    var p := Low(v, WORD);
    var k := LowQuotient(v, WORD);
    Pow2Add(WORD - w, w);
    var q, r := QuotRem(p, Pow2(w));
    AndMask(q, r, w);
    var d := Pow2(WORD - w);
    assert k * Pow2(WORD) == k * d * Pow2(w);
    assert v == (k * d + q) * Pow2(w) + r;
    LowIs(v, w, k * d + q, r);
  }

  lemma TermBound(f: PackField, args: Args)
    ensures Term(f, args) < Pow2(f.shift + f.width)
  {
    hide Pow2, Low;
    Pow2Add(f.width, f.shift);
    MulMono(Low(args(f.name), f.width) + 1, Pow2(f.width), Pow2(f.shift));
    assert (Low(args(f.name), f.width) + 1) * Pow2(f.shift) == Term(f, args) + Pow2(f.shift);
  }

  /** No part traps: the plain shift is only used where its result is an i64. */
  lemma TermValue(f: PackField, args: Args)
    requires FieldOk(f)
    ensures Eval(TermExpr(f), args) == Some(Term(f, args))
  {
    hide Pow2, And, Low;
    MaskedValue(args(f.name), f.width);
    TermBound(f, args);
    var m := Low(args(f.name), f.width);
    Zero2();
    Pow2Mono(f.shift + f.width, WORD);
    LowSmall(Term(f, args), WORD);
    if f.shift + f.width < 64 {
      Pow2Mono(f.shift + f.width, WORD - 1);
      Pow2Mono(f.width, WORD - 1);
    }
  }

  /** The wrapping shift is used exactly where the plain one would trap for some argument, and no shift at
      all for the lowest bit. */
  lemma WrapNeeded(f: PackField)
    requires FieldOk(f)
    ensures TermExpr(f).Masked? <==> f.shift == 0
    ensures TermExpr(f).WrappingShl? <==>
            (f.shift > 0 && exists args: Args :: Eval(Shl(Masked(f.name, f.width), f.shift), args) == None)
  {
    hide Pow2, And, Low, Eval;
    if f.shift > 0 && f.shift + f.width == 64 {
      TopTraps(f);
    } else if f.shift > 0 {
      forall args: Args ensures Eval(Shl(Masked(f.name, f.width), f.shift), args) != None { TermValue(f, args); }
    }
  }

  /** All ones in a field that reaches bit 63. */
  lemma TopTraps(f: PackField)
    requires FieldOk(f) && f.shift > 0 && f.shift + f.width == 64
    ensures Eval(Shl(Masked(f.name, f.width), f.shift), _ => Pow2(f.width) - 1) == None
  {
    hide Pow2, And, Low;
    var ones := Pow2(f.width) - 1;
    MaskedValue(ones, f.width);
    LowSmall(ones, f.width);
    Pow2Mono(f.width, 63);
    Pow2Add(f.width, f.shift);
    Pow2Mono(f.shift, 63);
    Twice63();
    assert ones * Pow2(f.shift) == Pow2(64) - Pow2(f.shift);
  }

  lemma Twice63()
    ensures Pow2(64) == 2 * Pow2(63) && Pow2(63) > 0
  {
    Pow2Add(63, 1);
    assert Pow2(1) == 2;
  }

  lemma Zero2()
    ensures Pow2(0) == 1
  {}

  // ------------------------------------------------------------------- the whole word --

  function PackSum(fs: Fields, args: Args): (n: nat) {
    if fs == [] then 0 else Term(fs[0], args) + PackSum(fs[1..], args)
  }

  /** Each field lies below the ones before it. */
  ghost predicate Descending(fs: Fields) {
    fs != [] ==> (forall g :: g in fs[1..] ==> g.shift + g.width <= fs[0].shift) && Descending(fs[1..])
  }

  ghost predicate EndBelow(fs: Fields, top: nat) { forall g :: g in fs ==> g.shift + g.width <= top }

  ghost predicate FieldsOk(fs: Fields) { forall g :: g in fs ==> FieldOk(g) }

  lemma {:induction false} OrderedDescending(fs: Fields)
    requires Ordered(fs, true) && Disjoint(fs) && FieldsOk(fs)
    ensures Descending(fs)
  {
    if fs != [] {
      assert fs[0] in fs;
      OrderedDescending(fs[1..]);
      forall g | g in fs[1..] ensures g.shift + g.width <= fs[0].shift {
        assert Precedes(fs[0], g, true) && Apart(fs[0], g);
      }
    }
  }

  lemma SortedDescending(fs: Fields)
    requires Accepted(fs)
    ensures Descending(SortFields(fs, true)) && FieldsOk(SortFields(fs, true))
  {
    hide SortFields, Ordered, Disjoint;
    SortOrdered(fs, true);
    SortDisjoint(fs, true);
    SortMembers(fs, true);
    OrderedDescending(SortFields(fs, true));
  }

  lemma {:induction false} PackBound(fs: Fields, args: Args, top: nat)
    requires Descending(fs) && EndBelow(fs, top)
    ensures PackSum(fs, args) < Pow2(top)
  {
    hide Pow2, Low;
    if fs != [] {
      var f := fs[0];
      PackBound(fs[1..], args, f.shift);
      var m := Low(args(f.name), f.width);
      Pow2Add(f.width, f.shift);
      MulMono(m + 1, Pow2(f.width), Pow2(f.shift));
      assert (m + 1) * Pow2(f.shift) == m * Pow2(f.shift) + Pow2(f.shift);
      Pow2Mono(f.shift + f.width, top);
    } else {
      assert Pow2(top) > 0;
    }
  }

  /** Or-ing in lower fields adds them. */
  lemma {:induction false} JoinValue(acc: Expr, fs: Fields, args: Args, h: nat, k: nat)
    requires Descending(fs) && EndBelow(fs, k) && FieldsOk(fs) && Eval(acc, args) == Some(h * Pow2(k))
    ensures Eval(JoinOr(acc, fs), args) == Some(h * Pow2(k) + PackSum(fs, args))
    decreases |fs|
  {
    hide Pow2, TermExpr, Term, Or;
    if fs != [] {
      var f := fs[0];
      assert f in fs;
      TermValue(f, args);
      TermBound(f, args);
      Pow2Mono(f.shift + f.width, k);
      OrSplit(h, Term(f, args), k);
      var h' := Shifted(f, args, h, k);
      JoinValue(OrElse(acc, TermExpr(f)), fs[1..], args, h', f.shift);
    }
  }

  lemma Shifted(f: PackField, args: Args, h: nat, k: nat) returns (h': nat)
    requires f.shift <= k
    ensures h' * Pow2(f.shift) == h * Pow2(k) + Term(f, args)
  {
    hide Pow2, Low;
    Pow2Add(k - f.shift, f.shift);
    var d, m := Pow2(k - f.shift), Low(args(f.name), f.width);
    h' := h * d + m;
    assert h * Pow2(k) == h * d * Pow2(f.shift);
  }

  /** The emitted expression never traps, and its value is the fields' bits side by side. */
  lemma PackValue(fs: Fields, args: Args)
    requires Accepted(fs) && fs != []
    ensures var s := SortFields(fs, true);
      && Eval(JoinOr(TermExpr(s[0]), s[1..]), args) == Some(PackSum(s, args))
      && PackSum(s, args) < Pow2(64)
  {
    hide SortFields, Pow2, TermExpr, Term, JoinOr, Eval;
    SortedDescending(fs);
    var s := SortFields(fs, true);
    assert s[0] in s;
    TermValue(s[0], args);
    Zero2();
    var h := Shifted(s[0], args, 0, s[0].shift);
    JoinValue(TermExpr(s[0]), s[1..], args, h, s[0].shift);
    PackBound(s, args, WORD);
  }

  lemma Regroup(h: nat, d: nat, e: nat, p: nat, g: nat)
    requires p == d * e
    ensures (h * d + g) * e == h * p + g * e
  {
    assert h * d * e == h * p;
  }

  /** Where a field's bits are in the packed word. */
  lemma {:induction false} Locate(fs: Fields, i: nat, args: Args) returns (hi: nat, lo: nat)
    requires Descending(fs) && i < |fs|
    ensures PackSum(fs, args) == hi * Pow2(fs[i].shift + fs[i].width) + Term(fs[i], args) + lo
    ensures lo < Pow2(fs[i].shift)
    decreases i
  {
    hide Pow2, Term;
    if i == 0 {
      hi, lo := 0, PackSum(fs[1..], args);
      PackBound(fs[1..], args, fs[0].shift);
    } else {
      var f, e := fs[i], fs[i].shift + fs[i].width;
      assert f in fs[1..];
      var hi', lo' := Locate(fs[1..], i - 1, args);
      var h := Shifted(fs[0], args, 0, fs[0].shift);
      Pow2Add(fs[0].shift - e, e);
      hi, lo := h * Pow2(fs[0].shift - e) + hi', lo';
      Regroup(h, Pow2(fs[0].shift - e), Pow2(e), Pow2(fs[0].shift), hi');
    }
  }

  // -------------------------------------------------------------------------- unpacking --

  /** Conversion to a 32-bit int. */
  function AsInt32(v: int): (r: int) {
    if Low(v, 32) < Pow2(31) then Low(v, 32) else Low(v, 32) - Pow2(32)
  }

  /** The w bits of a word from bit n on. */
  function BitsAt(word: nat, n: nat, w: nat): (x: nat) {
    And(Quotient(word, Pow2(n)), Pow2(w) - 1)
  }

  /** The generated macro: shift, mask, for a signed field flip and subtract the sign bit, cast. */
  function Unpack(f: PackField, word: nat): (r: int)
    requires f.width > 0
  {
    var x := BitsAt(word, f.shift, f.width);
    if f.signed then AsInt32(Xor(x, Pow2(f.width - 1)) - Pow2(f.width - 1)) else AsInt32(x)
  }

  /** What a field can hold of v: v modulo 2^width, sign-extended if the field is signed. */
  function Held(f: PackField, v: int): (r: int)
    requires f.width > 0
  {
    var m := Low(v, f.width);
    if f.signed && m >= Pow2(f.width - 1) then m - Pow2(f.width) else m
  }

  /** A field that an int can hold. */
  predicate Narrow(f: PackField) { f.width <= if f.signed then 32 else 31 }

  /** Every field of every accepted list comes back as what it can hold, cast to int, whatever the
      other arguments are. */
  lemma UnpackPack(fs: Fields, f: PackField, args: Args)
    requires Accepted(fs) && f in fs
    ensures Unpack(f, PackSum(SortFields(fs, true), args)) == AsInt32(Held(f, args(f.name)))
  {
    hide SortFields, Pow2, And, Low, Xor, AsInt32, Accepted, BitsAt;
    SortedDescending(fs);
    SortMembers(fs, true);
    var s := SortFields(fs, true);
    var i :| 0 <= i < |s| && s[i] == f;
    assert FieldOk(f);
    var hi, lo := Locate(s, i, args);
    var m := Low(args(f.name), f.width);
    FieldBits(PackSum(s, args), hi, m, lo, f);
    if f.signed {
      XorTop(m, f.width - 1);
      DoubleIs(f.width);
    }
  }

  lemma FieldBits(word: nat, hi: nat, m: nat, lo: nat, f: PackField)
    requires word == hi * Pow2(f.shift + f.width) + m * Pow2(f.shift) + lo && lo < Pow2(f.shift) && m < Pow2(f.width)
    ensures BitsAt(word, f.shift, f.width) == m
  {
    hide Pow2, And, Quotient;
    Pow2Add(f.width, f.shift);
    Regroup(hi, Pow2(f.width), Pow2(f.shift), Pow2(f.shift + f.width), m);
    QuotientIs(word, Pow2(f.shift), hi * Pow2(f.width) + m, lo);
    AndMask(hi, m, f.width);
  }

  lemma QuotientIs(word: nat, s: nat, q: nat, lo: nat)
    requires word == q * s + lo && lo < s
    ensures Quotient(word, s) == q
  {
    DivModUnique(word, s, q, lo);
  }

  /** The cast loses nothing exactly for fields of at most 31 bits, 32 if signed. */
  lemma CastExact(f: PackField)
    requires FieldOk(f)
    ensures Narrow(f) <==> forall v :: AsInt32(Held(f, v)) == Held(f, v)
  {
    hide Pow2, Low, AsInt32, Held;
    if Narrow(f) {
      forall v ensures AsInt32(Held(f, v)) == Held(f, v) {
        NarrowExact(f, v);
      }
    } else {
      var v := Pow2(31);
      WideLoses(f);
      assert AsInt32(Held(f, v)) != Held(f, v);
    }
  }

  lemma NarrowExact(f: PackField, v: int)
    requires f.width > 0 && Narrow(f)
    ensures AsInt32(Held(f, v)) == Held(f, v)
  {
    hide Pow2, Low;
    var h, m := Held(f, v), Low(v, f.width);
    Top32();
    DoubleIs(f.width);
    if f.signed {
      Pow2Mono(f.width, 32);
      Pow2Mono(f.width - 1, 31);
    } else {
      Pow2Mono(f.width, 31);
    }
    if h >= 0 { LowIs(h, 32, 0, h); } else { LowIs(h, 32, -1, h + Pow2(32)); }
  }

  lemma Top32()
    ensures Pow2(32) == 2 * Pow2(31)
  {}

  /** 2^31 fits a wider field but no int. */
  lemma WideLoses(f: PackField)
    requires f.width > 0 && !Narrow(f)
    ensures Held(f, Pow2(31)) == Pow2(31) && AsInt32(Pow2(31)) + Pow2(31) == 0
  {
    hide Pow2, Low;
    Top32();
    DoubleIs(f.width);
    Pow2Mono(32, f.width);
    if f.signed { Pow2Mono(32, f.width - 1); }
    LowSmall(Pow2(31), f.width);
    LowSmall(Pow2(31), 32);
  }

  /** Values in a field's range are what it holds. */
  lemma InRangeHeld(f: PackField, v: int)
    requires f.width > 0
    requires if f.signed then v + Pow2(f.width - 1) >= 0 && v < Pow2(f.width - 1) else 0 <= v < Pow2(f.width)
    ensures Held(f, v) == v
  {
    hide Pow2, Low;
    DoubleIs(f.width);
    if v >= 0 { LowIs(v, f.width, 0, v); } else { LowIs(v, f.width, -1, v + Pow2(f.width)); }
  }

  /** An out-of-range value corrupts only its own field. */
  lemma Isolated(fs: Fields, f: PackField, args: Args, args': Args)
    requires Accepted(fs) && f in fs && args(f.name) == args'(f.name)
    ensures Unpack(f, PackSum(SortFields(fs, true), args)) == Unpack(f, PackSum(SortFields(fs, true), args'))
  {
    hide Unpack, PackSum, SortFields, Accepted;
    assert FieldOk(f) by { AcceptedField(fs, f); }
    UnpackPack(fs, f, args);
    UnpackPack(fs, f, args');
  }

  lemma AcceptedField(fs: Fields, f: PackField)
    requires Accepted(fs) && f in fs
    ensures FieldOk(f)
  {}

  /** Kernel and caller agree: unpacking the evaluated expression returns every narrow field. */
  lemma RoundTrip(fs: Fields, f: PackField, args: Args)
    requires Accepted(fs) && f in fs && Narrow(f)
    ensures var s := SortFields(fs, true);
      var word := Eval(JoinOr(TermExpr(s[0]), s[1..]), args);
      word.Some? && word.value < Pow2(64) && Unpack(f, word.value) == Held(f, args(f.name))
  {
    hide Unpack, PackSum, SortFields, Accepted, Eval, JoinOr, TermExpr, Held, AsInt32;
    AcceptedField(fs, f);
    PackValue(fs, args);
    UnpackPack(fs, f, args);
    NarrowExact(f, args(f.name));
  }
}
