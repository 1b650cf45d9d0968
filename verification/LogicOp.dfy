/** bf_logic_op of Sources/SubstrataQuickJS/libbf.c: bitwise operations on integers
    of any size, as if they were infinite two's complement numbers. */
module LogicOps {

  import opened Limbs
  import opened Bits
  import opened Bitwise
  import opened Rounding
  import opened Arithmetic
  import opened Addition

  // ---------------------------------------------------------------------
  // Two's complement
  // ---------------------------------------------------------------------

  /** Bit `i` of the infinite two's complement form of `x`; division rounds down. */
  predicate TBit(x: int, i: nat) {
    x / Pow2(i) % 2 == 1
  }

  ghost predicate IsBitwise(op: Op, x: int, y: int, z: int) {
    forall i: nat :: TBit(z, i) == Apply(op, TBit(x, i), TBit(y, i))
  }

  lemma TBitNext(x: int, i: nat)
    ensures TBit(x, i + 1) == TBit(x / 2, i)
  {
    var p := Pow2(i);
    var q, r := x / 2 / p, x / 2 % p;
    assert x == 2 * (x / 2) + x % 2 && x / 2 == q * p + r;
    assert x == q * (2 * p) + (2 * r + x % 2);
    DivUnique(x, 2 * p, q, 2 * r + x % 2);
  }

  /** The bits determine the number. */
  lemma {:induction false} TBitsDetermine(x: int, y: int)
    requires forall i: nat :: TBit(x, i) == TBit(y, i)
    ensures x == y
    decreases if x < 0 then -x else x, if y < 0 then -y else y
  {
    assert TBit(x, 0) == TBit(y, 0) && Pow2(0) == 1;
    assert x % 2 == y % 2;
    if !(x == 0 || x == -1) || !(y == 0 || y == -1) {
      forall i: nat ensures TBit(x / 2, i) == TBit(y / 2, i) {
        TBitNext(x, i);
        TBitNext(y, i);
        assert TBit(x, i + 1) == TBit(y, i + 1);
      }
      TBitsDetermine(x / 2, y / 2);
    }
  }

  /** So the result of an operation is unique. */
  lemma BitwiseUnique(op: Op, x: int, y: int, z: int, u: int)
    requires IsBitwise(op, x, y, z) && IsBitwise(op, x, y, u)
    ensures z == u
  {
    forall i: nat ensures TBit(z, i) == TBit(u, i) {
      assert TBit(z, i) == Apply(op, TBit(x, i), TBit(y, i));
    }
    TBitsDetermine(z, u);
  }

  // ---------------------------------------------------------------------
  // Laws
  // ---------------------------------------------------------------------

  lemma TBitsOfEnds(x: int, i: nat)
    requires x == 0 || x == -1
    ensures TBit(x, i) == (x == -1)
  {
    if x == -1 { DivUnique(-1, Pow2(i), -1, Pow2(i) - 1); } else { DivSmall(0, Pow2(i)); }
  }

  lemma LowestBit(x: int)
    ensures TBit(x, 0) == (x % 2 == 1)
  {
    assert Pow2(0) == 1;
  }

  lemma HalfBitwise(op: Op, x: int, y: int, z: int)
    requires IsBitwise(op, x, y, z)
    ensures IsBitwise(op, x / 2, y / 2, z / 2)
  {
    forall i: nat ensures TBit(z / 2, i) == Apply(op, TBit(x / 2, i), TBit(y / 2, i)) {
      TBitNext(x, i);
      TBitNext(y, i);
      TBitNext(z, i);
      assert TBit(z, i + 1) == Apply(op, TBit(x, i + 1), TBit(y, i + 1));
    }
  }

  lemma EndsBitwise(op: Op, x: int, y: int, z: int)
    requires IsBitwise(op, x, y, z) && (x == 0 || x == -1) && (y == 0 || y == -1)
    ensures z == if Apply(op, x == -1, y == -1) then -1 else 0
  {
    var v := if Apply(op, x == -1, y == -1) then -1 else 0;
    forall i: nat ensures TBit(z, i) == TBit(v, i) {
      TBitsOfEnds(x, i);
      TBitsOfEnds(y, i);
      TBitsOfEnds(v, i);
    }
    TBitsDetermine(z, v);
  }

  /** "or" and "and" together add up to the operands, and "xor" is what tells them
      apart. */
  lemma {:induction false} SumLaws(x: int, y: int, o: int, a: int, v: int)
    requires IsBitwise(OR, x, y, o) && IsBitwise(AND, x, y, a) && IsBitwise(XOR, x, y, v)
    ensures o + a == x + y && v == o - a
    decreases AbsInt(x) + AbsInt(y)
  {
    if (x == 0 || x == -1) && (y == 0 || y == -1) {
      EndsBitwise(OR, x, y, o);
      EndsBitwise(AND, x, y, a);
      EndsBitwise(XOR, x, y, v);
    } else {
      LowestBits(OR, x, y, o);
      LowestBits(AND, x, y, a);
      LowestBits(XOR, x, y, v);
      HalfBitwise(OR, x, y, o);
      HalfBitwise(AND, x, y, a);
      HalfBitwise(XOR, x, y, v);
      SumLaws(x / 2, y / 2, o / 2, a / 2, v / 2);
    }
  }

  lemma LowestBits(op: Op, x: int, y: int, z: int)
    requires IsBitwise(op, x, y, z)
    ensures (z % 2 == 1) == Apply(op, x % 2 == 1, y % 2 == 1)
  {
    assert TBit(z, 0) == Apply(op, TBit(x, 0), TBit(y, 0));
    LowestBit(x);
    LowestBit(y);
    LowestBit(z);
  }

  /** Combining a number with itself, with zero and with all ones. */
  lemma NeutralLaws(op: Op, x: int, z: int, z0: int, z1: int)
    requires IsBitwise(op, x, x, z) && IsBitwise(op, x, 0, z0) && IsBitwise(op, x, -1, z1)
    ensures op == OR ==> z == x && z0 == x && z1 == -1
    ensures op == AND ==> z == x && z0 == 0 && z1 == x
    ensures op == XOR ==> z == 0 && z0 == x && z1 == -x - 1
  {
    var w, w0, w1 := if op == XOR then 0 else x, if op == AND then 0 else x, if op == OR then -1 else if op == AND then x else -x - 1;
    forall i: nat ensures TBit(w, i) == TBit(z, i) && TBit(w0, i) == TBit(z0, i) && TBit(w1, i) == TBit(z1, i) {
      TBitsOfEnds(0, i);
      TBitsOfEnds(-1, i);
      TBitInverted(x, i);
      assert TBit(z, i) == Apply(op, TBit(x, i), TBit(x, i)) && TBit(z0, i) == Apply(op, TBit(x, i), TBit(0, i));
      assert TBit(z1, i) == Apply(op, TBit(x, i), TBit(-1, i));
    }
    TBitsDetermine(w, z);
    TBitsDetermine(w0, z0);
    TBitsDetermine(w1, z1);
  }

  lemma TBitInverted(x: int, i: nat)
    ensures TBit(-x - 1, i) == !TBit(x, i)
  {
    var p := Pow2(i);
    var q, r := x / p, x % p;
    assert x == q * p + r;
    assert -x - 1 == (-q - 1) * p + (p - 1 - r) by { assert (-q - 1) * p == -(q * p) - p; }
    DivUnique(-x - 1, p, -q - 1, p - 1 - r);
  }

  /** The number whose bits are those of `m`, all inverted if `s`. */
  function FromBits(m: nat, s: bool): int {
    if s then -(m as int) - 1 else m
  }

  lemma TBitFromBits(m: nat, s: bool, i: nat)
    ensures TBit(FromBits(m, s), i) == (Bit(m, i) != s)
  {
    if s {
      var p := Pow2(i);
      var q, r := m / p, m % p;
      assert m == q * p + r;
      assert -(m as int) - 1 == (-q - 1) * p + (p - 1 - r) by { assert (-q - 1) * p == -(q * p) - p; }
      DivUnique(-(m as int) - 1, p, -q - 1, p - 1 - r);
    }
  }

  // ---------------------------------------------------------------------
  // One limb
  // ---------------------------------------------------------------------

  /** The limb of the result, from the two windows and the masks. */
  function ResultLimb(op: Op, a: Limb, b: Limb, sa: bool, sb: bool, sr: bool): Limb {
    LogicOp1(XOR, LogicOp1(op, LogicOp1(XOR, a, MaskOf(sa)), LogicOp1(XOR, b, MaskOf(sb))), MaskOf(sr))
  }

  lemma ResultBit(op: Op, a: Limb, b: Limb, sa: bool, sb: bool, sr: bool, i: nat)
    requires i < 64
    ensures Bit(ResultLimb(op, a, b, sa, sb, sr), i) == (Apply(op, Bit(a, i) != sa, Bit(b, i) != sb) != sr)
  {
    var v1, v2 := LogicOp1(XOR, a, MaskOf(sa)), LogicOp1(XOR, b, MaskOf(sb));
    MaskBit(sa, i);
    MaskBit(sb, i);
    MaskBit(sr, i);
    OpBit(XOR, a, MaskOf(sa), 64, i);
    OpBit(XOR, b, MaskOf(sb), 64, i);
    OpBit(op, v1, v2, 64, i);
    OpBit(XOR, LogicOp1(op, v1, v2), MaskOf(sr), 64, i);
  }

  lemma WindowBit(m: nat, i: nat, p: nat)
    requires p < 64
    ensures Bit(Window(m, 64 * i), p) == Bit(m, 64 * i + p)
  {
    var h := m / Pow2(64 * i);
    Pow2Add(64 * i, p);
    DivDiv(m, Pow2(64 * i), Pow2(p));
    LimbParts(p);
    var x, q := h % 0x1_0000_0000_0000_0000, h / 0x1_0000_0000_0000_0000;
    assert h == x + q * (Pow2(p) * (2 * Pow2(63 - p)));
    Parity(x, q, Pow2(p), Pow2(63 - p));
  }

  // ---------------------------------------------------------------------
  // All limbs
  // ---------------------------------------------------------------------

  /** The limbs of the result are made from those of `a` and `b`. */
  ghost predicate Combined(tab: seq<Limb>, op: Op, a: nat, b: nat, sa: bool, sb: bool, sr: bool) {
    forall i :: 0 <= i < |tab| ==> tab[i] == ResultLimb(op, Window(a, 64 * i), Window(b, 64 * i), sa, sb, sr)
  }

  lemma CombinedBit(tab: seq<Limb>, op: Op, a: nat, b: nat, sa: bool, sb: bool, sr: bool, q: nat)
    requires Combined(tab, op, a, b, sa, sb, sr) && q < 64 * |tab|
    ensures Bit(Num(tab, 0, |tab|), q) == (Apply(op, Bit(a, q) != sa, Bit(b, q) != sb) != sr)
  {
    var i, p := q / 64, q % 64;
    BitOfLimb(tab, |tab|, i, p);
    ResultBit(op, Window(a, 64 * i), Window(b, 64 * i), sa, sb, sr, p);
    WindowBit(a, i, p);
    WindowBit(b, i, p);
    assert q == 64 * i + p;
  }

  /** Enough limbs: above them all bits of the result are the same. */
  predicate Enough(op: Op, a: nat, b: nat, sa: bool, sb: bool, n: nat) {
    var fa, fb := a < Pow2(n), b < Pow2(n);
    (fa && fb) || (op == AND && ((!sa && fa) || (!sb && fb)))
  }

  lemma HighBit(m: nat, s: bool, n: nat, q: nat)
    requires m < Pow2(n) && q >= n
    ensures TBit(FromBits(m, s), q) == s
  {
    TBitFromBits(m, s, q);
    Pow2Monotone(n, q);
    DivSmall(m, Pow2(q));
  }

  lemma CombinedIsBitwise(tab: seq<Limb>, op: Op, a: nat, b: nat, sa: bool, sb: bool)
    requires Enough(op, a, b, sa, sb, 64 * |tab|)
    requires Combined(tab, op, a, b, sa, sb, Apply(op, sa, sb))
    ensures IsBitwise(op, FromBits(a, sa), FromBits(b, sb), FromBits(Num(tab, 0, |tab|), Apply(op, sa, sb)))
  {
    var x, y, sr, m, n := FromBits(a, sa), FromBits(b, sb), Apply(op, sa, sb), Num(tab, 0, |tab|), 64 * |tab|;
    NumBound(tab, 0, |tab|);
    LimbPower(|tab|);
    forall q: nat ensures TBit(FromBits(m, sr), q) == Apply(op, TBit(x, q), TBit(y, q)) {
      if q < n {
        CombinedBit(tab, op, a, b, sa, sb, sr, q);
        TBitFromBits(m, sr, q);
        TBitFromBits(a, sa, q);
        TBitFromBits(b, sb, q);
      } else {
        HighBit(m, sr, n, q);
        if a < Pow2(n) { HighBit(a, sa, n, q); }
        if b < Pow2(n) { HighBit(b, sb, n, q); }
      }
    }
  }

  // ---------------------------------------------------------------------
  // Integers as floating-point numbers
  // ---------------------------------------------------------------------

  /** The fields stand for the integer `x`. */
  ghost predicate HoldsInt(sign: bool, expn: int, tab: seq<Limb>, x: int) {
    if x == 0 then tab == [] && expn == EXP_ZERO
    else NormalForm(tab) && Value(sign, expn, tab) == Times(x, TwoTo(0))
  }

  function AbsInt(x: int): nat {
    if x < 0 then -x else x
  }

  lemma IntMagnitude(sign: bool, expn: int, tab: seq<Limb>, x: int)
    requires HoldsInt(sign, expn, tab, x) && x != 0
    ensures sign == (x < 0) && Full(Num(tab, 0, |tab|), |tab|)
    ensures Magnitude(Num(tab, 0, |tab|), |tab|, expn) == Times(AbsInt(x), TwoTo(0))
  {
    var m, l := Num(tab, 0, |tab|), |tab|;
    TopBit(tab, l);
    FullMagnitude(m, l, expn);
    TimesNegated(x, TwoTo(0));
    ScaleCompare(0, x, TwoTo(0));
    ScaleCompare(x, 0, TwoTo(0));
  }

  /** The exponent is the number of bits. */
  lemma IntExponent(sign: bool, expn: int, tab: seq<Limb>, x: int)
    requires HoldsInt(sign, expn, tab, x) && x != 0
    ensures expn >= 1 && Pow2(expn - 1) <= AbsInt(x) < Pow2(expn)
  {
    IntMagnitude(sign, expn, tab, x);
    FullMagnitude(Num(tab, 0, |tab|), |tab|, expn);
    BitCount(AbsInt(x), expn);
  }

  lemma BitCount(n: nat, e: int)
    requires n > 0 && TwoTo(e - 1) <= Times(n, TwoTo(0)) < TwoTo(e)
    ensures e >= 1 && Pow2(e - 1) <= n < Pow2(e)
  {
    if e <= 0 {
      TwoToMonotone(e, 0);
      TimesNext(0, TwoTo(0));
      ScaleCompare(n, 1, TwoTo(0));
    } else {
      TwoToAdd(0, e);
      TwoToAdd(0, e - 1);
      ScaleCompare(n, Pow2(e), TwoTo(0));
      ScaleCompare(n, Pow2(e - 1), TwoTo(0));
    }
  }

  /** An integer of at most `n` bits has an exponent of at most `n`. */
  lemma FewBits(sign: bool, expn: int, tab: seq<Limb>, x: int, n: nat)
    requires HoldsInt(sign, expn, tab, x) && AbsInt(x) < Pow2(n)
    ensures expn <= n
  {
    if x != 0 {
      IntExponent(sign, expn, tab, x);
      if expn > n { Pow2Monotone(n, expn - 1); }
    }
  }

  lemma Fits(sign: bool, expn: int, tab: seq<Limb>, x: int, n: nat)
    requires HoldsInt(sign, expn, tab, x) && expn <= n
    ensures AbsInt(x) < Pow2(n)
  {
    if x != 0 {
      IntExponent(sign, expn, tab, x);
      Pow2Monotone(expn, n);
    }
  }

  /** The limbs of the integer are windows of the mantissa. */
  lemma IntWindow(sign: bool, expn: int, tab: seq<Limb>, x: int, i: nat)
    requires HoldsInt(sign, expn, tab, x)
    ensures Window(Num(tab, 0, |tab|), 64 * |tab| - expn + 64 * i) == Window(AbsInt(x), 64 * i)
  {
    var m, off := Num(tab, 0, |tab|), 64 * |tab| - expn;
    if x == 0 {
      DivSmall(0, Pow2(64 * i));
      if off + 64 * i >= 0 { DivSmall(0, Pow2(off + 64 * i)); }
    } else {
      IntMagnitude(sign, expn, tab, x);
      if off >= 0 {
        TwoToAdd(-off, off);
        TimesTimes(AbsInt(x), Pow2(off), TwoTo(-off));
        ScaleCompare(m, AbsInt(x) * Pow2(off), TwoTo(-off));
        FractionWindow(m, AbsInt(x), off, i);
      } else {
        TwoToAdd(0, -off);
        TimesTimes(m, Pow2(-off), TwoTo(0));
        ScaleCompare(AbsInt(x), m * Pow2(-off), TwoTo(0));
        WholeWindow(m, AbsInt(x), -off, i);
      }
    }
  }

  lemma FractionWindow(m: nat, a: nat, off: nat, i: nat)
    requires m == a * Pow2(off)
    ensures Window(m, off + 64 * i) == Window(a, 64 * i)
  {
    Pow2Add(off, 64 * i);
    DivDiv(m, Pow2(off), Pow2(64 * i));
    DivUnique(m, Pow2(off), a, 0);
  }

  /** Rounding to zero, all exponent bits: what the flags BF_RNDZ mean. */
  const PLAIN := Flags(RNDZ, 61, false, false)

  /** The exponents for which nothing can overflow; a number of that many bits
      does not fit into memory. */
  predicate InRange(expn: int) {
    expn + 256 <= EMax(PLAIN)
  }

  lemma RangeFits()
    ensures EMax(PLAIN) == 0x1000_0000_0000_0000
  {
    LimbBits();
    Pow2Add(60, 4);
    assert Pow2(4) == 16;
  }

  /** A number whose bits all lie above the last kept one is its own rounding. */
  lemma ExactInt(sign: bool, m: nat, e: int, y: real)
    requires e <= PREC_INF && IsRounding(RNDZ, SignedReal(sign, Times(m, TwoTo(0))), y, TwoTo(e - PREC_INF))
    ensures y == SignedReal(sign, Times(m, TwoTo(0)))
  {
    TwoToAdd(e - PREC_INF, PREC_INF - e);
    ExactMantissa(RNDZ, sign, m, Pow2(PREC_INF - e), TwoTo(e - PREC_INF));
    RoundingUnique(RNDZ, SignedReal(sign, Times(m, TwoTo(0))), y, SignedReal(sign, Times(m, TwoTo(0))), TwoTo(e - PREC_INF));
  }

  /** What normalising the integer `z` delivers. */
  lemma NormalInt(r: BF, z: int, n: nat, y: real, e: int, ey: int, ret: Status)
    requires 0 < AbsInt(z) < Pow2(n) && n <= EMax(PLAIN) && r.sign == (z < 0)
    requires TwoTo(e - 1) <= Times(AbsInt(z), TwoTo(0)) < TwoTo(e)
    requires IsRounding(RNDZ, SignedReal(z < 0, Times(AbsInt(z), TwoTo(0))), y, TwoTo(e - PREC_INF))
    requires y != 0.0 ==> TwoTo(ey - 1) <= Abs(y) < TwoTo(ey)
    requires exists inexact :: r.Delivered(y, ey, PREC_INF, PREC_INF, PLAIN, inexact, ret)
    ensures HoldsInt(r.sign, r.expn, r.tab, z)
  {
    RangeFits();
    BitCount(AbsInt(z), e);
    if e > n { Pow2Monotone(n, e - 1); }
    ExactInt(z < 0, AbsInt(z), e, y);
    ExponentUnique(Times(AbsInt(z), TwoTo(0)), e, ey);
    TimesNegated(AbsInt(z), TwoTo(0));
    assert r.Is(y);
  }

  /** What a number with the value of the integer `z` consists of. */
  lemma IntParts(sign: bool, expn: int, tab: seq<Limb>, z: int)
    requires Value(sign, expn, tab) == Times(z, TwoTo(0))
    ensures z == 0 <==> Num(tab, 0, |tab|) == 0
    ensures z != 0 ==> sign == (z < 0)
    ensures Magnitude(Num(tab, 0, |tab|), |tab|, expn) == Times(AbsInt(z), TwoTo(0)) >= 0.0
  {
    var m, t := Num(tab, 0, |tab|), TwoTo(expn - 64 * |tab|);
    NotNegative(m, t);
    NotNegative(AbsInt(z), TwoTo(0));
    TimesNegated(z, TwoTo(0));
    ScaleCompare(0, AbsInt(z), TwoTo(0));
    ScaleCompare(0, m, t);
  }

  /** bf_normalize_and_round with infinite precision. */
  method Normalize(r: BF, ghost z: int, ghost n: nat)
    requires Value(r.sign, r.expn, r.tab) == Times(z, TwoTo(0)) && AbsInt(z) < Pow2(n) && n <= EMax(PLAIN)
    modifies r
    ensures HoldsInt(r.sign, r.expn, r.tab, z)
  {
    RangeFits();
    IntParts(r.sign, r.expn, r.tab, z);
    ghost var y, e, ey;
    var ret;
    ret, y, e, ey := r.NormalizeAndRound(PREC_INF, PLAIN);
    if z != 0 {
      NormalInt(r, z, n, y, e, ey, ret);
    }
  }

  // ---------------------------------------------------------------------
  // Integers exactly
  // ---------------------------------------------------------------------

  /** Comparing magnitudes compares the integers. */
  method CmpInt(a: BF, b: BF, ghost x: int, ghost y: int) returns (c: int)
    requires HoldsInt(a.sign, a.expn, a.tab, x) && HoldsInt(b.sign, b.expn, b.tab, y)
    ensures c < 0 <==> AbsInt(x) < AbsInt(y)
    ensures c > 0 <==> AbsInt(x) > AbsInt(y)
  {
    IntFinite(a.sign, a.expn, a.tab, x);
    IntFinite(b.sign, b.expn, b.tab, y);
    c := Cmpu(a, b);
    ScaleCompare(AbsInt(x), AbsInt(y), TwoTo(0));
    ScaleCompare(AbsInt(y), AbsInt(x), TwoTo(0));
  }

  lemma IntFinite(sign: bool, expn: int, tab: seq<Limb>, x: int)
    requires HoldsInt(sign, expn, tab, x)
    ensures IsFinite(expn, tab) && Magnitude(Num(tab, 0, |tab|), |tab|, expn) == Times(AbsInt(x), TwoTo(0))
  {
    if x != 0 {
      IntMagnitude(sign, expn, tab, x);
      IntExponent(sign, expn, tab, x);
    }
  }

  /** With infinite precision and no exponent too large the result is exact. */
  lemma CorrectInt(r: BF, z: int, n: nat, y: real, e: int, ey: int, ret: Status)
    requires 0 < AbsInt(z) < Pow2(n) && n <= EMax(PLAIN) && r.sign == (z < 0)
    requires Correct(r, Times(z, TwoTo(0)), PREC_INF, PLAIN, ret, y, e, ey)
    ensures HoldsInt(r.sign, r.expn, r.tab, z)
  {
    TimesNegated(AbsInt(z), TwoTo(0));
    NotNegative(AbsInt(z), TwoTo(0));
    NormalInt(r, z, n, y, e, ey, ret);
  }

  lemma IntValue(sign: bool, expn: int, tab: seq<Limb>, x: int)
    requires HoldsInt(sign, expn, tab, x)
    ensures Value(sign, expn, tab) == Times(x, TwoTo(0))
  {
  }

  lemma SumOfInts(x: int, y: int)
    ensures Times(x + y, TwoTo(0)) == Times(x, TwoTo(0)) + Times(y, TwoTo(0))
    ensures x + y < 0 <==> Times(x + y, TwoTo(0)) < 0.0
    ensures x + y == 0 <==> Times(x + y, TwoTo(0)) == 0.0
  {
    if y >= 0 {
      TimesAdd(x, y, TwoTo(0));
    } else {
      TimesAdd(x + y, -y, TwoTo(0));
      TimesNegated(y, TwoTo(0));
    }
    ScaleCompare(x + y, 0, TwoTo(0));
  }

  lemma SumFits(a: BF, b: BF, x: int, y: int) returns (n: nat)
    requires HoldsInt(a.sign, a.expn, a.tab, x) && HoldsInt(b.sign, b.expn, b.tab, y)
    requires a.expn < EMax(PLAIN) && b.expn < EMax(PLAIN)
    ensures n <= EMax(PLAIN) && AbsInt(x) + AbsInt(y) < Pow2(n)
  {
    RangeFits();
    var m := if a.expn > b.expn then a.expn else b.expn;
    m := if m > 0 then m else 0;
    Fits(a.sign, a.expn, a.tab, x, m);
    Fits(b.sign, b.expn, b.tab, y, m);
    n := m + 1;
  }

  /** bf_add with infinite precision, for integers. */
  method AddInt(a: BF, b: BF, ghost x: int, ghost y: int) returns (r: BF)
    requires HoldsInt(a.sign, a.expn, a.tab, x) && HoldsInt(b.sign, b.expn, b.tab, y)
    requires a.expn < EMax(PLAIN) && b.expn < EMax(PLAIN)
    ensures fresh(r) && HoldsInt(r.sign, r.expn, r.tab, x + y)
  {
    RangeFits();
    IntFinite(a.sign, a.expn, a.tab, x);
    IntFinite(b.sign, b.expn, b.tab, y);
    IntValue(a.sign, a.expn, a.tab, x);
    IntValue(b.sign, b.expn, b.tab, y);
    SumOfInts(x, y);
    ghost var n := SumFits(a, b, x, y);
    ghost var s, v, e, ey;
    var ret;
    r, ret, s, v, e, ey := Add(a, b, PREC_INF, PLAIN);
    if x + y != 0 {
      CorrectInt(r, x + y, n, v, e, ey, ret);
    }
  }

  /** bf_sub with infinite precision, for integers. */
  method SubInt(a: BF, b: BF, ghost x: int, ghost y: int) returns (r: BF)
    requires HoldsInt(a.sign, a.expn, a.tab, x) && HoldsInt(b.sign, b.expn, b.tab, y)
    requires a.expn < EMax(PLAIN) && b.expn < EMax(PLAIN)
    ensures fresh(r) && HoldsInt(r.sign, r.expn, r.tab, x - y)
  {
    RangeFits();
    IntFinite(a.sign, a.expn, a.tab, x);
    IntFinite(b.sign, b.expn, b.tab, y);
    IntValue(a.sign, a.expn, a.tab, x);
    IntValue(b.sign, b.expn, b.tab, y);
    TimesNegated(y, TwoTo(0));
    SumOfInts(x, -y);
    ghost var n := SumFits(a, b, x, y);
    ghost var s, v, e, ey;
    var ret;
    r, ret, s, v, e, ey := Sub(a, b, PREC_INF, PLAIN);
    if x != y {
      CorrectInt(r, x - y, n, v, e, ey, ret);
    }
  }

  lemma IntSign(sign: bool, expn: int, tab: seq<Limb>, x: int)
    requires HoldsInt(sign, expn, tab, x)
    ensures (x == 0 <==> |tab| == 0) && (x != 0 ==> sign == (x < 0))
  {
    if x != 0 { IntMagnitude(sign, expn, tab, x); }
  }

  /** bf_add_si with infinite precision, for 1 and -1. */
  method AddSi(a: BF, k: int, ghost x: int) returns (r: BF)
    requires HoldsInt(a.sign, a.expn, a.tab, x) && a.expn < EMax(PLAIN) && (k == 1 || k == -1)
    ensures fresh(r) && HoldsInt(r.sign, r.expn, r.tab, x + k)
  {
    var b := new BF();
    b.sign, b.expn, b.tab := k < 0, 1, [0x8000_0000_0000_0000];
    OneHolds(k < 0);
    RangeFits();
    r := AddInt(a, b, x, k);
  }

  lemma OneHolds(neg: bool)
    ensures HoldsInt(neg, 1, [0x8000_0000_0000_0000], if neg then -1 else 1)
  {
    TinyUnit(0);
    TimesNext(0, TwoTo(0));
    TimesNegated(1, TwoTo(0));
  }

  // ---------------------------------------------------------------------
  // The operation
  // ---------------------------------------------------------------------

  /** The integer whose bits are worked on: for a negative operand, one is added. */
  method Operand(a1: BF, ghost x: int) returns (a: BF, aSign: bool, ghost m: int)
    requires HoldsInt(a1.sign, a1.expn, a1.tab, x) && InRange(a1.expn)
    ensures HoldsInt(a.sign, a.expn, a.tab, m) && FromBits(AbsInt(m), aSign) == x
    ensures a.expn <= 0 || a.expn + 192 <= EMax(PLAIN)
  {
    aSign := if a1.expn <= 0 then false else a1.sign;
    if x != 0 {
      IntMagnitude(a1.sign, a1.expn, a1.tab, x);
      IntExponent(a1.sign, a1.expn, a1.tab, x);
    }
    if aSign {
      a := AddSi(a1, 1, x);
      m := x + 1;
      FewBits(a.sign, a.expn, a.tab, m, a1.expn);
    } else {
      a, m := a1, x;
    }
  }

  /** The number of result limbs. */
  function ResultLength(op: Op, ea: int, eb: int, sa: bool, sb: bool): nat {
    var l :=
      if op == AND && !Apply(op, sa, sb) then
        if !sa && !sb then (if ea < eb then ea else eb)
        else if !sa then ea
        else eb
      else (if ea > eb then ea else eb);
    ((if l > 1 then l else 1) + 63) / 64
  }

  lemma LengthIsEnough(op: Op, a: BF, b: BF, m: int, n: int, sa: bool, sb: bool)
    requires HoldsInt(a.sign, a.expn, a.tab, m) && HoldsInt(b.sign, b.expn, b.tab, n)
    ensures Enough(op, AbsInt(m), AbsInt(n), sa, sb, 64 * ResultLength(op, a.expn, b.expn, sa, sb))
  {
    var l := 64 * ResultLength(op, a.expn, b.expn, sa, sb);
    if a.expn <= l { Fits(a.sign, a.expn, a.tab, m, l); }
    if b.expn <= l { Fits(b.sign, b.expn, b.tab, n, l); }
  }

  /** Limb `i` of an integer. */
  method IntLimb(b: BF, bitOffset: int, i: nat, ghost x: int) returns (v: Limb)
    requires HoldsInt(b.sign, b.expn, b.tab, x) && bitOffset == |b.tab| * 64 - b.expn
    ensures v == Window(AbsInt(x), 64 * i)
  {
    IntWindow(b.sign, b.expn, b.tab, x, i);
    v := GetBits(b.tab, |b.tab|, bitOffset + i * 64);
  }

  lemma CombinedStep(tab: seq<Limb>, op: Op, a: nat, b: nat, sa: bool, sb: bool, sr: bool, v1: Limb, v2: Limb)
    requires Combined(tab, op, a, b, sa, sb, sr)
    requires v1 == Window(a, 64 * |tab|) && v2 == Window(b, 64 * |tab|)
    ensures Combined(tab + [ResultLimb(op, v1, v2, sa, sb, sr)], op, a, b, sa, sb, sr)
  {
  }

  /** The loop of bf_logic_op. */
  method OpLimbs(a: BF, b: BF, op: Op, sa: bool, sb: bool, sr: bool, l: nat, ghost m: int, ghost n: int)
    returns (tab: seq<Limb>)
    requires HoldsInt(a.sign, a.expn, a.tab, m) && HoldsInt(b.sign, b.expn, b.tab, n)
    ensures |tab| == l && Combined(tab, op, AbsInt(m), AbsInt(n), sa, sb, sr)
  {
    var aBitOffset, bBitOffset := |a.tab| * 64 - a.expn, |b.tab| * 64 - b.expn;
    tab := [];
    var i := 0;
    while i < l
      invariant 0 <= i <= l && |tab| == i
      invariant Combined(tab, op, AbsInt(m), AbsInt(n), sa, sb, sr)
    {
      var v1 := IntLimb(a, aBitOffset, i, m);
      var v2 := IntLimb(b, bBitOffset, i, n);
      CombinedStep(tab, op, AbsInt(m), AbsInt(n), sa, sb, sr, v1, v2);
      tab := tab + [ResultLimb(op, v1, v2, sa, sb, sr)];
      i := i + 1;
    }
  }

  /** bf_logic_op: the operation on the infinite two's complement forms. */
  method LogicOp(a1: BF, b1: BF, op: Op, ghost x: int, ghost y: int) returns (r: BF, ghost z: int)
    requires HoldsInt(a1.sign, a1.expn, a1.tab, x) && HoldsInt(b1.sign, b1.expn, b1.tab, y)
    requires InRange(a1.expn) && InRange(b1.expn)
    ensures fresh(r) && HoldsInt(r.sign, r.expn, r.tab, z) && IsBitwise(op, x, y, z)
    ensures op == OR ==> forall i: nat :: TBit(z, i) == (TBit(x, i) || TBit(y, i))
    ensures op == AND ==> forall i: nat :: TBit(z, i) == (TBit(x, i) && TBit(y, i))
    ensures op == XOR ==> forall i: nat :: TBit(z, i) == (TBit(x, i) != TBit(y, i))
  {
    ghost var m, n;
    var a, b, aSign, bSign;
    a, aSign, m := Operand(a1, x);
    b, bSign, n := Operand(b1, y);
    var rSign := Apply(op, aSign, bSign);
    var l := ResultLength(op, a.expn, b.expn, aSign, bSign);
    LengthIsEnough(op, a, b, m, n, aSign, bSign);
    var tab := OpLimbs(a, b, op, aSign, bSign, rSign, l, m, n);
    CombinedIsBitwise(tab, op, AbsInt(m), AbsInt(n), aSign, bSign);
    z := FromBits(Num(tab, 0, l), rSign);
    r := FromLimbs(tab, rSign);
    if rSign {
      r := AddSi(r, -1, -(Num(tab, 0, l) as int));
    }
  }

  /** Limbs with a sign, normalised. */
  method FromLimbs(tab: seq<Limb>, sign: bool) returns (r: BF)
    requires 64 * |tab| < EMax(PLAIN)
    ensures fresh(r) && r.expn < EMax(PLAIN)
    ensures HoldsInt(r.sign, r.expn, r.tab, if sign then -(Num(tab, 0, |tab|) as int) else Num(tab, 0, |tab|))
  {
    r := new BF();
    r.tab := tab;
    r.expn := |tab| * 64;
    r.sign := sign;
    ghost var m, l := Num(tab, 0, |tab|), |tab|;
    NumBound(tab, 0, l);
    LimbPower(l);
    TimesNegated(m, TwoTo(0));
    Normalize(r, if sign then -(m as int) else m, 64 * l);
    FewBits(r.sign, r.expn, r.tab, if sign then -(m as int) else m, 64 * l);
  }
}
