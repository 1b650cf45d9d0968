/** Normalisation and rounding of the arbitrary-precision floating-point numbers
    of Sources/SubstrataQuickJS/libbf.c, against the rounding directions of
    section 4.3 of IEEE 754-2019. */
module Rounding {

  import opened Limbs
  import opened Bits

  const PREC_MAX := 0x4000_0000_0000_0000 - 2
  const PREC_INF := PREC_MAX + 1
  const EXP_ZERO := -0x8000_0000_0000_0000
  const EXP_INF := 0x7FFF_FFFF_FFFF_FFFF - 1

  datatype Mode = RNDN | RNDZ | RNDD | RNDU | RNDNA | RNDA | RNDF

  /** The fields of bf_flags_t. */
  datatype Flags = Flags(rnd: Mode, expBits: nat, radpnt: bool, subnormal: bool)

  /** The status bits that rounding can return. */
  datatype Status = Status(overflow: bool, underflow: bool, inexact: bool)

  // ---------------------------------------------------------------------
  // Real powers of two
  // ---------------------------------------------------------------------

  function TwoTo(z: int): (r: real)
    ensures r > 0.0
    decreases if z < 0 then -z else z
  {
    if z == 0 then 1.0 else if z > 0 then 2.0 * TwoTo(z - 1) else TwoTo(z + 1) / 2.0
  }

  lemma TwoToNext(z: int)
    ensures TwoTo(z + 1) == 2.0 * TwoTo(z)
  {
  }

  /** `q` times `ulp`. */
  function Times(q: int, ulp: real): real
    decreases if q < 0 then -q else q
  {
    if q == 0 then 0.0 else if q > 0 then Times(q - 1, ulp) + ulp else Times(q + 1, ulp) - ulp
  }

  lemma TimesNext(q: int, ulp: real)
    ensures Times(q + 1, ulp) == Times(q, ulp) + ulp
  {
  }

  lemma TimesIsProduct(q: int, ulp: real)
    ensures Times(q, ulp) == q as real * ulp
    decreases if q < 0 then -q else q
  {
    if q > 0 {
      TimesIsProduct(q - 1, ulp);
      assert (q - 1) as real * ulp == q as real * ulp - ulp;
    } else if q < 0 {
      TimesIsProduct(q + 1, ulp);
      assert (q + 1) as real * ulp == q as real * ulp + ulp;
    }
  }

  lemma {:induction false} TimesAdd(p: int, q: nat, ulp: real)
    ensures Times(p + q, ulp) == Times(p, ulp) + Times(q, ulp)
  {
    if q > 0 {
      TimesAdd(p, q - 1, ulp);
      TimesNext(p + q - 1, ulp);
    }
  }

  lemma {:induction false} TimesTimes(q: nat, u: nat, ulp: real)
    ensures Times(q * u, ulp) == Times(q, Times(u, ulp))
  {
    if q > 0 {
      TimesTimes(q - 1, u, ulp);
      assert q * u == (q - 1) * u + u;
      TimesAdd((q - 1) * u, u, ulp);
    }
  }

  lemma {:induction false} TimesMonotone(q: nat, x: real, y: real)
    requires x <= y
    ensures Times(q, x) <= Times(q, y)
    ensures q > 0 && x < y ==> Times(q, x) < Times(q, y)
    ensures x == 0.0 ==> Times(q, x) == 0.0
  {
    if q > 0 { TimesMonotone(q - 1, x, y); }
  }

  lemma {:induction false} TimesSum(q: nat, x: real, y: real)
    ensures Times(q, x + y) == Times(q, x) + Times(q, y)
  {
    if q > 0 { TimesSum(q - 1, x, y); }
  }

  lemma TimesSwap(p: nat, q: nat, x: real)
    ensures Times(p, Times(q, x)) == Times(q, Times(p, x))
  {
    TimesTimes(p, q, x);
    TimesTimes(q, p, x);
    Commute(p, q);
  }

  lemma {:induction false} TwoToAdd(z: int, n: nat)
    ensures TwoTo(z + n) == Times(Pow2(n), TwoTo(z))
  {
    if n > 0 {
      TwoToAdd(z, n - 1);
      TwoToNext(z + n - 1);
      TimesAdd(Pow2(n - 1), Pow2(n - 1), TwoTo(z));
    } else {
      TimesNext(0, TwoTo(z));
    }
  }

  // ---------------------------------------------------------------------
  // What rounding to a multiple of `ulp` means
  // ---------------------------------------------------------------------

  function Abs(x: real): real {
    if x < 0.0 then -x else x
  }

  /** Is the `q`-th multiple `y` of `ulp` the one that the rounding direction
      selects for `x`? */
  predicate Selects(mode: Mode, x: real, y: real, q: int, ulp: real) {
    match mode
    case RNDZ => if x >= 0.0 then 0.0 <= y <= x < y + ulp else y - ulp < x <= y <= 0.0
    case RNDA => if x >= 0.0 then x <= y < x + ulp else x - ulp < y <= x
    case RNDD => y <= x < y + ulp
    case RNDU => x <= y < x + ulp
    case RNDN => 2.0 * Abs(x - y) <= ulp && (2.0 * Abs(x - y) == ulp ==> q % 2 == 0)
    case RNDNA => 2.0 * Abs(x - y) <= ulp && (2.0 * Abs(x - y) == ulp ==> Abs(y) > Abs(x))
    case RNDF => 2.0 * Abs(x - y) <= ulp
  }

  ghost predicate IsRounding(mode: Mode, x: real, y: real, ulp: real) {
    exists q: int :: y == Times(q, ulp) && Selects(mode, x, y, q, ulp)
  }

  /** Different multiples of `ulp` are at least `ulp` apart, and at least twice that
      if they are not neighbours. */
  lemma {:induction false} Spread(q: int, p: int, ulp: real)
    requires ulp > 0.0 && q < p
    ensures Times(p, ulp) - Times(q, ulp) >= ulp
    ensures p > q + 1 ==> Times(p, ulp) - Times(q, ulp) >= 2.0 * ulp
    decreases p - q
  {
    TimesNext(p - 1, ulp);
    if p > q + 1 { Spread(q, p - 1, ulp); }
  }

  lemma Apart(q: int, p: int, ulp: real)
    requires ulp > 0.0
    ensures q != p ==> Abs(Times(p, ulp) - Times(q, ulp)) >= ulp
    ensures q != p && q != p + 1 && p != q + 1 ==> Abs(Times(p, ulp) - Times(q, ulp)) >= 2.0 * ulp
  {
    if q < p {
      Spread(q, p, ulp);
    } else if p < q {
      Spread(p, q, ulp);
    }
  }

  lemma {:induction false} TimesNegated(q: int, ulp: real)
    ensures Times(-q, ulp) == -Times(q, ulp)
    decreases if q < 0 then -q else q
  {
    if q > 0 {
      TimesNegated(q - 1, ulp);
    } else if q < 0 {
      TimesNegated(q + 1, ulp);
    }
  }

  /** Except for faithful rounding, there is only one such multiple. */
  lemma RoundingUnique(mode: Mode, x: real, y: real, z: real, ulp: real)
    requires ulp > 0.0 && mode != RNDF && IsRounding(mode, x, y, ulp) && IsRounding(mode, x, z, ulp)
    ensures y == z
  {
    var q: int :| y == Times(q, ulp) && Selects(mode, x, y, q, ulp);
    var p: int :| z == Times(p, ulp) && Selects(mode, x, z, p, ulp);
    Apart(q, p, ulp);
    Apart(q, 0, ulp);
    Apart(p, 0, ulp);
  }

  /** In the nearest modes, no multiple of `ulp` is closer to `x`. */
  lemma RoundingNearest(mode: Mode, x: real, y: real, ulp: real, p: int)
    requires ulp > 0.0 && mode in {RNDN, RNDNA, RNDF} && IsRounding(mode, x, y, ulp)
    ensures Abs(x - y) <= Abs(x - Times(p, ulp))
  {
    var q: int :| y == Times(q, ulp) && Selects(mode, x, y, q, ulp);
    Apart(q, p, ulp);
  }

  /** Rounding down or up, no multiple of `ulp` on the right side is closer. */
  lemma RoundingDirected(mode: Mode, x: real, y: real, ulp: real, p: int)
    requires ulp > 0.0 && mode in {RNDD, RNDU} && IsRounding(mode, x, y, ulp)
    ensures mode == RNDD && Times(p, ulp) <= x ==> Times(p, ulp) <= y
    ensures mode == RNDU && Times(p, ulp) >= x ==> Times(p, ulp) >= y
  {
    var q: int :| y == Times(q, ulp) && Selects(mode, x, y, q, ulp);
    Apart(q, p, ulp);
  }

  /** Nor is one of smaller magnitude closer when rounding to zero, nor one of
      greater magnitude when rounding away from it. */
  lemma RoundingMagnitude(mode: Mode, x: real, y: real, ulp: real, p: int)
    requires ulp > 0.0 && mode in {RNDZ, RNDA} && IsRounding(mode, x, y, ulp)
    ensures mode == RNDZ && Abs(Times(p, ulp)) <= Abs(x) ==> Abs(Times(p, ulp)) <= Abs(y)
    ensures mode == RNDA && Abs(Times(p, ulp)) >= Abs(x) ==> Abs(Times(p, ulp)) >= Abs(y)
  {
    var q: int :| y == Times(q, ulp) && Selects(mode, x, y, q, ulp);
    if mode == RNDZ {
      if Abs(Times(p, ulp)) <= Abs(x) { Truncated(x, q, p, ulp); }
    } else {
      if Abs(Times(p, ulp)) >= Abs(x) { Outward(x, q, p, ulp); }
    }
  }

  lemma Truncated(x: real, q: int, p: int, ulp: real)
    requires ulp > 0.0 && Selects(RNDZ, x, Times(q, ulp), q, ulp) && Abs(Times(p, ulp)) <= Abs(x)
    ensures Abs(Times(p, ulp)) <= Abs(Times(q, ulp))
  {
    Apart(q, p, ulp);
    Apart(q, -p, ulp);
    TimesNegated(p, ulp);
  }

  lemma Outward(x: real, q: int, p: int, ulp: real)
    requires ulp > 0.0 && Selects(RNDA, x, Times(q, ulp), q, ulp) && Abs(Times(p, ulp)) >= Abs(x)
    ensures Abs(Times(p, ulp)) >= Abs(Times(q, ulp))
  {
    Apart(q, p, ulp);
    Apart(q, -p, ulp);
    TimesNegated(p, ulp);
  }

  /** Halfway between two multiples, the nearest directions take the even one, and the
      one farther from zero. */
  lemma RoundingTies(mode: Mode, x: real, y: real, ulp: real, q: int)
    requires ulp > 0.0 && mode in {RNDN, RNDNA} && IsRounding(mode, x, y, ulp) && x == Times(q, ulp) + ulp / 2.0
    ensures y == Times(if (if mode == RNDN then q % 2 == 0 else x < 0.0) then q else q + 1, ulp)
  {
    var p: int :| y == Times(p, ulp) && Selects(mode, x, y, p, ulp);
    TimesNext(q, ulp);
    Apart(p, q, ulp);
    Apart(p, q + 1, ulp);
    Apart(q, 0, ulp);
    Apart(q + 1, 0, ulp);
  }

  // ---------------------------------------------------------------------
  // The decision, on integers
  // ---------------------------------------------------------------------

  /** The weight of the last kept bit, if `D` bits of a mantissa are dropped. */
  function Unit(D: int): (u: nat)
    ensures u > 0
  {
    if D <= 0 then 1 else Pow2(D)
  }

  /** Is the mantissa `m` rounded to the next multiple of `u` above? */
  predicate Up(mode: Mode, neg: bool, m: nat, u: nat)
    requires u > 0
  {
    match mode
    case RNDZ => false
    case RNDD => neg && m % u != 0
    case RNDU => !neg && m % u != 0
    case RNDA => m % u != 0
    case RNDN => 2 * (m % u) > u || (2 * (m % u) == u && m / u % 2 == 1)
    case RNDNA => 2 * (m % u) >= u
    case RNDF => 2 * (m % u) >= u
  }

  /** Faithful rounding takes the decision of rounding to nearest, ties away from zero. */
  lemma FaithfulIsNearest(neg: bool, m: nat, u: nat)
    requires u > 0
    ensures Up(RNDF, neg, m, u) == Up(RNDNA, neg, m, u) == (2 * (m % u) >= u)
  {
  }

  function Chosen(mode: Mode, neg: bool, m: nat, u: nat): nat
    requires u > 0
  {
    m / u + if Up(mode, neg, m, u) then 1 else 0
  }

  function Signed(neg: bool, q: nat): int {
    if neg then -(q as int) else q
  }

  function SignedReal(neg: bool, x: real): real {
    if neg then -x else x
  }

  /** With `f` times `ulp` plus `r` for the magnitude, where `r` compares with `ulp`
      as the remainder `m % u` does with `u`. */
  lemma ChosenSelects(mode: Mode, neg: bool, m: nat, u: nat, r: real, ulp: real)
    requires u > 0 && ulp > 0.0 && 0.0 <= r < ulp
    requires m % u == 0 <==> r == 0.0
    requires 2 * (m % u) > u <==> 2.0 * r > ulp
    requires 2 * (m % u) == u <==> 2.0 * r == ulp
    ensures var x, q := SignedReal(neg, Times(m / u, ulp) + r), Signed(neg, Chosen(mode, neg, m, u));
      Selects(mode, x, Times(q, ulp), q, ulp)
  {
    var f := m / u;
    NotNegative(f, ulp);
    TimesNext(f, ulp);
    TimesNegated(f, ulp);
    TimesNegated(f + 1, ulp);
    assert -(f + 1) == -f - 1;
  }

  lemma {:induction false} NotNegative(q: nat, ulp: real)
    requires ulp > 0.0
    ensures Times(q, ulp) >= 0.0
  {
    if q > 0 { NotNegative(q - 1, ulp); }
  }

  lemma ScaleCompare(a: int, b: int, t: real)
    requires t > 0.0
    ensures a < b <==> Times(a, t) < Times(b, t)
    ensures a == b <==> Times(a, t) == Times(b, t)
  {
    if a < b {
      Spread(a, b, t);
    } else if b < a {
      Spread(b, a, t);
    }
  }

  lemma SignedTimes(neg: bool, q: nat, ulp: real)
    ensures Times(Signed(neg, q), ulp) == SignedReal(neg, Times(q, ulp))
  {
    TimesNegated(q, ulp);
  }

  /** The mantissa `m`, whose lowest bit weighs 2^e, rounded at its bit `D`. */
  lemma RoundedMantissa(mode: Mode, neg: bool, m: nat, D: int, e: int)
    ensures var u := Unit(D);
      IsRounding(mode, SignedReal(neg, Times(m, TwoTo(e))),
                 SignedReal(neg, Times(Chosen(mode, neg, m, u) * u, TwoTo(e))), TwoTo(e + D))
  {
    var u, t, ulp := Unit(D), TwoTo(e), TwoTo(e + D);
    var c := Chosen(mode, neg, m, u);
    if D >= 0 {
      TwoToAdd(e, D);
      assert D == 0 ==> Pow2(0) == 1;
      DroppedBits(mode, neg, m, u, t, ulp);
      SignedTimes(neg, c, ulp);
      TimesTimes(c, u, t);
    } else {
      TwoToAdd(e + D, -D);
      ExactMantissa(mode, neg, m, Pow2(-D), ulp);
    }
  }

  lemma ExactMantissa(mode: Mode, neg: bool, m: nat, p: nat, ulp: real)
    requires ulp > 0.0 && p > 0
    ensures var x := SignedReal(neg, Times(m, Times(p, ulp))); IsRounding(mode, x, x, ulp)
  {
    var n := m * p;
    TimesTimes(m, p, ulp);
    SignedTimes(neg, n, ulp);
    NotNegative(n, ulp);
    var x := SignedReal(neg, Times(n, ulp));
    assert Selects(mode, x, x, Signed(neg, n), ulp);
  }

  lemma RemainderCompares(d: nat, u: nat, t: real)
    requires t > 0.0 && d < u
    ensures var r, ulp := Times(d, t), Times(u, t);
      0.0 <= r < ulp && (d == 0 <==> r == 0.0) && (2 * d > u <==> 2.0 * r > ulp) && (2 * d == u <==> 2.0 * r == ulp)
  {
    ScaleCompare(0, d, t);
    ScaleCompare(d, u, t);
    ScaleCompare(2 * d, u, t);
    ScaleCompare(u, 2 * d, t);
    TimesAdd(d, d, t);
  }

  lemma DroppedBits(mode: Mode, neg: bool, m: nat, u: nat, t: real, ulp: real)
    requires u > 0 && t > 0.0 && ulp == Times(u, t)
    ensures var q := Signed(neg, Chosen(mode, neg, m, u));
      Selects(mode, SignedReal(neg, Times(m, t)), Times(q, ulp), q, ulp)
  {
    var f, d := m / u, m % u;
    var r := Times(d, t);
    RemainderCompares(d, u, t);
    assert m == f * u + d;
    TimesAdd(f * u, d, t);
    TimesTimes(f, u, t);
    ChosenSelects(mode, neg, m, u, r, ulp);
  }

  // ---------------------------------------------------------------------
  // Integer facts about the mantissa
  // ---------------------------------------------------------------------

  /** `m` fills `l` limbs: its top bit is set. */
  predicate Full(m: nat, l: nat) {
    l >= 1 && Pow2(64 * l - 1) <= m < Pow(l)
  }

  lemma TopBit(s: seq<Limb>, l: nat)
    requires 1 <= l <= |s|
    ensures s[l - 1] >= 0x8000_0000_0000_0000 <==> Full(Num(s, 0, l), l)
  {
    NumBound(s, 0, l);
    NumBound(s, 0, l - 1);
    HalfPower(l);
    TopDecides(s[l - 1], Num(s, 0, l - 1), Pow(l - 1), 0x8000_0000_0000_0000);
  }

  lemma HalfPower(l: nat)
    requires l >= 1
    ensures Pow2(64 * l - 1) == 0x8000_0000_0000_0000 * Pow(l - 1)
  {
    LimbPower(l - 1);
    HalfLimb();
    Pow2Add(64 * (l - 1), 63);
  }

  lemma TopDecides(x: nat, lo: nat, p: nat, h: nat)
    requires lo < p
    ensures x >= h <==> lo + x * p >= h * p
  {
    if x >= h {
      MulMonotone(h, x, p);
    } else {
      MulMonotone(x + 1, h, p);
      assert (x + 1) * p == x * p + p;
    }
  }

  lemma HalfLimb()
    ensures Pow2(63) == 0x8000_0000_0000_0000
  {
    LimbBits();
  }

  /** The dropped part as the bit below the kept ones and the bits behind it. */
  lemma HalfAndRest(m: nat, D: nat)
    requires D >= 1
    ensures var u, bit1, rest := Unit(D), Bit(m, D - 1), m % Pow2(D - 1);
      && (m % u == 0 <==> !bit1 && rest == 0)
      && (2 * (m % u) >= u <==> bit1)
      && (2 * (m % u) == u <==> bit1 && rest == 0)
  {
    var h := Pow2(D - 1);
    DivDiv(m, h, 2);
    assert Pow2(D) == h * 2;
  }

  /** The number the scan looks at when more bits are dropped than there are. */
  lemma AllDropped(m: nat, l: nat, D: nat)
    requires m < Pow(l) && D - 1 >= 64 * l
    ensures m % Pow2(D - 1) == m % Pow2(64 * l)
  {
    LimbPower(l);
    Pow2Monotone(64 * l, D - 1);
    DivSmall(m, Pow2(64 * l));
    DivSmall(m, Pow2(D - 1));
  }

  /** bf_get_rnd_add */
  method GetRndAdd(sign: bool, tab: seq<Limb>, l: nat, prec: int, rnd: Mode) returns (addOne: bool, inexact: bool)
    requires 1 <= l <= |tab|
    ensures var m, u := Num(tab, 0, l), Unit(64 * l - prec);
      && addOne == Up(rnd, sign, m, u)
      && inexact == (rnd == RNDF || m % u != 0)
  {
    var bit0 := true;
    ghost var m, D := Num(tab, 0, l), 64 * l - prec;
    NumBound(tab, 0, l);
    if D >= 1 {
      HalfAndRest(m, D);
      if prec < -1 { AllDropped(m, l, D); }
    }
    if rnd != RNDF {
      bit0 := ScanBitNz(tab, l, l * 64 - 1 - (if prec + 1 > 0 then prec + 1 else 0));
    }
    var bit1 := GetBit(tab, l, l * 64 - 1 - prec);
    inexact := bit1 || bit0;
    addOne := false;
    match rnd
    case RNDZ =>
    case RNDN =>
      if bit1 {
        if bit0 {
          addOne := true;
        } else {
          addOne := GetBit(tab, l, l * 64 - 1 - (prec - 1));
        }
      }
    case RNDD | RNDU =>
      if sign == (rnd == RNDD) {
        addOne := inexact;
      }
    case RNDA =>
      addOne := inexact;
    case RNDNA | RNDF =>
      addOne := bit1;
  }

  // ---------------------------------------------------------------------
  // Adding one unit in the last place
  // ---------------------------------------------------------------------

  /** The addition has reached limb `i` of `t` with `carry` to add there. */
  ghost predicate Adding(t0: seq<Limb>, t: seq<Limb>, i: nat, l: nat, carry: nat, u: nat) {
    && i <= l <= |t0| == |t|
    && Num(t, 0, i) + carry * Pow(i) == Num(t0, 0, i) + u
    && (forall j :: i <= j < l ==> t[j] == t0[j])
  }

  lemma AddingStep(t0: seq<Limb>, t: seq<Limb>, i: nat, l: nat, carry: Limb, u: nat, v: Limb, carry1: Limb)
    requires Adding(t0, t, i, l, carry, u) && i < l
    requires t[i] as int + carry == v + carry1 * 0x1_0000_0000_0000_0000
    ensures Adding(t0, t[i := v], i + 1, l, carry1, u)
  {
    var t1 := t[i := v];
    NumSame(t, t1, 0, i);
    var p, x: int, c: int, c1: int, w: int := Pow(i), t0[i], carry, carry1, v;
    assert x * p + c * p == w * p + c1 * (0x1_0000_0000_0000_0000 * p) by {
      assert (x + c) * p == (w + c1 * 0x1_0000_0000_0000_0000) * p;
    }
  }

  lemma AddingEnds(t0: seq<Limb>, t: seq<Limb>, i: nat, l: nat, carry: nat, u: nat)
    requires Adding(t0, t, i, l, carry, u) && (i == l || carry == 0)
    ensures Num(t, 0, l) + carry * Pow(l) == Num(t0, 0, l) + u
  {
    if i < l {
      NumSplit(t, 0, i, l - i);
      NumSplit(t0, 0, i, l - i);
      NumSame(t, t0, i, l - i);
    }
  }

  lemma CarryDigit(x: Limb, c: Limb)
    ensures var v := Wrap(x as int + c); x as int + c == v + (if v < c then 1 else 0) * 0x1_0000_0000_0000_0000
  {
  }

  /** The unit at a bit position, as a carry into the limb that the bit lies in. */
  lemma AddingStarts(tab: seq<Limb>, l: nat, bitPos: nat)
    requires l <= |tab| && bitPos < 64 * l
    ensures 0 < Pow2(bitPos % 64) < 0x1_0000_0000_0000_0000
    ensures Adding(tab, tab, bitPos / 64, l, Pow2(bitPos % 64), Pow2(bitPos))
  {
    LimbBits();
    Pow2Monotone(bitPos % 64 + 1, 64);
    Position(bitPos / 64, bitPos % 64);
  }

  /** The carry loop of __bf_round. */
  method AddAt(tab: seq<Limb>, l: nat, bitPos: nat) returns (t: seq<Limb>, carry: Limb)
    requires l <= |tab| && bitPos < 64 * l
    ensures |t| == |tab| && carry <= 1
    ensures Num(t, 0, l) + carry * Pow(l) == Num(tab, 0, l) + Pow2(bitPos)
  {
    var pos := bitPos / 64;
    AddingStarts(tab, l, bitPos);
    t, carry := tab, Pow2(bitPos % 64);
    ghost var u := Pow2(bitPos);
    var i := pos;
    while i < l && carry != 0
      invariant pos <= i <= l && Adding(tab, t, i, l, carry, u)
      invariant i > pos ==> carry <= 1
    {
      CarryDigit(t[i], carry);
      var v := Wrap(t[i] as int + carry);
      var carry1: Limb := if v < carry then 1 else 0;
      AddingStep(tab, t, i, l, carry, u, v, carry1);
      t := t[i := v];
      carry := carry1;
      i := i + 1;
    }
    AddingEnds(tab, t, i, l, carry, u);
  }

  /** The loop that shifts the limbs from `pos` on right by one bit after a carry
      out of the top limb. */
  method ShiftRightOne(tab: seq<Limb>, pos: nat, l: nat) returns (t: seq<Limb>)
    requires pos < l <= |tab|
    ensures |t| == |tab| && forall j :: 0 <= j < pos ==> t[j] == tab[j]
    ensures Num(t, pos, l - pos) == (Num(tab, pos, l - pos) + Pow(l - pos)) / 2
  {
    assert Pow2(1) == 2;
    t := tab;
    var v: Limb := 1;
    var i := l;
    while i > pos
      invariant pos <= i <= l && |t| == |tab|
      invariant forall j :: 0 <= j < i ==> t[j] == tab[j]
      invariant Shifted(t, i, tab, i, l - i, 2, v, 1)
    {
      i := i - 1;
      var a := t[i];
      var x := ShrLimb(a, v, 1);
      ShiftRow(t, t[i := x], i, tab, i, l - i - 1, 2, v, 1);
      t := t[i := x];
      v := a;
    }
    HalfOf(Num(t, pos, l - pos), v % 2, Num(tab, pos, l - pos) + Pow(l - pos));
  }

  lemma HalfOf(h: nat, b: nat, x: nat)
    requires h * 2 + b == x && b < 2
    ensures h == x / 2
  {
  }

  /** After a carry out: the sum wrapped to `w`, a remainder below the unit; shifted
      right from limb `pos` on, with the carry on top, its kept bits are half of
      what they should be. */
  lemma CarriedOut(t: seq<Limb>, t1: seq<Limb>, pos: nat, l: nat, D: nat, m0: nat)
    requires pos < l <= |t| == |t1| && D / 64 == pos && D < 64 * l
    requires m0 < Pow(l) && Num(t, 0, l) + Pow(l) == m0 + Pow2(D)
    requires forall j :: 0 <= j < pos ==> t1[j] == t[j]
    requires Num(t1, pos, l - pos) == (Num(t, pos, l - pos) + Pow(l - pos)) / 2
    ensures Full(Num(t1, 0, l), l)
    ensures 2 * (Num(t1, 0, l) / Pow2(D)) == m0 / Pow2(D) + 1
    ensures m0 / Pow2(D) + 1 == Pow2(64 * l - D)
  {
    var u, K := Pow2(D), Pow2(64 * l - 1 - D);
    Halves(l, D);
    MultipleBelow(m0, u, K, Num(t, 0, l), Pow(l));
    CarriedBounds(t, t1, pos, l, u, K);
    DivUnique(Num(t1, 0, l), u, K, Num(t1, 0, l) - K * u);
    MulMonotone(1, K, u);
    NumBound(t1, 0, l);
  }

  lemma Halves(l: nat, D: nat)
    requires D < 64 * l
    ensures Pow(l) == 2 * (Pow2(D) * Pow2(64 * l - 1 - D))
    ensures Pow2(64 * l - D) == 2 * Pow2(64 * l - 1 - D)
    ensures Pow2(64 * l - 1) == Pow2(64 * l - 1 - D) * Pow2(D)
  {
    var k := 64 * l - 1 - D;
    LimbPower(l);
    assert Pow2(64 * l) == 2 * Pow2(64 * l - 1) && Pow2(k + 1) == 2 * Pow2(k);
    Pow2Add(D, k);
    Commute(Pow2(D), Pow2(k));
  }

  lemma CarriedBounds(t: seq<Limb>, t1: seq<Limb>, pos: nat, l: nat, u: nat, K: nat)
    requires pos < l <= |t| == |t1| && Num(t, 0, l) < u && Pow(l) == 2 * (u * K)
    requires forall j :: 0 <= j < pos ==> t1[j] == t[j]
    requires Num(t1, pos, l - pos) == (Num(t, pos, l - pos) + Pow(l - pos)) / 2
    ensures K * u <= Num(t1, 0, l) < K * u + u
  {
    NumSplit(t, 0, pos, l - pos);
    NumSplit(t1, 0, pos, l - pos);
    NumSame(t, t1, 0, pos);
    PowAdd(pos, l - pos);
    PowEven(l - pos);
    HalfSum(Num(t, pos, l - pos), Pow(pos), Num(t, 0, pos), u, K, Pow(l - pos));
  }

  lemma PowEven(n: nat)
    requires n >= 1
    ensures Pow(n) % 2 == 0
  {
    assert Pow(n) == 2 * (0x8000_0000_0000_0000 * Pow(n - 1));
  }

  lemma HalfSum(h: nat, P: nat, lo: nat, u: nat, K: nat, Q: nat)
    requires Q % 2 == 0 && lo + h * P < u && P * Q == 2 * (u * K)
    ensures K * u <= lo + (h + Q) / 2 * P < K * u + u
  {
    var q := Q / 2;
    assert (h + Q) / 2 == h / 2 + q;
    assert (h / 2 + q) * P == (h / 2) * P + q * P;
    assert P * (2 * q) == 2 * (q * P);
    MulMonotone(h / 2, h, P);
    MulMonotone(0, h / 2, P);
  }

  lemma MultipleBelow(m0: nat, u: nat, K: nat, w: nat, B: nat)
    requires u > 0 && B == 2 * (u * K) && w + B == m0 + u && m0 < B
    ensures m0 / u + 1 == 2 * K
  {
    assert (2 * K - 1) * u == 2 * (u * K) - u;
    DivUnique(m0, u, 2 * K - 1, w);
  }

  // ---------------------------------------------------------------------
  // Keeping the wanted bits
  // ---------------------------------------------------------------------

  /** The limbs of `t` from `i` to `l` are what is left of the number `n`. */
  ghost predicate Left(t: seq<Limb>, i: nat, l: nat, n: nat) {
    i < l <= |t| && Num(t, i, l - i) * Pow(i) == n && t[l - 1] >= 0x8000_0000_0000_0000
  }

  lemma LeftSkips(t: seq<Limb>, i: nat, l: nat, n: nat)
    requires Left(t, i, l, n) && t[i] == 0
    ensures Left(t, i + 1, l, n)
  {
    NumCons(t, i, l - i - 1);
    var h, p := Num(t, i + 1, l - i - 1), Pow(i);
    assert (0x1_0000_0000_0000_0000 * h) * p == h * (0x1_0000_0000_0000_0000 * p);
  }

  lemma TopKept(x: nat, u: nat, k: nat)
    requires u > 0 && x >= k * u
    ensures k * u <= x - x % u <= x
  {
    var d := x - k * u;
    KeptRest(d, u);
    assert (k + d / u) * u == k * u + d / u * u;
    DivUnique(x, u, k + d / u, d % u);
    MulMonotone(k, k + d / u, u);
  }

  /** A limb without its `s` lowest bits. */
  function Masked(x: Limb, s: nat): (y: Limb)
    ensures y == x as int - x as int % Pow2(s)
  {
    ModFits(x, Pow2(s));
    x as int - x as int % Pow2(s)
  }

  lemma MaskedTop(x: Limb, s: nat)
    requires x >= 0x8000_0000_0000_0000 && s < 64
    ensures Masked(x, s) >= 0x8000_0000_0000_0000
  {
    HalfLimb();
    Pow2Add(63 - s, s);
    TopKept(x, Pow2(s), Pow2(63 - s));
  }

  lemma MaskedWindow(tab: seq<Limb>, t: seq<Limb>, i: nat, l: nat, s: nat)
    requires i < l <= |tab| && t == tab[i := Masked(tab[i], s)]
    ensures Num(t, i, l - i) * Pow(i) + (tab[i] as int % Pow2(s)) * Pow(i) + Num(tab, 0, i) == Num(tab, 0, l)
  {
    NumSplit(tab, 0, i, l - i);
    NumCons(tab, i, l - i - 1);
    NumCons(t, i, l - i - 1);
    NumSame(tab, t, i + 1, l - i - 1);
    Distribute(Num(t, i, l - i), tab[i] as int % Pow2(s), Pow(i));
  }

  lemma Distribute(x: int, y: int, p: int)
    ensures x * p + y * p == (x + y) * p
  {
  }

  /** `m` without what lies below the unit `u`. */
  function Kept(m: nat, u: nat): nat
    requires u > 0
  {
    m / u * u
  }

  lemma KeptRest(m: nat, u: nat)
    requires u > 0
    ensures Kept(m, u) + m % u == m
  {
  }

  lemma MaskLeaves(tab: seq<Limb>, l: nat, i: nat, s: nat)
    requires i < l <= |tab| && s < 64 && Full(Num(tab, 0, l), l)
    ensures Left(tab[i := Masked(tab[i], s)], i, l, Kept(Num(tab, 0, l), Pow2(64 * i + s)))
  {
    var t, m, u := tab[i := Masked(tab[i], s)], Num(tab, 0, l), Pow2(64 * i + s);
    LowBits(tab, l, i, s);
    MaskedWindow(tab, t, i, l, s);
    KeptIs(m, u, Num(t, i, l - i) * Pow(i), (tab[i] as int % Pow2(s)) * Pow(i) + Num(tab, 0, i));
    TopBit(tab, l);
    MaskedTop(tab[l - 1], s);
  }

  lemma KeptIs(m: nat, u: nat, k: nat, r: nat)
    requires u > 0 && k + r == m && m % u == r
    ensures Kept(m, u) == k
  {
    KeptRest(m, u);
  }

  /** The end of __bf_round: masks the bits below `D` and drops the zero limbs. */
  method Trim(tab: seq<Limb>, l: nat, D: int) returns (t: seq<Limb>)
    requires 1 <= l <= |tab| && D < 64 * l && Full(Num(tab, 0, l), l)
    ensures 1 <= |t| <= l && t[0] != 0 && t[|t| - 1] >= 0x8000_0000_0000_0000
    ensures var m := Num(tab, 0, l); Num(t, 0, |t|) * Pow(l - |t|) == Kept(m, Unit(D))
  {
    ghost var m := Num(tab, 0, l);
    ghost var n := Kept(m, Unit(D));
    t := tab;
    var i := D / 64;
    if i >= 0 {
      MaskLeaves(tab, l, i, D % 64);
      assert 64 * i + D % 64 == D;
      var shift := D % 64;
      if shift != 0 {
        t := t[i := Masked(t[i], shift)];
      } else {
        assert Masked(t[i], 0) == t[i] && t[i := t[i]] == t;
      }
    } else {
      i := 0;
      TopBit(tab, l);
      assert Left(t, i, l, n);
    }
    while t[i] == 0
      invariant 0 <= i < l && Left(t, i, l, n)
      decreases l - i
    {
      LeftSkips(t, i, l, n);
      i := i + 1;
    }
    ghost var was := t;
    t := t[i..l];
    NumMoved(was, i, t, 0, l - i);
  }

  // ---------------------------------------------------------------------
  // Values
  // ---------------------------------------------------------------------

  /** The number with mantissa `m` of `l` limbs, read as a fraction, times 2^expn. */
  function Magnitude(m: nat, l: nat, expn: int): real {
    Times(m, TwoTo(expn - 64 * l))
  }

  function Value(sign: bool, expn: int, tab: seq<Limb>): real {
    SignedReal(sign, Magnitude(Num(tab, 0, |tab|), |tab|, expn))
  }

  /** No zero limb at the bottom and the top bit set. */
  predicate NormalForm(tab: seq<Limb>) {
    tab != [] && tab[0] != 0 && tab[|tab| - 1] >= 0x8000_0000_0000_0000
  }

  /** Dropping zero limbs at the bottom keeps the number. */
  lemma FewerLimbs(n: nat, k: nat, l: nat, expn: int)
    requires k <= l
    ensures Magnitude(n, k, expn) == Magnitude(n * Pow(l - k), l, expn)
  {
    LimbPower(l - k);
    TwoToAdd(expn - 64 * l, 64 * (l - k));
    TimesTimes(n, Pow(l - k), TwoTo(expn - 64 * l));
  }

  lemma OneMoreBit(m: nat, l: nat, expn: int)
    ensures Magnitude(m, l, expn + 1) == Magnitude(2 * m, l, expn)
  {
    TwoToNext(expn - 64 * l);
    var t := TwoTo(expn - 64 * l);
    TimesNext(1, t);
    TimesTimes(m, 2, t);
    assert Times(2, t) == 2.0 * t;
  }

  /** A mantissa with its top bit set has its exponent's magnitude. */
  lemma FullMagnitude(m: nat, l: nat, expn: int)
    requires Full(m, l)
    ensures TwoTo(expn - 1) <= Magnitude(m, l, expn) < TwoTo(expn)
  {
    var t := TwoTo(expn - 64 * l);
    LimbPower(l);
    TwoToAdd(expn - 64 * l, 64 * l);
    TwoToAdd(expn - 64 * l, 64 * l - 1);
    ScaleCompare(m, Pow(l), t);
    ScaleCompare(m, Pow2(64 * l - 1), t);
  }

  /** The exponent of a positive number is unique. */
  lemma ExponentUnique(x: real, e: int, f: int)
    requires TwoTo(e - 1) <= x < TwoTo(e) && TwoTo(f - 1) <= x < TwoTo(f)
    ensures e == f
  {
    if e < f {
      TwoToMonotone(e, f - 1);
    } else if f < e {
      TwoToMonotone(f, e - 1);
    }
  }

  lemma {:induction false} TwoToMonotone(e: int, f: int)
    requires e <= f
    ensures TwoTo(e) <= TwoTo(f)
    decreases f - e
  {
    if e < f {
      TwoToMonotone(e, f - 1);
      TwoToNext(f - 1);
    }
  }

  /** What the unit keeps still has the top bit. */
  lemma KeptFull(m: nat, l: nat, D: int)
    requires Full(m, l) && D < 64 * l
    ensures Full(Kept(m, Unit(D)), l)
  {
    if D > 0 {
      Halves(l, D);
      TopKept(m, Pow2(D), Pow2(64 * l - 1 - D));
      KeptRest(m, Pow2(D));
    }
  }

  // ---------------------------------------------------------------------
  // The object
  // ---------------------------------------------------------------------

  /** The precision in bits that __bf_round works with. */
  function Precision(prec1: nat, expn: int, flags: Flags): int {
    if flags.radpnt then
      if prec1 != PREC_INF then expn + prec1 else prec1
    else if expn < EMin(flags) && flags.subnormal then prec1 - (EMin(flags) - expn)
    else prec1
  }

  function EMax(flags: Flags): int {
    if flags.expBits == 0 then 1 else Pow2(flags.expBits - 1)
  }

  function EMin(flags: Flags): int {
    3 - EMax(flags)
  }

  function Greater(x: real, y: real): real {
    if x < y then y else x
  }

  /** The unit of the rounding: a power of two below the number's exponent, but not below
      that of the least normal number where subnormal numbers are wanted; a fixed one
      where the precision counts from the radix point. */
  lemma RoundingUnit(prec1: nat, e: int, flags: Flags)
    requires 3 <= flags.expBits <= 62
    ensures var ulp := TwoTo(e - Precision(prec1, e, flags));
      ulp == if flags.radpnt then TwoTo(if prec1 == 0x3FFF_FFFF_FFFF_FFFF then e - prec1 else -(prec1 as int))
             else if flags.subnormal then Greater(TwoTo(e - prec1), TwoTo(3 - Pow2(flags.expBits - 1) - prec1))
             else TwoTo(e - prec1)
  {
    var z := 3 - Pow2(flags.expBits - 1) - prec1;
    if e - prec1 <= z { TwoToMonotone(e - prec1, z); } else { TwoToMonotone(z, e - prec1); }
  }

  /** A multiple of a greater unit is one of the smaller. */
  lemma CoarserUnit(q: int, z: int, n: nat)
    ensures Times(q, TwoTo(z + n)) == Times(q * Pow2(n), TwoTo(z))
  {
    TwoToAdd(z, n);
    TimesIsProduct(q, TwoTo(z + n));
    TimesIsProduct(Pow2(n), TwoTo(z));
    TimesIsProduct(q * Pow2(n), TwoTo(z));
    ProductOfThree(q as real, Pow2(n) as real, TwoTo(z), TwoTo(z + n), (q * Pow2(n)) as real);
  }

  lemma ProductOfThree(q: real, p: real, t: real, u: real, qp: real)
    requires u == p * t && qp == q * p
    ensures q * u == qp * t
  {
  }

  /** So every number that is rounded with subnormal numbers becomes a multiple of the
      unit that all subnormal numbers share. */
  lemma SubnormalGrid(mode: Mode, x: real, y: real, prec1: nat, e: int, flags: Flags) returns (k: int)
    requires 3 <= flags.expBits <= 62 && flags.subnormal && !flags.radpnt
    requires IsRounding(mode, x, y, TwoTo(e - Precision(prec1, e, flags)))
    ensures y == Times(k, TwoTo(3 - Pow2(flags.expBits - 1) - prec1))
  {
    var z := 3 - Pow2(flags.expBits - 1) - prec1;
    var q: int :| y == Times(q, TwoTo(e - Precision(prec1, e, flags)))
               && Selects(mode, x, y, q, TwoTo(e - Precision(prec1, e, flags)));
    k := q;
    if e - prec1 > z {
      CoarserUnit(q, z, e - prec1 - z);
      k := q * Pow2(e - prec1 - z);
    }
  }

  /** Does an overflow give an infinity? (section 7.4 of IEEE 754-2019) */
  predicate ToInfinity(sign: bool, prec1: nat, rnd: Mode) {
    prec1 == PREC_INF || rnd in {RNDN, RNDNA, RNDA} || (rnd == RNDD && sign) || (rnd == RNDU && !sign)
  }

  /** What a caller demands of the flags and the precision. The precision may be
      zero only where it counts from the radix point and nothing can overflow. */
  predicate Demands(prec1: nat, expn: int, flags: Flags) {
    && prec1 <= PREC_INF && 3 <= flags.expBits <= 62
    && (flags.subnormal && !flags.radpnt ==> prec1 != PREC_INF)
    && (prec1 == 0 ==> flags.radpnt && expn < EMax(flags))
  }

  /** The number of zero bits above the top bit. */
  function Clz(a: Limb): (s: nat)
    requires a != 0
    ensures s < 64 && 0x8000_0000_0000_0000 <= a * Pow2(s) < 0x1_0000_0000_0000_0000
    decreases 0x1_0000_0000_0000_0000 - a
  {
    if a >= 0x8000_0000_0000_0000 then 0
    else
      var s := Clz(2 * a);
      assert (2 * a) * Pow2(s) == a * Pow2(s + 1);
      ClzFits(a, s + 1);
      1 + s
  }

  lemma ClzFits(a: Limb, s: nat)
    requires a != 0 && a * Pow2(s) < 0x1_0000_0000_0000_0000
    ensures s < 64
  {
    LimbBits();
    if s >= 64 {
      Pow2Monotone(64, s);
      MulMonotone(1, a, Pow2(s));
    }
  }

  /** One limb of a left shift by S = 2^shift, with E = 2^(64-shift). */
  lemma ShlDigit(a: Limb, c: nat, S: nat, E: nat)
    requires S > 0 && E > 0 && S * E == 0x1_0000_0000_0000_0000 && c < S
    ensures a / E < S
    ensures Wrap(a * S) + c < 0x1_0000_0000_0000_0000
    ensures a * S + c == Wrap(a * S) + c + (a / E) * 0x1_0000_0000_0000_0000
  {
    var hi, r := a / E, a % E;
    assert a == hi * E + r;
    assert a * S == hi * (S * E) + r * S;
    MulMonotone(r + 1, E, S);
    assert (r + 1) * S == r * S + S;
    MulMonotone(0, r, S);
    WrapMultiple(hi, r * S);
    if hi >= S { MulMonotone(S, hi, E); }
  }

  /** The `i` lowest limbs of `t` with `c` above them are those of `s` times S. */
  ghost predicate LeftShifted(t: seq<Limb>, s: seq<Limb>, i: nat, c: nat, S: nat) {
    i <= |t| == |s| && Num(t, 0, i) + c * Pow(i) == Num(s, 0, i) * S
  }

  lemma ShiftLeftStep(t: seq<Limb>, t1: seq<Limb>, tab: seq<Limb>, i: nat, c: nat, c1: nat, S: nat)
    requires i < |t| == |t1| == |tab| && forall j :: 0 <= j < i ==> t1[j] == t[j]
    requires LeftShifted(t, tab, i, c, S)
    requires t1[i] + c1 * 0x1_0000_0000_0000_0000 == tab[i] * S + c
    ensures LeftShifted(t1, tab, i + 1, c1, S)
  {
    NumSame(t, t1, 0, i);
    var p, x: int, w: int := Pow(i), tab[i], t1[i];
    assert (w + c1 * 0x1_0000_0000_0000_0000) * p == w * p + c1 * (0x1_0000_0000_0000_0000 * p);
    assert (x * S + c) * p == (x * p) * S + c * p;
    Distribute(Num(tab, 0, i), x * p, S);
  }

  /** The loop of bf_normalize_and_round that shifts the mantissa to the left. */
  method ShiftLeft(tab: seq<Limb>, l: nat, shift: nat) returns (t: seq<Limb>)
    requires 1 <= l <= |tab| && 1 <= shift < 64
    requires tab[l - 1] * Pow2(shift) < 0x1_0000_0000_0000_0000
    ensures |t| == |tab| && Num(t, 0, l) == Num(tab, 0, l) * Pow2(shift)
    ensures t[l - 1] >= tab[l - 1] * Pow2(shift)
  {
    var S, E := Pow2(shift), Pow2(64 - shift);
    LimbSplit(shift);
    t := tab;
    var v: Limb := 0;
    var i := 0;
    while i < l
      invariant 0 <= i <= l && |t| == |tab| && forall j :: i <= j < l ==> t[j] == tab[j]
      invariant i == 0 ==> v == 0
      invariant LeftShifted(t, tab, i, v / E, S)
      invariant i == l ==> v == tab[l - 1] && t[l - 1] >= Wrap(v * S)
    {
      var a := t[i];
      var x := ShlLimb(a, v, S, E);
      ShiftLeftStep(t, t[i := x], tab, i, v / E, a / E, S);
      t := t[i := x];
      v := a;
      i := i + 1;
    }
    TopShifted(v, shift);
  }

  /** One limb shifted left by S = 2^shift, with the top bits of `v` entering from
      below; E = 2^(64-shift). */
  function ShlLimb(a: Limb, v: Limb, S: nat, E: nat): (x: Limb)
    requires S > 0 && E > 0 && S * E == 0x1_0000_0000_0000_0000
    ensures x + (a / E) * 0x1_0000_0000_0000_0000 == a * S + v / E
    ensures x >= Wrap(a * S)
  {
    ShlFits(a, v, S, E);
    var hi: Limb := Wrap(a * S);
    hi as int + v / E
  }

  lemma LimbSplit(shift: nat)
    requires shift <= 64
    ensures Pow2(shift) * Pow2(64 - shift) == 0x1_0000_0000_0000_0000
  {
    LimbBits();
    Pow2Add(shift, 64 - shift);
  }

  lemma ShlFits(a: Limb, v: Limb, S: nat, E: nat)
    requires S > 0 && E > 0 && S * E == 0x1_0000_0000_0000_0000
    ensures var x := Wrap(a * S) as int + v / E;
      x < 0x1_0000_0000_0000_0000 && x + (a / E) * 0x1_0000_0000_0000_0000 == a * S + v / E
  {
    ShlDigit(v, 0, S, E);
    ShlDigit(a, v / E, S, E);
  }

  lemma TopShifted(v: nat, shift: nat)
    requires shift < 64 && v * Pow2(shift) < 0x1_0000_0000_0000_0000
    ensures v / Pow2(64 - shift) == 0 && Wrap(v * Pow2(shift)) == v * Pow2(shift)
  {
    NothingAbove(v, Pow2(shift), Pow2(64 - shift)) by { LimbSplit(shift); }
  }

  lemma NothingAbove(v: nat, S: nat, E: nat)
    requires E > 0 && S * E == 0x1_0000_0000_0000_0000 && v * S < 0x1_0000_0000_0000_0000
    ensures v / E == 0 && Wrap(v * S) == v * S
  {
    if v >= E {
      MulMonotone(E, v, S);
    } else {
      DivSmall(v, E);
    }
  }

  /** Shifting the mantissa and lowering the exponent keeps the number. */
  lemma Normalising(m: nat, shift: nat, l: nat, expn: int)
    ensures Magnitude(m * Pow2(shift), l, expn - shift) == Magnitude(m, l, expn)
  {
    TwoToAdd(expn - shift - 64 * l, shift);
    TimesTimes(m, Pow2(shift), TwoTo(expn - shift - 64 * l));
  }

  /** The limbs of the largest mantissa of `p` bits. */
  method LargestMantissa(p: nat) returns (t: seq<Limb>)
    requires p >= 1
    ensures NormalForm(t) && p <= 64 * |t| && Num(t, 0, |t|) + Pow2(64 * |t| - p) == Pow(|t|)
  {
    var l := (p + 63) / 64;
    ghost var u := Pow2(64 * l - p);
    MaskFits(64 * l - p);
    t := [0x1_0000_0000_0000_0000 - Pow2(64 * l - p)];
    AllOnesFirst(t, 64 * l - p);
    var i := 1;
    while i < l
      invariant 1 <= i <= l && |t| == i && NormalForm(t)
      invariant Num(t, 0, i) + u == Pow(i)
    {
      NumSame(t, t + [0xFFFF_FFFF_FFFF_FFFF], 0, i);
      t := t + [0xFFFF_FFFF_FFFF_FFFF];
      i := i + 1;
    }
  }

  class BF {
    var sign: bool
    var expn: int
    var tab: seq<Limb>

    /** bf_init */
    constructor ()
      ensures !sign && expn == EXP_ZERO && tab == []
    {
      sign := false;
      expn := EXP_ZERO;
      tab := [];
    }

    ghost predicate IsZero()
      reads this
    {
      tab == [] && expn == EXP_ZERO
    }

    ghost predicate Is(y: real)
      reads this
    {
      NormalForm(tab) && Value(sign, expn, tab) == y
    }

    /** The largest finite number of `p` bits. */
    ghost predicate IsLargest(p: nat, eMax: int)
      reads this
    {
      expn == eMax && NormalForm(tab)
      && Value(sign, expn, tab) == SignedReal(sign, Times(Pow2(p) - 1, TwoTo(eMax - p)))
    }

    ghost predicate Overflowed(prec1: nat, flags: Flags)
      reads this
    {
      if ToInfinity(sign, prec1, flags.rnd) then tab == [] && expn == EXP_INF else IsLargest(prec1, EMax(flags))
    }

    /** The result of rounding to `y`, whose exponent is `ey`: `y` itself where the
        exponent is in range. */
    ghost predicate Delivered(y: real, ey: int, prec: int, prec1: nat, flags: Flags, inexact: bool, ret: Status)
      reads this
    {
      if prec <= 0 then
        ret == Status(false, true, true) && if y == 0.0 then IsZero() else Is(y) && expn == ey
      else if ey < EMin(flags) && !flags.subnormal then
        ret == Status(false, true, true) && IsZero()
      else if ey > EMax(flags) then
        ret == Status(true, false, true) && Overflowed(prec1, flags)
      else
        ret == Status(false, inexact && ey < EMin(flags), inexact) && Is(y) && expn == ey
    }

    /** bf_set_overflow */
    method SetOverflow(sgn: bool, prec1: nat, flags: Flags) returns (ret: Status)
      requires 1 <= prec1 <= PREC_INF && 3 <= flags.expBits <= 62
      modifies this
      ensures sign == sgn && Overflowed(prec1, flags) && ret == Status(true, false, true)
    {
      sign := sgn;
      if prec1 == PREC_INF || flags.rnd == RNDN || flags.rnd == RNDNA || flags.rnd == RNDA
         || (flags.rnd == RNDD && sgn) || (flags.rnd == RNDU && !sgn) {
        tab := [];
        expn := EXP_INF;
      } else {
        tab := LargestMantissa(prec1);
        expn := Pow2(flags.expBits - 1);
        AllOnes(Num(tab, 0, |tab|), |tab|, prec1, expn);
      }
      return Status(true, false, true);
    }

    /** The number in the first `l` limbs without what lies below bit `D`. */
    ghost function KeptValue(l: nat, D: int): real
      requires l <= |tab|
      reads this
    {
      SignedReal(sign, Magnitude(Kept(Num(tab, 0, l), Unit(D)), l, expn))
    }

    /** The end of __bf_round: checks the exponent and keeps the wanted bits. */
    method Deliver(prec: int, prec1: nat, flags: Flags, l: nat, D: int, inexact: bool) returns (ret: Status)
      requires 1 <= l <= |tab| && Full(Num(tab, 0, l), l) && D < 64 * l && prec > 0
      requires 3 <= flags.expBits <= 62 && (expn > EMax(flags) ==> 1 <= prec1 <= PREC_INF)
      modifies this
      ensures sign == old(sign)
      ensures Delivered(old(KeptValue(l, D)), old(expn), prec, prec1, flags, inexact, ret)
    {
      var underflow := false;
      if expn < EMin(flags) {
        if flags.subnormal {
          underflow := inexact;
        } else {
          tab := [];
          expn := EXP_ZERO;
          return Status(false, true, true);
        }
      }
      if expn > EMax(flags) {
        ret := SetOverflow(sign, prec1, flags);
        return;
      }
      tab := Trim(tab, l, D);
      FewerLimbs(Num(tab, 0, |tab|), |tab|, l, expn);
      return Status(false, underflow, inexact);
    }

    /** The case of __bf_round in which no bit of the mantissa is kept. */
    method RoundTiny(prec: int, addOne: bool)
      requires prec <= 0
      modifies this
      ensures sign == old(sign)
      ensures if addOne then Is(SignedReal(sign, TwoTo(old(expn) - prec))) && expn == old(expn) + 1 - prec else IsZero()
    {
      if addOne {
        TinyUnit(expn - prec);
        tab := [0x8000_0000_0000_0000];
        expn := expn + 1 - prec;
      } else {
        tab := [];
        expn := EXP_ZERO;
      }
    }

    /** __bf_round: rounds a number whose first `l` limbs have the top bit set. */
    method Round(prec1: nat, flags: Flags, l: nat, known: bool) returns (ret: Status, ghost y: real, ghost ey: int)
      requires 1 <= l <= |tab| && Full(Num(tab, 0, l), l) && Demands(prec1, expn, flags)
      modifies this
      ensures sign == old(sign)
      ensures RoundedTo(flags.rnd, sign, old(Num(tab, 0, l)), l, old(expn), Precision(prec1, old(expn), flags), y, ey)
      ensures Delivered(y, ey, Precision(prec1, old(expn), flags), prec1, flags,
                known || flags.rnd == RNDF || y != SignedReal(sign, Magnitude(old(Num(tab, 0, l)), l, old(expn))), ret)
    {
      ghost var m, E := Num(tab, 0, l), expn;
      var prec: int := Precision(prec1, expn, flags);
      var D := 64 * l - prec;
      var addOne, inexact := GetRndAdd(sign, tab, l, prec, flags.rnd);
      inexact := inexact || known;
      ExactIfKept(flags.rnd, sign, m, Unit(D), l, E);
      if prec <= 0 {
        TinyRounding(flags.rnd, sign, m, l, E, prec);
        RoundTiny(prec, addOne);
        ret, y, ey := Status(false, true, true), SignedReal(sign, if addOne then TwoTo(E - prec) else 0.0), E + 1 - prec;
      } else {
        if addOne {
          AddUlp(l, D);
        }
        y, ey := KeptValue(l, D), expn;
        RoundedKept(flags.rnd, sign, m, l, E, prec, Num(tab, 0, l), expn);
        ret := Deliver(prec, prec1, flags, l, D, inexact);
      }
    }

    /** bf_normalize_and_round: the number in `tab`, with zero limbs and zero bits at
        the top, is rounded; `e` is its exponent. */
    method NormalizeAndRound(prec1: nat, flags: Flags) returns (ret: Status, ghost y: real, ghost e: int, ghost ey: int)
      requires Demands(prec1, expn, flags)
      modifies this
      ensures sign == old(sign)
      ensures old(Num(tab, 0, |tab|)) == 0 ==> IsZero() && ret == Status(false, false, false)
      ensures old(Num(tab, 0, |tab|)) != 0 ==>
        var x := old(Value(sign, expn, tab));
        && TwoTo(e - 1) <= Abs(x) < TwoTo(e)
        && IsRounding(flags.rnd, x, y, TwoTo(e - Precision(prec1, e, flags)))
        && (y != 0.0 ==> TwoTo(ey - 1) <= Abs(y) < TwoTo(ey))
        && Delivered(y, ey, Precision(prec1, e, flags), prec1, flags, flags.rnd == RNDF || y != x, ret)
    {
      ghost var t0, e0 := tab, expn;
      var l := |tab|;
      while l > 0 && tab[l - 1] == 0
        invariant 0 <= l <= |tab| && Num(t0, 0, l) == Num(t0, 0, |t0|)
        invariant Magnitude(Num(t0, 0, l), l, expn - 64 * (|t0| - l)) == Magnitude(Num(t0, 0, |t0|), |t0|, e0)
      {
        l := l - 1;
      }
      y, e, ey := 0.0, 0, 0;
      if l == 0 {
        expn := EXP_ZERO;
        tab := [];
        return Status(false, false, false), y, e, ey;
      }
      NonZeroSum(tab[l - 1], Pow(l - 1), Num(t0, 0, l - 1));
      expn := expn - (|tab| - l) * 64;
      var v := tab[l - 1];
      var shift := Clz(v);
      if shift != 0 {
        tab := ShiftLeft(tab, l, shift);
        Normalising(Num(t0, 0, l), shift, l, expn);
        expn := expn - shift;
      }
      TopBit(tab, l);
      e := expn;
      FullMagnitude(Num(tab, 0, l), l, expn);
      ret, y, ey := Round(prec1, flags, l, false);
    }

    /** Adds one unit in the last place; a carry out of the top limb moves the
        mantissa by one bit. */
    method AddUlp(l: nat, D: nat)
      requires 1 <= l <= |tab| && Full(Num(tab, 0, l), l) && 1 <= D < 64 * l
      modifies this`tab, this`expn
      ensures sign == old(sign) && l <= |tab| && Full(Num(tab, 0, l), l)
      ensures Magnitude(Kept(Num(tab, 0, l), Pow2(D)), l, expn)
           == old(Magnitude((Num(tab, 0, l) / Pow2(D) + 1) * Pow2(D), l, expn))
      ensures old(expn) <= expn <= old(expn) + 1
    {
      ghost var m0, u := Num(tab, 0, l), Pow2(D);
      var carry;
      tab, carry := AddAt(tab, l, D);
      if carry != 0 {
        ghost var t := tab;
        tab := ShiftRightOne(tab, D / 64, l);
        CarriedOut(t, tab, D / 64, l, D, m0);
        OneMoreBit(Kept(Num(tab, 0, l), u), l, expn);
        Twice(Num(tab, 0, l), u, m0 / u + 1);
        expn := expn + 1;
      } else {
        NextUnit(m0, u, Num(tab, 0, l));
        NumBound(tab, 0, l);
      }
    }
  }

  lemma Twice(m: nat, u: nat, c: nat)
    requires u > 0 && 2 * (m / u) == c
    ensures 2 * Kept(m, u) == c * u
  {
  }

  lemma NextUnit(m: nat, u: nat, m1: nat)
    requires u > 0 && m1 == m + u
    ensures Kept(m1, u) == (m / u + 1) * u
  {
    KeptRest(m, u);
    assert (m / u + 1) * u == m / u * u + u;
    DivUnique(m1, u, m / u + 1, m % u);
  }

  /** The result differs from the number exactly if bits were dropped that are not
      all zero. */
  lemma ExactIfKept(mode: Mode, neg: bool, m: nat, u: nat, l: nat, expn: int)
    requires u > 0
    ensures var c := Chosen(mode, neg, m, u);
      SignedReal(neg, Magnitude(c * u, l, expn)) == SignedReal(neg, Magnitude(m, l, expn)) <==> m % u == 0
  {
    var c := Chosen(mode, neg, m, u);
    ScaleCompare(c * u, m, TwoTo(expn - 64 * l));
    KeptRest(m, u);
    assert (m / u + 1) * u == m / u * u + u;
  }

  /** `y`, with exponent `ey`, is the mantissa `m` rounded to `prec` bits. */
  ghost predicate RoundedTo(mode: Mode, neg: bool, m: nat, l: nat, expn: int, prec: int, y: real, ey: int) {
    && IsRounding(mode, SignedReal(neg, Magnitude(m, l, expn)), y, TwoTo(expn - prec))
    && (y != 0.0 ==> TwoTo(ey - 1) <= Abs(y) < TwoTo(ey))
  }

  /** 2^z as a number of one limb. */
  lemma TinyUnit(z: int)
    ensures Full(0x8000_0000_0000_0000, 1) && NormalForm([0x8000_0000_0000_0000])
    ensures Magnitude(Num([0x8000_0000_0000_0000], 0, 1), 1, z + 1) == TwoTo(z)
  {
    HalfLimb();
    OneLimb([0x8000_0000_0000_0000], 0);
    TopBit([0x8000_0000_0000_0000], 1);
    TwoToAdd(z - 63, 63);
  }

  lemma TinyRounding(mode: Mode, neg: bool, m: nat, l: nat, E: int, prec: int)
    requires prec <= 0 && Full(m, l)
    ensures var up := Up(mode, neg, m, Unit(64 * l - prec));
      var y := SignedReal(neg, if up then TwoTo(E - prec) else 0.0);
      && RoundedTo(mode, neg, m, l, E, prec, y, E + 1 - prec)
      && y == SignedReal(neg, Magnitude(Chosen(mode, neg, m, Unit(64 * l - prec)) * Unit(64 * l - prec), l, E))
  {
    var D := 64 * l - prec;
    var u := Unit(D);
    RoundedMantissa(mode, neg, m, D, E - 64 * l);
    NoneKept(m, l, D);
    TwoToAdd(E - 64 * l, D);
    TwoToNext(E - prec);
    assert Chosen(mode, neg, m, u) * u == if Up(mode, neg, m, u) then u else 0;
  }

  lemma NoneKept(m: nat, l: nat, D: nat)
    requires m < Pow(l) && D >= 64 * l
    ensures m / Pow2(D) == 0
  {
    LimbPower(l);
    Pow2Monotone(64 * l, D);
    DivSmall(m, Pow2(D));
  }

  /** The kept mantissa after the addition is the rounded one. */
  lemma RoundedKept(mode: Mode, neg: bool, m: nat, l: nat, E: int, prec: int, m1: nat, e1: int)
    requires prec > 0 && Full(m, l) && Full(m1, l)
    requires var u := Unit(64 * l - prec);
      if Up(mode, neg, m, u) then Magnitude(Kept(m1, u), l, e1) == Magnitude((m / u + 1) * u, l, E)
      else m1 == m && e1 == E
    ensures var u := Unit(64 * l - prec); var y := SignedReal(neg, Magnitude(Kept(m1, u), l, e1));
      && RoundedTo(mode, neg, m, l, E, prec, y, e1)
      && y == SignedReal(neg, Magnitude(Chosen(mode, neg, m, u) * u, l, E))
  {
    var D := 64 * l - prec;
    RoundedMantissa(mode, neg, m, D, E - 64 * l);
    KeptFull(m1, l, D);
    FullMagnitude(Kept(m1, Unit(D)), l, e1);
  }

  lemma MaskFits(s: nat)
    requires s < 64
    ensures 1 <= Pow2(s) <= 0x8000_0000_0000_0000
  {
    HalfLimb();
    Pow2Monotone(s, 63);
  }

  lemma AllOnesFirst(t: seq<Limb>, s: nat)
    requires |t| == 1 && t[0] + Pow2(s) == 0x1_0000_0000_0000_0000
    ensures Num(t, 0, 1) + Pow2(s) == Pow(1)
  {
    OneLimb(t, 0);
    assert Pow(1) == 0x1_0000_0000_0000_0000 * Pow(0);
  }

  lemma AllOnesProduct(m: nat, l: nat, p: nat)
    requires p <= 64 * l && m + Pow2(64 * l - p) == Pow(l)
    ensures m == (Pow2(p) - 1) * Pow2(64 * l - p)
  {
    var q := 64 * l - p;
    LimbPower(l);
    Pow2Add(p, q);
    MinusOne(Pow2(p), Pow2(q));
  }

  lemma MinusOne(p: int, u: int)
    ensures (p - 1) * u == p * u - u
  {
  }

  lemma AllOnes(m: nat, l: nat, p: nat, e: int)
    requires p <= 64 * l && m + Pow2(64 * l - p) == Pow(l)
    ensures Magnitude(m, l, e) == Times(Pow2(p) - 1, TwoTo(e - p))
  {
    var u := Pow2(64 * l - p);
    AllOnesProduct(m, l, p);
    TwoToAdd(e - 64 * l, 64 * l - p);
    TimesTimes(Pow2(p) - 1, u, TwoTo(e - 64 * l));
  }
}
