/** Radix conversion of Sources/SubstrataQuickJS/libbf.c: an integer from its digits
    and back, by halving the number of digits, with cached powers and their rounded
    inverses. */
module Radix {

  import opened Limbs
  import opened Bits
  import opened Bitwise
  import opened Rounding
  import opened Arithmetic
  import opened LogicOps

  /** More digits do not fit into memory. */
  const MAX_DIGITS := 0x10_0000_0000_0000

  /** Rounding to nearest with all exponent bits, and to an integer: BF_RNDN and the
      flags of bf_rint. */
  const NEAREST := Flags(RNDN, 61, false, false)
  const INTEGRAL := Flags(RNDZ, 61, true, false)

  // ---------------------------------------------------------------------
  // Numbers in a radix
  // ---------------------------------------------------------------------

  function Power(radix: nat, n: nat): (p: nat)
    ensures radix > 0 ==> p > 0
  {
    if n == 0 then 1
    else
      Positive(radix, Power(radix, n - 1));
      radix * Power(radix, n - 1)
  }

  lemma Positive(x: nat, y: nat)
    ensures x > 0 && y > 0 ==> x * y > 0
  {
  }

  lemma {:induction false} PowerAdd(radix: nat, m: nat, n: nat)
    ensures Power(radix, m + n) == Power(radix, m) * Power(radix, n)
  {
    if m > 0 {
      PowerAdd(radix, m - 1, n);
      Associative(radix, Power(radix, m - 1), Power(radix, n));
    }
  }

  /** The number with the `n` digits of `s` that start at `off`, the lowest first. */
  function Number(s: seq<Limb>, off: nat, n: nat, radix: nat): nat
    requires off + n <= |s|
  {
    if n == 0 then 0 else Number(s, off, n - 1, radix) + s[off + n - 1] * Power(radix, n - 1)
  }

  predicate Digits(s: seq<Limb>, off: nat, n: nat, radix: nat)
    requires off + n <= |s|
  {
    forall i :: off <= i < off + n ==> s[i] < radix
  }

  lemma {:induction false} NumberSame(s: seq<Limb>, t: seq<Limb>, off: nat, n: nat, radix: nat)
    requires off + n <= |s| && off + n <= |t| && forall i :: off <= i < off + n ==> s[i] == t[i]
    ensures Number(s, off, n, radix) == Number(t, off, n, radix)
  {
    if n > 0 { NumberSame(s, t, off, n - 1, radix); }
  }

  lemma {:induction false} NumberSplit(s: seq<Limb>, off: nat, m: nat, n: nat, radix: nat)
    requires off + m + n <= |s|
    ensures Number(s, off, m + n, radix) == Number(s, off, m, radix) + Number(s, off + m, n, radix) * Power(radix, m)
  {
    if n > 0 {
      NumberSplit(s, off, m, n - 1, radix);
      PowerAdd(radix, m, n - 1);
      Regroup(Number(s, off, m, radix), Number(s, off + m, n - 1, radix), s[off + m + n - 1],
              Power(radix, m), Power(radix, n - 1));
    }
  }

  lemma {:induction false} NumberBound(s: seq<Limb>, off: nat, n: nat, radix: nat)
    requires radix > 0 && off + n <= |s| && Digits(s, off, n, radix)
    ensures Number(s, off, n, radix) < Power(radix, n)
  {
    if n > 0 {
      NumberBound(s, off, n - 1, radix);
      DigitBound(Number(s, off, n - 1, radix), s[off + n - 1], radix, Power(radix, n - 1));
    }
  }

  lemma DigitBound(low: nat, d: nat, radix: nat, p: nat)
    requires low < p && d < radix
    ensures low + d * p < radix * p
  {
    MulMonotone(d + 1, radix, p);
    assert (d + 1) * p == d * p + p;
  }

  /** The digits of a number are unique. */
  lemma {:induction false} DigitsUnique(s: seq<Limb>, t: seq<Limb>, n: nat, radix: nat)
    requires radix > 0 && n <= |s| && n <= |t| && Digits(s, 0, n, radix) && Digits(t, 0, n, radix)
    requires Number(s, 0, n, radix) == Number(t, 0, n, radix)
    ensures s[..n] == t[..n]
  {
    if n > 0 {
      NumberBound(s, 0, n - 1, radix);
      NumberBound(t, 0, n - 1, radix);
      QuotientUnique(s[n - 1], Number(s, 0, n - 1, radix), t[n - 1], Number(t, 0, n - 1, radix), Power(radix, n - 1));
      DigitsUnique(s, t, n - 1, radix);
      assert s[..n] == s[..n - 1] + [s[n - 1]] && t[..n] == t[..n - 1] + [t[n - 1]];
    }
  }

  // ---------------------------------------------------------------------
  // Lengths
  // ---------------------------------------------------------------------

  /** ceil_log2 */
  function CeilLog2(a: Limb): (c: nat)
    ensures a <= Pow2(c) && c <= 64 && (a > 1 ==> c > 0 && Pow2(c - 1) < a)
  {
    if a <= 1 then 0
    else
      ClzBound(a - 1);
      ZerosBound(a - 1, 64 - Clz(a - 1));
      64 - Clz(a - 1)
  }

  /** How many digits the lower part gets at a level of the recursion. */
  function LowerLength(n0: nat, level: nat): nat {
    (n0 * 2 / Pow2(level + 1) + 1) / 2
  }

  /** The lengths that occur at a level: `n0` divided by 2^level, or one more. */
  predicate Sized(n: nat, n0: nat, level: nat) {
    1 <= n && n0 / Pow2(level) <= n <= n0 / Pow2(level) + 1
  }

  /** Both parts have digits, the upper one has at most one more than the lower one,
      and both have lengths of the next level. */
  lemma Parts(n: nat, n0: nat, level: nat)
    requires Sized(n, n0, level) && n >= 2
    ensures var n2 := LowerLength(n0, level);
      1 <= n2 < n && n - n2 <= n2 + 1 && Sized(n2, n0, level + 1) && Sized(n - n2, n0, level + 1)
  {
    var p := Pow2(level);
    DivDiv(n0, p, 2);
    DivDiv(n0 * 2, 2, p);
  }

  /** The level at which numbers of `n` digits are split is bounded, and the shift by
      `level + 1` is one by less than 64. */
  lemma LevelBound(n: nat, n0: Limb, level: nat)
    requires Sized(n, n0, level) && n0 < 0x8000_0000_0000_0000
    ensures n >= 2 ==> level <= CeilLog2(n0) && level + 1 < 64
    ensures n >= 3 ==> level < CeilLog2(n0)
  {
    var c := CeilLog2(n0);
    if n >= 2 {
      AtMost(n0, Pow2(level), 1);
      HalfLimb();
      if level > c { Pow2Monotone(c, level); }
      if level > 62 { Pow2Monotone(63, level); }
    }
    if n >= 3 {
      AtMost(n0, Pow2(level), 2);
      if level >= c { Pow2Monotone(c, level); }
    }
  }

  lemma AtMost(m: nat, p: nat, k: nat)
    requires p > 0 && k <= m / p
    ensures k * p <= m
  {
    MulMonotone(k, m / p, p);
  }

  // ---------------------------------------------------------------------
  // Powers
  // ---------------------------------------------------------------------

  lemma {:induction false} PowerMonotone(x: nat, m: nat, n: nat)
    requires x > 0 && m <= n
    ensures Power(x, m) <= Power(x, n)
    decreases n
  {
    if m < n {
      PowerMonotone(x, m, n - 1);
      MulMonotone(1, x, Power(x, n - 1));
    }
  }

  lemma UiHolds(v: Limb, shift: nat)
    requires v != 0 && 0x8000_0000_0000_0000 <= v * Pow2(shift) < 0x1_0000_0000_0000_0000
    ensures HoldsInt(false, 64 - shift, [v * Pow2(shift)], v)
  {
    OneLimb([v * Pow2(shift)], 0);
    Normalising(v, shift, 1, 64);
  }

  /** bf_set_ui */
  method SetUi(v: Limb) returns (r: BF)
    ensures fresh(r) && HoldsInt(r.sign, r.expn, r.tab, v)
  {
    r := new BF();
    if v != 0 {
      var shift := Clz(v);
      UiHolds(v, shift);
      r.tab, r.expn := [v * Pow2(shift)], 64 - shift;
    }
  }

  lemma IntTimesInt(x: nat, y: nat)
    ensures Mult(Times(x, TwoTo(0)), Times(y, TwoTo(0))) == Times(x * y, TwoTo(0))
  {
    TimesProduct(x, TwoTo(0), y, TwoTo(0));
    MultNeutral(TwoTo(0));
  }

  lemma NaturalSign(sign: bool, expn: int, tab: seq<Limb>, x: nat)
    requires HoldsInt(sign, expn, tab, x) && x != 0
    ensures !sign && NormalForm(tab) && Value(sign, expn, tab) == Times(x, TwoTo(0)) > 0.0
  {
    IntSign(sign, expn, tab, x);
    ScaleCompare(0, x, TwoTo(0));
  }

  /** bf_mul with infinite precision, for natural numbers: the product is exact. */
  method MulInt(a: BF, b: BF, ghost x: nat, ghost y: nat, ghost n: nat) returns (r: BF)
    requires HoldsInt(a.sign, a.expn, a.tab, x) && HoldsInt(b.sign, b.expn, b.tab, y)
    requires x * y < Pow2(n) && n <= EMax(PLAIN)
    ensures fresh(r) && HoldsInt(r.sign, r.expn, r.tab, x * y)
  {
    RangeFits();
    IntFinite(a.sign, a.expn, a.tab, x);
    IntFinite(b.sign, b.expn, b.tab, y);
    ghost var v, e, ey;
    var ret;
    r, ret, v, e, ey := Mul(a, b, PREC_INF, PLAIN);
    if x != 0 && y != 0 {
      NaturalSign(a.sign, a.expn, a.tab, x);
      NaturalSign(b.sign, b.expn, b.tab, y);
      IntTimesInt(x, y);
      ProductNotZero(x, y);
      CorrectInt(r, x * y, n, v, e, ey, ret);
    }
  }

  /** bf_pow_ui with infinite precision: the bits of the exponent from the top. */
  method PowUi(a: BF, b: Limb, ghost x: nat, ghost n: nat) returns (r: BF)
    requires HoldsInt(a.sign, a.expn, a.tab, x) && x > 0 && Power(x, b) < Pow2(n) && n <= EMax(PLAIN)
    ensures HoldsInt(r.sign, r.expn, r.tab, Power(x, b))
  {
    if b == 0 {
      r := SetUi(1);
      return;
    }
    r := a;
    var i: int := 64 - Clz(b) - 2;
    TopOfExponent(b);
    assert Power(x, 1) == x * Power(x, 0);
    while i >= 0
      invariant -1 <= i < 64 && HoldsInt(r.sign, r.expn, r.tab, Power(x, Shr(b, i + 1)))
    {
      ghost var h, c := Shr(b, i + 1), Shr(b, i);
      var bit := Shr(b, i) % 2 == 1;
      ShrSmaller(b, i);
      PowerMonotone(x, c, b);
      r := PowStep(r, a, bit, h, c, x, n);
      i := i - 1;
    }
  }

  /** b >> i */
  function Shr(b: nat, i: nat): nat {
    if i == 0 then b else Shr(b, i - 1) / 2
  }

  lemma {:induction false} ShrSmaller(b: nat, i: nat)
    ensures Shr(b, i) <= b
  {
    if i > 0 { ShrSmaller(b, i - 1); }
  }

  lemma {:induction false} ShrIs(b: nat, i: nat)
    ensures Shr(b, i) == b / Pow2(i)
  {
    if i > 0 {
      ShrIs(b, i - 1);
      DivDiv(b, Pow2(i - 1), 2);
      Commute(Pow2(i - 1), 2);
    }
  }

  lemma PowBits(x: nat, h: nat, c: nat)
    requires x > 0 && 2 * h <= c <= 2 * h + 1
    ensures var q := Power(x, h); 0 <= q * q <= Power(x, c) && Power(x, c) == if c == 2 * h then q * q else (q * q) * x
  {
    PowerAdd(x, h, h);
    Commute(Power(x, 2 * h), x);
    PowerMonotone(x, 2 * h, c);
  }

  lemma NatProduct(x: nat, y: nat)
    ensures x * y >= 0
  {
  }

  /** One bit of the exponent: from `h` to `c`. */
  method PowStep(r0: BF, a: BF, bit: bool, ghost h: nat, ghost c: nat, ghost x: nat, ghost n: nat) returns (r: BF)
    requires HoldsInt(a.sign, a.expn, a.tab, x) && x > 0 && Power(x, c) < Pow2(n) && n <= EMax(PLAIN)
    requires c == 2 * h + (if bit then 1 else 0) && HoldsInt(r0.sign, r0.expn, r0.tab, Power(x, h))
    ensures HoldsInt(r.sign, r.expn, r.tab, Power(x, c))
  {
    PowBits(x, h, c);
    r := MulInt(r0, r0, Power(x, h), Power(x, h), n);
    if bit {
      r := MulInt(r, a, Power(x, h) * Power(x, h), x, n);
    }
  }

  lemma TopOfExponent(b: Limb)
    requires b != 0
    ensures Shr(b, 64 - Clz(b) - 1) == 1
  {
    ShrIs(b, 63 - Clz(b));
    var s := Clz(b);
    var h := Pow2(63 - s);
    HalfLimb();
    ClzBound(b);
    Pow2Add(63 - s, s);
    if b < h { MulStrict(b, h, Pow2(s)); }
    DivUnique(b, h, 1, b - h);
  }

  // ---------------------------------------------------------------------
  // From digits
  // ---------------------------------------------------------------------

  /** A power in the table is empty, or it is the one that its level needs. */
  ghost predicate IsPower(p: BF, radix: nat, n: nat)
    reads p
  {
    p.tab == [] || HoldsInt(p.sign, p.expn, p.tab, Power(radix, n))
  }

  ghost predicate Cached(powTab: array<BF>, n0: nat, radix: nat)
    reads powTab, powTab[..]
  {
    forall l :: 0 <= l < powTab.Length ==> IsPower(powTab[l], radix, LowerLength(n0, l))
  }

  lemma {:induction false} PowerFits(radix: nat, bits: nat, n: nat)
    requires radix <= Pow2(bits)
    ensures Power(radix, n) <= Pow2(n * bits)
  {
    if n > 0 {
      PowerFits(radix, bits, n - 1);
      assert n * bits == bits + (n - 1) * bits;
      Pow2Add(bits, (n - 1) * bits);
      MulMonotone(radix, Pow2(bits), Power(radix, n - 1));
      MulMonotone(Power(radix, n - 1), Pow2((n - 1) * bits), Pow2(bits));
    }
  }

  /** Powers of a limb have few enough bits. */
  lemma LimbPowerFits(radix: Limb, n: nat)
    ensures Power(radix, n) <= Pow2(64 * n)
  {
    LimbBits();
    PowerFits(radix, 64, n);
  }

  lemma {:induction false} NumberFits(s: seq<Limb>, off: nat, n: nat, radix: Limb)
    requires off + n <= |s|
    ensures Number(s, off, n, radix) < Pow2(64 * n)
  {
    if n > 0 {
      NumberFits(s, off, n - 1, radix);
      LimbPowerFits(radix, n - 1);
      LimbBits();
      Pow2Add(64, 64 * (n - 1));
      MulMonotone(Power(radix, n - 1), Pow2(64 * (n - 1)), s[off + n - 1]);
      DigitBound(Number(s, off, n - 1, radix), s[off + n - 1], 0x1_0000_0000_0000_0000, Pow2(64 * (n - 1)));
      Commute(Power(radix, n - 1), s[off + n - 1]);
      Commute(Pow2(64 * (n - 1)), s[off + n - 1]);
    }
  }

  /** Computes the power of a level where it is missing. */
  method FillPower(powTab: array<BF>, level: nat, n0: nat, radix: Limb)
    requires level < powTab.Length && Cached(powTab, n0, radix) && radix > 0
    requires LowerLength(n0, level) <= MAX_DIGITS
    modifies powTab
    ensures Cached(powTab, n0, radix)
    ensures var p := powTab[level]; p.tab != [] && HoldsInt(p.sign, p.expn, p.tab, Power(radix, LowerLength(n0, level)))
    ensures forall l :: 0 <= l < powTab.Length && old(powTab[l].tab) != [] ==> powTab[l] == old(powTab[l])
  {
    if |powTab[level].tab| == 0 {
      var p := PowerOf(radix, LowerLength(n0, level));
      powTab[level] := p;
    }
  }

  /** bf_pow_ui_ui with infinite precision. */
  method PowerOf(radix: Limb, n: nat) returns (p: BF)
    requires radix > 0 && n <= MAX_DIGITS
    ensures p.tab != [] && HoldsInt(p.sign, p.expn, p.tab, Power(radix, n))
  {
    LimbPowerFits(radix, n);
    RangeFits();
    Pow2Monotone(64 * n, 64 * n + 1);
    var a := SetUi(radix);
    p := PowUi(a, n, radix, 64 * n + 1);
  }

  /** bf_integer_from_radix_rec */
  method IntegerFromRadixRec(tab: seq<Limb>, off: nat, n: nat, level: nat, n0: Limb, radix: Limb, powTab: array<BF>)
    returns (r: BF)
    requires off + n <= |tab| && Sized(n, n0, level) && n0 <= MAX_DIGITS && n <= n0 && radix > 0
    requires powTab.Length == CeilLog2(n0) + 2 && Cached(powTab, n0, radix)
    modifies powTab
    ensures HoldsInt(r.sign, r.expn, r.tab, Number(tab, off, n, radix))
    ensures Cached(powTab, n0, radix)
    ensures forall l :: 0 <= l < powTab.Length && old(powTab[l].tab) != [] ==> powTab[l] == old(powTab[l])
    decreases n
  {
    if n == 1 {
      assert Power(radix, 0) == 1 && Number(tab, off, 0, radix) == 0;
      r := SetUi(tab[off]);
      return;
    }
    Parts(n, n0, level);
    LevelBound(n, n0, level);
    var n2 := LowerLength(n0, level);
    var n1 := n - n2;
    FillPower(powTab, level, n0, radix);
    r := IntegerFromRadixRec(tab, off + n2, n1, level + 1, n0, radix, powTab);
    var b := powTab[level];
    var t := IntegerFromRadixRec(tab, off, n2, level + 1, n0, radix, powTab);
    r := Combine(r, b, t, tab, off, n2, n1, radix);
  }

  /** The number of both halves. */
  method Combine(r0: BF, b: BF, t: BF, ghost tab: seq<Limb>, ghost off: nat, ghost n2: nat, ghost n1: nat, ghost radix: Limb)
    returns (r: BF)
    requires off + n2 + n1 <= |tab| && n2 + n1 <= MAX_DIGITS
    requires HoldsInt(r0.sign, r0.expn, r0.tab, Number(tab, off + n2, n1, radix))
    requires HoldsInt(b.sign, b.expn, b.tab, Power(radix, n2))
    requires HoldsInt(t.sign, t.expn, t.tab, Number(tab, off, n2, radix))
    ensures HoldsInt(r.sign, r.expn, r.tab, Number(tab, off, n2 + n1, radix))
  {
    ghost var x, y, z, n := Number(tab, off + n2, n1, radix), Power(radix, n2), Number(tab, off, n2, radix), 64 * (n2 + n1);
    NumberSplit(tab, off, n2, n1, radix);
    NumberFits(tab, off, n2 + n1, radix);
    NatProduct(x, y);
    RangeFits();
    r := MulInt(r0, b, x, y, n);
    FewBits(r.sign, r.expn, r.tab, x * y, n);
    FewBits(t.sign, t.expn, t.tab, z, n);
    r := AddInt(r, t, x * y, z);
  }

  /** bf_integer_from_radix; the table starts with empty numbers. */
  method IntegerFromRadix(tab: seq<Limb>, n: Limb, radixl: Limb) returns (r: BF)
    requires 1 <= n <= |tab| && n <= MAX_DIGITS && radixl > 0
    ensures HoldsInt(r.sign, r.expn, r.tab, Number(tab, 0, n, radixl))
  {
    assert Pow2(0) == 1;
    var empty := new BF();
    var powTab := new BF[CeilLog2(n) + 2](_ => empty);
    r := IntegerFromRadixRec(tab, 0, n, 0, n, radixl, powTab);
  }

  // ---------------------------------------------------------------------
  // Rounded quotients
  // ---------------------------------------------------------------------

  /** The exponent of a positive number. */
  function Exponent(x: real): (e: int)
    requires x > 0.0
    ensures TwoTo(e - 1) <= x < TwoTo(e)
    decreases if x >= 1.0 then x.Floor + 2 else (1.0 / x).Floor
  {
    if x >= 1.0 then
      Exponent(x / 2.0) + 1
    else if x < 0.5 then
      DoubledInverse(x);
      TwoToNext(Exponent(2.0 * x) - 2);
      Exponent(2.0 * x) - 1
    else
      0
  }

  lemma DoubledInverse(x: real)
    requires 0.0 < x < 0.5
    ensures 1.0 / (2.0 * x) == 1.0 / x / 2.0 && 1.0 / x > 2.0
  {
  }

  /** The multiple of `ulp` nearest to `x`, the even one of two. */
  function Nearest(x: real, ulp: real): real
    requires x >= 0.0 && ulp > 0.0
  {
    var q := (x / ulp).Floor;
    var r := x - Times(q, ulp);
    if 2.0 * r > ulp || (2.0 * r == ulp && q % 2 == 1) then Times(q + 1, ulp) else Times(q, ulp)
  }

  lemma NearestRounds(x: real, ulp: real)
    requires x >= 0.0 && ulp > 0.0
    ensures IsRounding(RNDN, x, Nearest(x, ulp), ulp)
  {
    var q := (x / ulp).Floor;
    TimesIsProduct(q, ulp);
    FloorBelow(x, ulp);
    TimesNext(q, ulp);
    assert Selects(RNDN, x, Times(q, ulp), q, ulp) || Selects(RNDN, x, Times(q + 1, ulp), q + 1, ulp);
  }

  lemma FloorBelow(x: real, ulp: real)
    requires x >= 0.0 && ulp > 0.0
    ensures var q := (x / ulp).Floor; q as real * ulp <= x < q as real * ulp + ulp
  {
    var z: real := x / ulp;
    var f: real := z.Floor as real;
    DivTimes(x, ulp);
    Scaled(x, z, f, f + 1.0, ulp);
  }

  lemma DivTimes(x: real, y: real)
    requires y != 0.0
    ensures x / y * y == x
  {
  }

  lemma Scaled(x: real, z: real, q: real, w: real, ulp: real)
    requires ulp > 0.0 && q <= z < w == q + 1.0 && z * ulp == x
    ensures q * ulp <= x
    ensures x < q * ulp + ulp
  {
    RealMonotone(q, z, ulp);
    assert x < w * ulp by { RealStrict(z, w, ulp); }
    OneMore(q, w, ulp);
  }

  lemma OneMore(q: real, w: real, ulp: real)
    requires w == q + 1.0
    ensures w * ulp == q * ulp + ulp
  {
  }

  lemma RealMonotone(x: real, y: real, z: real)
    requires x <= y && z >= 0.0
    ensures x * z <= y * z
  {
  }

  lemma RealStrict(x: real, y: real, z: real)
    requires x < y && z > 0.0
    ensures x * z < y * z
  {
  }

  /** bf_mul and bf_div, rounding to nearest: the exact result rounded to `prec` bits. */
  function RoundToNearest(x: real, prec: nat): (y: real)
    requires x >= 0.0
    ensures y >= 0.0
  {
    if x == 0.0 then 0.0
    else
      NearestNotNegative(x, TwoTo(Exponent(x) - prec));
      Nearest(x, TwoTo(Exponent(x) - prec))
  }

  lemma NearestNotNegative(x: real, ulp: real)
    requires x >= 0.0 && ulp > 0.0
    ensures Nearest(x, ulp) >= 0.0
  {
    NearestRounds(x, ulp);
    RoundingNearest(RNDN, x, Nearest(x, ulp), ulp, 0);
  }

  /** B_inv: the inverse of a power, rounded to `p` bits. */
  function Inverse(b: nat, p: nat): (inv: real)
    requires b > 0
    ensures inv >= 0.0
  {
    InverseIsPositive(b as real);
    RoundToNearest(1.0 / b as real, p)
  }

  lemma InverseIsPositive(b: real)
    requires b > 0.0
    ensures 1.0 / b > 0.0
  {
  }

  /** The quotient that bf_integer_to_radix_rec starts from: the product with the
      inverse, rounded to `nb` bits and then truncated. */
  function Estimate(a: nat, inv: real, nb: nat): (q: nat)
    requires inv >= 0.0
  {
    TimesMonotone(a, 0.0, inv);
    RoundToNearest(Times(a, inv), nb).Floor
  }

  lemma {:induction false} TimesInt(b: nat, q: int)
    ensures Times(b, q as real) == (q * b) as real
  {
    if b > 0 {
      TimesInt(b - 1, q);
      assert q * b == q * (b - 1) + q;
    }
  }

  lemma RoundedClose(x: real, prec: nat)
    requires x > 0.0
    ensures 2.0 * Abs(x - RoundToNearest(x, prec)) <= TwoTo(Exponent(x) - prec)
  {
    NearestRounds(x, TwoTo(Exponent(x) - prec));
  }

  lemma {:induction false} TwoToIsPower(n: nat)
    ensures TwoTo(n) == Pow2(n) as real
  {
    if n > 0 { TwoToIsPower(n - 1); }
  }

  /** The error of the rounded inverse, in units of the last of its `p` bits. */
  lemma InverseError(x: real, p: nat)
    requires x > 0.0
    ensures Times(Pow2(p), Abs(RoundToNearest(x, p) - x)) <= x
  {
    var e := Exponent(x);
    RoundedClose(x, p);
    TwoToNext(e - 1 - p);
    TwoToAdd(e - 1 - p, p);
    TimesMonotone(Pow2(p), Abs(RoundToNearest(x, p) - x), TwoTo(e - 1 - p));
  }

  /** If `a` times `x` has at most `nb` bits, then `a` times the rounded `x` is less
      than a quarter off. */
  lemma QuarterOff(a: nat, x: real, d: real, nb: nat, p: nat)
    requires d >= 0.0 && Times(Pow2(p), d) <= x && Times(a, x) <= Pow2(nb) as real && p >= nb + 2
    ensures Times(a, d) <= 0.25
  {
    var P := Pow2(p);
    TimesMonotone(a, Times(P, d), x);
    TimesSwap(a, P, d);
    Pow2Monotone(nb + 2, p);
    assert Pow2(nb + 2) == 2 * Pow2(nb + 1) && Pow2(nb + 1) == 2 * Pow2(nb);
    AtMostQuarter(Pow2(nb), P, Times(a, d));
  }

  lemma AtMostQuarter(n: nat, p: nat, y: real)
    requires n > 0 && p >= 4 * n && Times(p, y) <= n as real
    ensures y <= 0.25
  {
    if y > 0.25 {
      ScaleCompare(4 * n, p, y);
      Quadruple(n, y);
      TimesMonotone(n, 1.0, 4.0 * y);
      TimesInt(n, 1);
    }
  }

  lemma Quadruple(n: nat, y: real)
    ensures Times(4 * n, y) == Times(n, 4.0 * y)
  {
    TimesTimes(n, 4, y);
    TimesIsProduct(4, y);
  }

  lemma TimesDifference(a: nat, x: real, y: real)
    ensures Abs(Times(a, y) - Times(a, x)) == Times(a, Abs(y - x))
  {
    TimesSum(a, x, y - x);
    TimesSum(a, y, x - y);
    TimesMonotone(a, 0.0, Abs(y - x));
  }

  /** The rounded product: with `nb` bits for a number of at most that many, the error
      stays below one. */
  lemma EstimateError(t: real, z: real, nb: nat)
    requires nb >= 1 && 0.0 <= t && Abs(t - z) <= 0.25 && 0.0 <= z <= Pow2(nb) as real
    ensures 0.0 <= RoundToNearest(t, nb) && Abs(RoundToNearest(t, nb) - z) <= 0.75
  {
    if t > 0.0 {
      var e, ulp := Exponent(t), TwoTo(Exponent(t) - nb);
      TwoToIsPower(nb);
      NearestRounds(t, ulp);
      RoundingNearest(RNDN, t, Nearest(t, ulp), ulp, 0);
      RoundedClose(t, nb);
      if e <= nb {
        TwoToMonotone(e - nb, 0);
      } else {
        TwoToMonotone(nb, e - 1);
        TwoToNext(nb);
        if e > nb + 1 { TwoToMonotone(nb + 1, e - 1); TwoToMonotone(0, nb); }
        TwoToAdd(1, nb - 1);
        RoundingNearest(RNDN, t, Nearest(t, ulp), ulp, Pow2(nb - 1));
      }
    }
  }

  /** Truncating the estimate, the remainder is off by less than one divisor. */
  lemma TruncatedEstimate(a: nat, b: nat, z: real, qr: real)
    requires b > 0 && Times(b, z) == a as real && 0.0 <= qr && Abs(qr - z) <= 0.75
    ensures -(b as int) < a - qr.Floor * b < 2 * b
  {
    var q := qr.Floor;
    TimesInt(b, q);
    TimesInt(b, 1);
    TimesInt(b, 2);
    TimesMonotone(b, q as real, z + 0.75);
    TimesSum(b, z, 0.75);
    TimesMonotone(b, 0.75, 1.0);
    TimesMonotone(b, z, q as real + 1.75);
    TimesSum(b, q as real, 1.75);
    TimesMonotone(b, 1.75, 2.0);
  }

  /** The estimate of bf_integer_to_radix_rec, with the precisions it asks for. */
  lemma EstimateOff(a: nat, b: nat, nb: nat, p: nat)
    requires b > 0 && a < b * Pow2(nb) && nb >= 1 && p >= nb + 2
    ensures -(b as int) < a - Estimate(a, Inverse(b, p), nb) * b < 2 * b
  {
    var x, inv := 1.0 / b as real, Inverse(b, p);
    InverseOf(a, b, nb, x);
    InverseError(x, p);
    QuarterOff(a, x, Abs(inv - x), nb, p);
    TimesDifference(a, x, inv);
    TimesMonotone(a, 0.0, inv);
    EstimateError(Times(a, inv), Times(a, x), nb);
    TruncatedEstimate(a, b, Times(a, x), RoundToNearest(Times(a, inv), nb));
  }

  lemma InverseOf(a: nat, b: nat, nb: nat, x: real)
    requires b > 0 && a < b * Pow2(nb) && x == 1.0 / b as real
    ensures x > 0.0 && Times(b, Times(a, x)) == a as real && 0.0 <= Times(a, x) <= Pow2(nb) as real
  {
    InverseIsPositive(b as real);
    DivTimes(1.0, b as real);
    TimesIsProduct(b, x);
    QuotientBounds(a, b, Pow2(nb), x);
  }

  /** The bounds of a quotient `a` times `x`, where `x` is one divided by `b`. */
  lemma QuotientBounds(a: nat, b: nat, n: nat, x: real)
    requires x > 0.0 && Times(b, x) == 1.0 && a < b * n
    ensures Times(b, Times(a, x)) == a as real && 0.0 <= Times(a, x) <= n as real
  {
    TimesInt(a, 1);
    TimesInt(n, 1);
    TimesSwap(b, a, x);
    TimesMonotone(a, 0.0, x);
    QuotientBelow(a, b, n, x);
  }

  lemma QuotientBelow(a: nat, b: nat, n: nat, x: real)
    requires x > 0.0 && a < b * n
    ensures Times(a, x) < Times(n, Times(b, x))
  {
    Commute(b, n);
    ScaleCompare(a, n * b, x);
    TimesTimes(n, b, x);
  }

  // ---------------------------------------------------------------------
  // Rounded numbers
  // ---------------------------------------------------------------------

  lemma NearestRange()
    ensures EMax(NEAREST) == EMax(INTEGRAL) == EMax(PLAIN) == 0x1000_0000_0000_0000
    ensures EMin(NEAREST) == EMin(INTEGRAL) == 3 - 0x1000_0000_0000_0000
  {
    RangeFits();
  }

  /** Rounding to `p` bits stays between the powers of two around the number. */
  lemma NearestBounds(x: real, y: real, p: nat, e: int)
    requires p >= 1 && TwoTo(e - 1) <= x < TwoTo(e) && IsRounding(RNDN, x, y, TwoTo(e - p))
    ensures TwoTo(e - 1) <= y <= TwoTo(e)
  {
    TwoToAdd(e - p, p - 1);
    TwoToAdd(e - p, p);
    RoundingNearest(RNDN, x, y, TwoTo(e - p), Pow2(p - 1));
    RoundingNearest(RNDN, x, y, TwoTo(e - p), Pow2(p));
  }

  /** What the rounding of a positive number with a moderate exponent consists of. */
  lemma NearestDelivered(r: BF, x: real, p: nat, ret: Status, y: real, e: int, ey: int)
    requires 1 <= p <= PREC_INF && x > 0.0 && Correct(r, x, p, NEAREST, ret, y, e, ey)
    requires -0x800_0000_0000_0000 <= e <= 0x800_0000_0000_0000
    ensures NormalForm(r.tab) && Value(r.sign, r.expn, r.tab) == y == RoundToNearest(x, p) > 0.0
    ensures e <= r.expn <= e + 1 && IsFinite(r.expn, r.tab)
  {
    NearestRange();
    NearestBounds(x, y, p, e);
    ExponentUnique(x, e, Exponent(x));
    NearestRounds(x, TwoTo(e - p));
    RoundingUnique(RNDN, x, y, Nearest(x, TwoTo(e - p)), TwoTo(e - p));
    if ey < e { TwoToMonotone(ey, e - 1); }
    if ey > e + 1 { TwoToMonotone(e + 1, ey - 1); TwoToNext(e); }
  }

  /** The inverse of an integer of at most `n` bits. */
  lemma InverseExponent(x: real, b: nat, n: nat, e: int)
    requires 0 < b < Pow2(n) && Times(b, x) == 1.0 && TwoTo(e - 1) <= x < TwoTo(e)
    ensures -(n as int) <= e <= 1
  {
    var z := -(n as int);
    TwoToAdd(z, n);
    ScaleCompare(b, Pow2(n), TwoTo(z));
    if e <= z {
      TwoToMonotone(e, z);
      TimesMonotone(b, x, TwoTo(z));
    }
    if e >= 2 {
      TwoToMonotone(1, e - 1);
      assert TwoTo(1) == 2.0 * TwoTo(0);
      TimesInt(b, 1);
      TimesMonotone(b, 1.0, x);
    }
  }

  lemma MultIsTimes(b: nat, x: real)
    ensures Mult(x, Times(b, TwoTo(0))) == Times(b, x)
  {
    MultCommutes(x, Times(b, TwoTo(0)));
    MultTimes(b, TwoTo(0), x);
    MultCommutes(TwoTo(0), x);
    MultNeutral(x);
  }

  lemma InverseUnique(x: real, b: nat)
    requires b > 0 && Times(b, x) == 1.0
    ensures x == 1.0 / b as real > 0.0
  {
    var v := PositiveInverse(b);
    Unscaled(b, x, v);
  }

  /** B_inv: bf_div of one by a power. */
  method InverseOfPower(b: BF, p: nat, ghost x: nat, ghost n: nat) returns (v: BF)
    requires HoldsInt(b.sign, b.expn, b.tab, x) && 0 < x < Pow2(n) && n <= 64 * MAX_DIGITS && 1 <= p < PREC_INF
    ensures Finite(v) && NormalForm(v.tab) && Value(v.sign, v.expn, v.tab) == Inverse(x, p)
  {
    NearestRange();
    var one := SetUi(1);
    IntFinite(one.sign, one.expn, one.tab, 1);
    NaturalSign(one.sign, one.expn, one.tab, 1);
    NaturalSign(b.sign, b.expn, b.tab, x);
    TimesNext(0, TwoTo(0));
    ghost var inv, y, e, ey;
    var ret;
    v, ret, inv, y, e, ey := Div(one, b, p, NEAREST);
    MultIsTimes(x, inv);
    InverseUnique(inv, x);
    InverseExponent(inv, x, n, e);
    NearestDelivered(v, inv, p, ret, y, e, ey);
  }

  // ---------------------------------------------------------------------
  // The quotient
  // ---------------------------------------------------------------------

  lemma FloorIs(v: real, y: real)
    requires v > 0.0 && IsRounding(RNDZ, v, y, TwoTo(0))
    ensures v.Floor >= 0 && y == Times(v.Floor, TwoTo(0))
  {
    var q: int :| y == Times(q, TwoTo(0)) && Selects(RNDZ, v, y, q, TwoTo(0));
    TimesIsProduct(q, TwoTo(0));
    assert q as real == y;
    assert v.Floor == q;
  }

  lemma FloorExponent(v: real, y: real, E: int, ey: int)
    requires TwoTo(E - 1) <= v < TwoTo(E) && E >= 1 && v.Floor >= 0 && y == Times(v.Floor, TwoTo(0)) && y <= v
    requires y != 0.0 ==> TwoTo(ey - 1) <= Abs(y) < TwoTo(ey)
    ensures v.Floor >= 1 && y >= 1.0 && 1 <= ey <= E
  {
    TwoToMonotone(0, E - 1);
    TimesIsProduct(v.Floor, TwoTo(0));
    if ey <= 0 { TwoToMonotone(ey, 0); }
    if ey > E { TwoToMonotone(E, ey - 1); }
  }

  /** bf_rint towards zero, for a positive number. */
  method Rint(r: BF, ghost v: real)
    requires NormalForm(r.tab) && !r.sign && Value(r.sign, r.expn, r.tab) == v && r.expn < EMax(INTEGRAL)
    modifies r
    ensures v > 0.0 && HoldsInt(r.sign, r.expn, r.tab, v.Floor)
  {
    NearestRange();
    ghost var E := r.expn;
    TopBit(r.tab, |r.tab|);
    FullMagnitude(Num(r.tab, 0, |r.tab|), |r.tab|, E);
    ghost var y, ey;
    var ret;
    ret, y, ey := r.Round(0, INTEGRAL, |r.tab|, false);
    FloorIs(v, y);
    if E <= 0 {
      TwoToMonotone(E, 0);
      BelowOne(v);
    } else {
      FloorExponent(v, y, E, ey);
    }
  }

  lemma BelowOne(v: real)
    requires 0.0 < v < 1.0
    ensures v.Floor == 0
  {
  }

  lemma ProductExponent(t: real, nb: nat, e: int)
    requires 0.0 < t <= Pow2(nb) as real + 0.25 && TwoTo(e - 1) <= t < TwoTo(e)
    ensures e <= nb + 2
  {
    TwoToIsPower(nb);
    TwoToNext(nb);
    TwoToMonotone(0, nb);
    if e > nb + 2 { TwoToMonotone(nb + 2, e - 1); TwoToNext(nb + 1); }
  }

  /** The estimate: bf_mul with the inverse to `nb` bits, and bf_rint. */
  method EstimateQuotient(a: BF, inv: BF, nb: nat, ghost x: nat, ghost b: nat, ghost p: nat) returns (q: BF)
    requires HoldsInt(a.sign, a.expn, a.tab, x) && Finite(inv) && NormalForm(inv.tab)
    requires 0 < b < Pow2(64 * MAX_DIGITS) && Value(inv.sign, inv.expn, inv.tab) == Inverse(b, p)
    requires x < b * Pow2(nb) && 1 <= nb <= 64 * MAX_DIGITS && p >= nb + 2
    ensures HoldsInt(q.sign, q.expn, q.tab, Estimate(x, Inverse(b, p), nb))
  {
    NearestRange();
    IntFinite(a.sign, a.expn, a.tab, x);
    ghost var v, t := Inverse(b, p), Times(x, Inverse(b, p));
    ghost var y, e, ey;
    var ret;
    q, ret, y, e, ey := Mul(a, inv, nb, NEAREST);
    if x == 0 {
      assert t == 0.0;
    }
    if |a.tab| != 0 {
      NaturalSign(a.sign, a.expn, a.tab, x);
      MultCommutes(Times(x, TwoTo(0)), v);
      MultIsTimes(x, v);
      SignOfInverse(inv.sign, inv.expn, inv.tab, v);
      EstimateRange(x, b, nb, p, e);
      NearestDelivered(q, t, nb, ret, y, e, ey);
      Rint(q, y);
    }
  }

  lemma SignOfInverse(sign: bool, expn: int, tab: seq<Limb>, v: real)
    requires NormalForm(tab) && Value(sign, expn, tab) == v >= 0.0
    ensures !sign && v > 0.0
  {
    TopBit(tab, |tab|);
    FullMagnitude(Num(tab, 0, |tab|), |tab|, expn);
  }

  lemma EstimateRange(x: nat, b: nat, nb: nat, p: nat, e: int)
    requires 0 < x < b * Pow2(nb) && 0 < b < Pow2(64 * MAX_DIGITS) && nb >= 1 && p >= nb + 2
    requires var t := Times(x, Inverse(b, p)); Inverse(b, p) > 0.0 && TwoTo(e - 1) <= t < TwoTo(e)
    ensures Times(x, Inverse(b, p)) > 0.0 && -(64 * MAX_DIGITS) - 1 <= e <= nb + 2
  {
    var v, inv := 1.0 / b as real, Inverse(b, p);
    InverseOf(x, b, nb, v);
    InverseError(v, p);
    QuarterOff(x, v, Abs(inv - v), nb, p);
    TimesDifference(x, v, inv);
    TimesMonotone(x, 0.0, inv);
    ProductExponent(Times(x, inv), nb, e);
    InverseBelow(x, b, p, e);
  }

  lemma InverseBelow(x: nat, b: nat, p: nat, e: int)
    requires x > 0 && 0 < b < Pow2(64 * MAX_DIGITS) && p >= 1
    requires TwoTo(e - 1) <= Times(x, Inverse(b, p)) < TwoTo(e)
    ensures -(64 * MAX_DIGITS) - 1 <= e
  {
    var f := InverseAtLeast(b, p);
    AtLeastOnce(x, Inverse(b, p));
    if e < f { TwoToMonotone(e, f - 1); }
  }

  /** The rounded inverse is at least the power of two below the exact one. */
  lemma InverseAtLeast(b: nat, p: nat) returns (f: int)
    requires 0 < b < Pow2(64 * MAX_DIGITS) && p >= 1
    ensures TwoTo(f - 1) <= Inverse(b, p) && f >= -(64 * MAX_DIGITS)
  {
    var v := PositiveInverse(b);
    f := Exponent(v);
    InverseExponent(v, b, 64 * MAX_DIGITS, f);
    NearestRounds(v, TwoTo(f - p));
    NearestBounds(v, Inverse(b, p), p, f);
  }

  lemma PositiveInverse(b: nat) returns (v: real)
    requires b > 0
    ensures v == 1.0 / b as real > 0.0 && Times(b, v) == 1.0
  {
    v := 1.0 / b as real;
    InverseIsPositive(b as real);
    DivTimes(1.0, b as real);
    TimesIsProduct(b, v);
  }

  lemma AtLeastOnce(x: nat, v: real)
    requires x > 0 && v >= 0.0
    ensures Times(x, v) >= v
  {
    TimesNext(x - 1, v);
    TimesMonotone(x - 1, 0.0, v);
  }

  // ---------------------------------------------------------------------
  // To digits
  // ---------------------------------------------------------------------

  /** The adjusting loops: whatever the estimate was, the remainder is right at the end
      when the quotient is changed by `qAdd`. If it was off by less than one divisor,
      at most one of the loops runs, once. */
  method Adjust(R0: BF, B: BF, ghost r0: int, ghost b: nat, ghost n: nat) returns (R: BF, qAdd: int, ghost r: nat)
    requires HoldsInt(R0.sign, R0.expn, R0.tab, r0) && HoldsInt(B.sign, B.expn, B.tab, b)
    requires 0 < b < Pow2(n) && AbsInt(r0) < Pow2(n) && n < EMax(PLAIN)
    ensures HoldsInt(R.sign, R.expn, R.tab, r) && r < b && r0 == qAdd * b + r
    ensures -(b as int) < r0 < 2 * b ==> -1 <= qAdd <= 1
  {
    FewBits(B.sign, B.expn, B.tab, b, n);
    R := R0;
    ghost var s := r0;
    qAdd := 0;
    IntSign(R.sign, R.expn, R.tab, s);
    while R.sign && |R.tab| != 0
      invariant HoldsInt(R.sign, R.expn, R.tab, s) && s + qAdd * b == r0
      invariant (R.sign && |R.tab| != 0) <==> s < 0
      invariant AbsInt(s) < Pow2(n) && (s < b || s == r0)
      invariant if r0 >= 0 then s == r0 && qAdd == 0 else r0 > -(b as int) ==> (s == r0 && qAdd == 0) || (s >= 0 && qAdd == -1)
      decreases -s
    {
      FewBits(R.sign, R.expn, R.tab, s, n);
      NextMultiple(qAdd - 1, b);
      R := AddInt(R, B, s, b);
      s := s + b;
      IntSign(R.sign, R.expn, R.tab, s);
      qAdd := qAdd - 1;
    }
    var c := CmpInt(R, B, s, b);
    while c >= 0
      invariant HoldsInt(R.sign, R.expn, R.tab, s) && s + qAdd * b == r0 && 0 <= s < Pow2(n)
      invariant (c < 0 <==> s < b) && (r0 < 0 ==> s < b)
      invariant -(b as int) < r0 < 2 * b ==> -1 <= qAdd <= (if s < b then 1 else 0)
      invariant r0 < 2 * b ==> s < 2 * b
      decreases s
    {
      FewBits(R.sign, R.expn, R.tab, s, n);
      NextMultiple(qAdd, b);
      R := SubInt(R, B, s, b);
      s := s - b;
      qAdd := qAdd + 1;
      c := CmpInt(R, B, s, b);
    }
    r := s;
  }

  /** Two numbers of the table are empty, or they are the power and its rounded inverse
      that a level with `n2` lower digits needs. */
  ghost predicate IsPair(p: BF, v: BF, radixl: nat, n2: nat, bits: nat)
    requires radixl > 0
    reads p, v
  {
    p.tab == [] || (
      && HoldsInt(p.sign, p.expn, p.tab, Power(radixl, n2))
      && Finite(v) && NormalForm(v.tab)
      && Value(v.sign, v.expn, v.tab) == Inverse(Power(radixl, n2), (n2 + 1) * bits + 2))
  }

  ghost predicate AllPrepared(powTab: array<BF>, n0: nat, radixl: nat, bits: nat)
    requires radixl > 0
    reads powTab, powTab[..]
  {
    forall l: nat, i: nat :: i == 2 * l && i + 1 < powTab.Length ==>
      IsPair(powTab[i], powTab[i + 1], radixl, LowerLength(n0, l), bits)
  }

  /** Computes the power of a level and its rounded inverse where they are missing. */
  method Prepare(powTab: array<BF>, level: nat, n0: nat, radixl: Limb, bits: nat) returns (b: BF, inv: BF)
    requires radixl > 0 && 2 * level + 1 < powTab.Length && AllPrepared(powTab, n0, radixl, bits)
    requires LowerLength(n0, level) < MAX_DIGITS && bits <= 64
    modifies powTab
    ensures AllPrepared(powTab, n0, radixl, bits)
    ensures b.tab != [] && IsPair(b, inv, radixl, LowerLength(n0, level), bits)
  {
    var n2 := LowerLength(n0, level);
    if |powTab[2 * level].tab| == 0 {
      b, inv := PowerPair(radixl, n2, bits);
      powTab[2 * level], powTab[2 * level + 1] := b, inv;
    } else {
      assert IsPair(powTab[2 * level], powTab[2 * level + 1], radixl, n2, bits);
      b, inv := powTab[2 * level], powTab[2 * level + 1];
    }
  }

  lemma PrecisionFits(n2: nat, bits: nat)
    requires n2 < MAX_DIGITS && bits <= 64
    ensures 1 <= (n2 + 1) * bits + 2 < PREC_INF
  {
    MulMonotone(n2 + 1, MAX_DIGITS, bits);
    Commute(MAX_DIGITS, bits);
    MulMonotone(bits, 64, MAX_DIGITS);
    NatProduct(n2 + 1, bits);
  }

  method PowerPair(radixl: Limb, n2: nat, bits: nat) returns (b: BF, inv: BF)
    requires radixl > 0 && n2 < MAX_DIGITS && bits <= 64
    ensures b.tab != [] && IsPair(b, inv, radixl, n2, bits)
  {
    b := PowerOf(radixl, n2);
    LimbPowerFits(radixl, n2);
    Pow2Monotone(64 * n2, 64 * n2 + 1);
    PrecisionFits(n2, bits);
    inv := InverseOfPower(b, (n2 + 1) * bits + 2, Power(radixl, n2), 64 * n2 + 1);
  }

  /** The quotient and the remainder by the power of a level. */
  method Divide(a: BF, b: BF, inv: BF, n1: nat, bits: nat, ghost x: nat, ghost n2: nat, ghost radixl: Limb)
    returns (q: BF, r: BF, ghost hi: nat, ghost lo: nat)
    requires 2 <= radixl <= Pow2(bits) && bits <= 64 && 1 <= n1 <= n2 + 1 && n2 + n1 <= MAX_DIGITS && n2 < MAX_DIGITS
    requires HoldsInt(a.sign, a.expn, a.tab, x) && x < Power(radixl, n2 + n1)
    requires b.tab != [] && IsPair(b, inv, radixl, n2, bits)
    ensures HoldsInt(q.sign, q.expn, q.tab, x / Power(radixl, n2)) && HoldsInt(r.sign, r.expn, r.tab, x % Power(radixl, n2))
    ensures hi == x / Power(radixl, n2) < Power(radixl, n1) && lo == x % Power(radixl, n2) < Power(radixl, n2)
  {
    NatProduct(n1, bits);
    NatProduct(n2 + 1, bits);
    DivideFits(x, radixl, n1, n2, bits);
    ghost var q0;
    q, r, q0 := Guess(a, b, inv, n1 * bits, x, Power(radixl, n2), (n2 + 1) * bits + 2);
    q, r, hi, lo := Settle(q, r, b, x, q0, Power(radixl, n2));
  }

  /** The estimate of the quotient, and what it leaves of `a`. */
  method Guess(a: BF, b: BF, inv: BF, nb: nat, ghost x: nat, ghost B: nat, ghost p: nat)
    returns (q: BF, r: BF, ghost q0: nat)
    requires HoldsInt(a.sign, a.expn, a.tab, x) && HoldsInt(b.sign, b.expn, b.tab, B) && Finite(inv) && NormalForm(inv.tab)
    requires 0 < B < Pow2(64 * MAX_DIGITS) && Value(inv.sign, inv.expn, inv.tab) == Inverse(B, p)
    requires x < Pow2(64 * MAX_DIGITS) && x < B * Pow2(nb) && 1 <= nb <= 64 * MAX_DIGITS && p >= nb + 2
    ensures HoldsInt(q.sign, q.expn, q.tab, Estimate(x, Inverse(B, p), nb)) && q0 == Estimate(x, Inverse(B, p), nb)
    ensures HoldsInt(r.sign, r.expn, r.tab, x - Estimate(x, Inverse(B, p), nb) * B)
    ensures -(B as int) < x - q0 * B < 2 * B && q0 < Pow2(64 * MAX_DIGITS + 1)
  {
    ghost var n := 64 * MAX_DIGITS;
    q := EstimateQuotient(a, inv, nb, x, B, p);
    q0 := Estimate(x, Inverse(B, p), nb);
    EstimateOff(x, B, nb, p);
    GuessFits(x, B, q0, n);
    NearestRange();
    r := MulInt(q, b, q0, B, n + 1);
    FewBits(a.sign, a.expn, a.tab, x, n);
    FewBits(r.sign, r.expn, r.tab, q0 * B, n + 1);
    r := SubInt(a, r, x, q0 * B);
  }

  lemma GuessFits(x: nat, b: nat, q0: nat, n: nat)
    requires 0 < b < Pow2(n) && x < Pow2(n) && -(b as int) < x - q0 * b
    ensures 0 <= q0 * b < Pow2(n + 1) && q0 < Pow2(n + 1)
  {
    NatProduct(q0, b);
    Commute(q0, b);
    MulMonotone(1, b, q0);
  }

  /** The adjusted quotient and remainder. */
  method Settle(q0: BF, r0: BF, b: BF, ghost x: nat, ghost g: nat, ghost B: nat)
    returns (q: BF, r: BF, ghost hi: nat, ghost lo: nat)
    requires HoldsInt(q0.sign, q0.expn, q0.tab, g) && HoldsInt(b.sign, b.expn, b.tab, B)
    requires HoldsInt(r0.sign, r0.expn, r0.tab, x - g * B) && -(B as int) < x - g * B < 2 * B
    requires 0 < B < Pow2(64 * MAX_DIGITS) && g < Pow2(64 * MAX_DIGITS + 1)
    ensures HoldsInt(q.sign, q.expn, q.tab, x / B) && HoldsInt(r.sign, r.expn, r.tab, x % B)
    ensures hi == x / B && lo == x % B < B
  {
    NearestRange();
    q := q0;
    var qAdd;
    r, qAdd, lo := Adjust(r0, b, x - g * B, B, 64 * MAX_DIGITS + 1);
    hi := QuotientAdjusted(x, B, g, qAdd, lo);
    if qAdd != 0 {
      FewBits(q.sign, q.expn, q.tab, g, 64 * MAX_DIGITS + 1);
      q := AddSi(q, qAdd, g);
    }
  }

  lemma QuotientAdjusted(x: nat, b: nat, q0: nat, qAdd: int, r: nat) returns (q: nat)
    requires b > 0 && r < b && x - q0 * b == qAdd * b + r
    ensures q == q0 + qAdd == x / b && r == x % b
  {
    q := x / b;
    Distribute(q0, qAdd, b);
    DivUnique(x, b, q0 + qAdd, r);
  }

  /** All numbers of a division have few enough bits. */
  lemma DivideFits(x: nat, radixl: Limb, n1: nat, n2: nat, bits: nat)
    requires 2 <= radixl <= Pow2(bits) && bits <= 64 && 1 <= n1 <= n2 + 1 && n2 + n1 <= MAX_DIGITS && n2 < MAX_DIGITS
    requires x < Power(radixl, n2 + n1) && n1 * bits >= 0
    ensures var b, n := Power(radixl, n2), 64 * MAX_DIGITS;
      && 0 < b < Pow2(n) && x < Pow2(n) && 1 <= n1 * bits <= n && n1 * bits <= (n2 + 1) * bits
      && x < b * Pow2(n1 * bits) && x / b < Power(radixl, n1)
  {
    var n := 64 * MAX_DIGITS;
    LimbPowerFits(radixl, n2 + n1);
    Pow2Monotone(64 * (n2 + n1), n);
    LimbPowerFits(radixl, n2);
    Pow2Monotone(64 * n2 + 1, n);
    Precisions(n1, n2, bits);
    PrecisionBelow(n1, bits);
    PowerAdd(radixl, n2, n1);
    QuotientDigits(x, Power(radixl, n2), Power(radixl, n1));
    DividendFits(x, Power(radixl, n2), radixl, n1, bits);
  }

  lemma PrecisionBelow(n1: nat, bits: nat)
    requires n1 <= MAX_DIGITS && bits <= 64
    ensures n1 * bits <= 64 * MAX_DIGITS
  {
    MulMonotone(n1, MAX_DIGITS, bits);
    Commute(MAX_DIGITS, bits);
    MulMonotone(bits, 64, MAX_DIGITS);
  }

  lemma QuotientDigits(a: nat, b: nat, p: nat)
    requires b > 0
    ensures a < b * p ==> a / b < p
  {
    if a / b >= p { AtMost(a, b, p); Commute(b, p); }
  }

  lemma DividendFits(a: nat, b: nat, radixl: nat, n1: nat, bits: nat)
    requires radixl <= Pow2(bits) && a < b * Power(radixl, n1) && n1 * bits >= 0
    ensures a < b * Pow2(n1 * bits)
  {
    PowerFits(radixl, bits, n1);
    Commute(b, Power(radixl, n1));
    Commute(b, Pow2(n1 * bits));
    MulMonotone(Power(radixl, n1), Pow2(n1 * bits), b);
  }

  lemma Precisions(n1: nat, n2: nat, bits: nat)
    requires 2 <= Pow2(bits) && 1 <= n1 <= n2 + 1
    ensures 1 <= n1 * bits <= (n2 + 1) * bits
  {
    assert Pow2(0) == 1;
    MulMonotone(n1, n2 + 1, bits);
    MulMonotone(1, n1, bits);
  }

  /** The window holds the digits of `a`. */
  ghost predicate Holds(s: seq<Limb>, off: nat, n: nat, radixl: nat, a: nat)
    requires off + n <= |s|
  {
    Digits(s, off, n, radixl) && Number(s, off, n, radixl) == a
  }

  lemma OneDigit(s: seq<Limb>, off: nat, radixl: nat)
    requires off + 1 <= |s| && s[off] < radixl
    ensures Holds(s, off, 1, radixl, s[off])
  {
    assert Power(radixl, 0) == 1 && Number(s, off, 0, radixl) == 0;
  }

  lemma TwoDigits(s: seq<Limb>, off: nat, radixl: nat, a: nat)
    requires off + 2 <= |s| && radixl > 0 && s[off] == a % radixl && s[off + 1] == a / radixl < radixl
    ensures Holds(s, off, 2, radixl, a)
  {
    OneDigit(s, off, radixl);
    assert Power(radixl, 1) == radixl * Power(radixl, 0) && Power(radixl, 0) == 1;
  }

  /** The digits of quotient and remainder; the former were written first. */
  lemma Joined(u: seq<Limb>, s: seq<Limb>, off: nat, n2: nat, n1: nat, radixl: nat, a: nat, q: nat, r: nat)
    requires off + n2 + n1 <= |s| == |u| && radixl > 0 && q == a / Power(radixl, n2) && r == a % Power(radixl, n2)
    requires Holds(s, off, n2, radixl, r) && Holds(u, off + n2, n1, radixl, q)
    requires forall j :: off + n2 <= j < off + n2 + n1 ==> s[j] == u[j]
    ensures Holds(s, off, n2 + n1, radixl, a)
  {
    NumberSame(u, s, off + n2, n1, radixl);
    NumberSplit(s, off, n2, n1, radixl);
    KeptRest(a, Power(radixl, n2));
  }

  lemma FitsTwo(a: nat, radixl: Limb)
    requires 0 < radixl && a < Power(radixl, 2)
    ensures a < 0x1_0000_0000_0000_0000_0000_0000_0000_0000 && a / radixl < radixl
  {
    assert Power(radixl, 2) == radixl * Power(radixl, 1) && Power(radixl, 1) == radixl * Power(radixl, 0);
    MulMonotone(radixl, 0x1_0000_0000_0000_0000, radixl);
    QuotientDigits(a, radixl, radixl);
  }

  /** The numbers of the upper and of the lower digits. */
  method Halve(powTab: array<BF>, a: BF, n: nat, n2: nat, level: nat, n0: Limb, radixl: Limb, bits: nat, ghost x: nat)
    returns (q: BF, r: BF, ghost hi: nat, ghost lo: nat)
    requires Sized(n, n0, level) && 3 <= n <= n0 <= MAX_DIGITS && n2 == LowerLength(n0, level)
    requires 2 <= radixl <= Pow2(bits) && bits <= 64
    requires HoldsInt(a.sign, a.expn, a.tab, x) && x < Power(radixl, n)
    requires powTab.Length == (CeilLog2(n0) + 2) * 2 && AllPrepared(powTab, n0, radixl, bits)
    modifies powTab
    ensures n2 < n && hi == x / Power(radixl, n2) < Power(radixl, n - n2) && lo == x % Power(radixl, n2) < Power(radixl, n2)
    ensures HoldsInt(q.sign, q.expn, q.tab, hi) && HoldsInt(r.sign, r.expn, r.tab, lo)
    ensures AllPrepared(powTab, n0, radixl, bits)
  {
    Parts(n, n0, level);
    LevelBound(n, n0, level);
    var b, inv := Prepare(powTab, level, n0, radixl, bits);
    q, r, hi, lo := Divide(a, b, inv, n - n2, bits, x, n2, radixl);
  }

  /** bf_integer_to_radix_rec; at least one digit is written at every call. */
  method IntegerToRadixRec(powTab: array<BF>, out: array<Limb>, off: nat, a: BF, n: nat, level: nat, n0: Limb,
                           radixl: Limb, bits: nat, ghost x: nat)
    requires off + n <= out.Length && Sized(n, n0, level) && n <= n0 <= MAX_DIGITS
    requires 2 <= radixl <= Pow2(bits) && bits <= 64
    requires HoldsInt(a.sign, a.expn, a.tab, x) && x < Power(radixl, n)
    requires powTab.Length == (CeilLog2(n0) + 2) * 2 && AllPrepared(powTab, n0, radixl, bits)
    modifies powTab, out
    ensures Holds(out[..], off, n, radixl, x)
    ensures AllPrepared(powTab, n0, radixl, bits)
    ensures forall j :: 0 <= j < out.Length && !(off <= j < off + n) ==> out[j] == old(out[j])
    decreases n
  {
    if n == 1 {
      WriteOne(out, off, a, radixl, x);
    } else if n == 2 {
      WriteTwo(out, off, a, radixl, x);
    } else {
      Parts(n, n0, level);
      var n2 := LowerLength(n0, level);
      var q, r, hi, lo := Halve(powTab, a, n, n2, level, n0, radixl, bits, x);
      IntegerToRadixRec(powTab, out, off + n2, q, n - n2, level + 1, n0, radixl, bits, hi);
      ghost var upper: seq<Limb> := out[..];
      IntegerToRadixRec(powTab, out, off, r, n2, level + 1, n0, radixl, bits, lo);
      Joined(upper, out[..], off, n2, n - n2, radixl, x, hi, lo);
    }
  }

  method WriteOne(out: array<Limb>, off: nat, a: BF, radixl: Limb, ghost x: nat)
    requires off < out.Length && HoldsInt(a.sign, a.expn, a.tab, x) && x < Power(radixl, 1)
    modifies out
    ensures Holds(out[..], off, 1, radixl, x)
    ensures forall j :: 0 <= j < out.Length && j != off ==> out[j] == old(out[j])
  {
    assert Power(radixl, 1) == radixl * Power(radixl, 0) && Pow2(0) == 1;
    var v := IntLimb(a, |a.tab| * 64 - a.expn, 0, x);
    DivSmall(x, 0x1_0000_0000_0000_0000);
    out[off] := v;
    OneDigit(out[..], off, radixl);
  }

  /** The case of two digits, by one division of two limbs. */
  method WriteTwo(out: array<Limb>, off: nat, a: BF, radixl: Limb, ghost x: nat)
    requires off + 2 <= out.Length && radixl > 0 && HoldsInt(a.sign, a.expn, a.tab, x) && x < Power(radixl, 2)
    modifies out
    ensures Holds(out[..], off, 2, radixl, x)
    ensures forall j :: 0 <= j < out.Length && !(off <= j < off + 2) ==> out[j] == old(out[j])
  {
    FitsTwo(x, radixl);
    var pos := |a.tab| * 64 - a.expn;
    var hi := IntLimb(a, pos, 1, x);
    var lo := IntLimb(a, pos, 0, x);
    TwoLimbs(x, hi, lo);
    var t: nat := hi as int * 0x1_0000_0000_0000_0000 + lo;
    out[off] := t % radixl;
    out[off + 1] := t / radixl;
    TwoDigits(out[..], off, radixl, x);
  }

  lemma TwoLimbs(x: nat, hi: Limb, lo: Limb)
    requires x < 0x1_0000_0000_0000_0000_0000_0000_0000_0000 && hi == Window(x, 64) && lo == Window(x, 0)
    ensures hi as int * 0x1_0000_0000_0000_0000 + lo == x
  {
    LimbBits();
    assert Pow2(0) == 1;
  }

  /** bf_integer_to_radix: exactly the `n` digits of the integer. */
  method IntegerToRadix(out: array<Limb>, a: BF, n: Limb, radixl: Limb, ghost x: nat)
    requires 1 <= n == out.Length && n <= MAX_DIGITS && 2 <= radixl
    requires HoldsInt(a.sign, a.expn, a.tab, x) && x < Power(radixl, n)
    modifies out
    ensures Digits(out[..], 0, n, radixl) && Number(out[..], 0, n, radixl) == x
  {
    assert Pow2(0) == 1;
    var empty := new BF();
    var powTab := new BF[(CeilLog2(n) + 2) * 2](_ => empty);
    IntegerToRadixRec(powTab, out, 0, a, n, 0, n, radixl, CeilLog2(radixl), x);
  }

  // ---------------------------------------------------------------------
  // There and back
  // ---------------------------------------------------------------------

  /** An integer is restored from its digits. */
  method ThereAndBack(a: BF, n: Limb, radixl: Limb, ghost x: nat) returns (b: BF)
    requires 1 <= n <= MAX_DIGITS && 2 <= radixl && HoldsInt(a.sign, a.expn, a.tab, x) && x < Power(radixl, n)
    ensures HoldsInt(b.sign, b.expn, b.tab, x)
  {
    var out := new Limb[n](_ => 0);
    IntegerToRadix(out, a, n, radixl, x);
    b := IntegerFromRadix(out[..], n, radixl);
  }

  /** Digits are restored from their integer. */
  method BackAndThere(tab: seq<Limb>, radixl: Limb) returns (out: array<Limb>)
    requires 1 <= |tab| <= MAX_DIGITS && 2 <= radixl && Digits(tab, 0, |tab|, radixl)
    ensures fresh(out) && out[..] == tab
  {
    var a := IntegerFromRadix(tab, |tab|, radixl);
    NumberBound(tab, 0, |tab|, radixl);
    out := new Limb[|tab|](_ => 0);
    IntegerToRadix(out, a, |tab|, radixl, Number(tab, 0, |tab|, radixl));
    DigitsUnique(out[..], tab, |tab|, radixl);
    assert out[..][..|tab|] == out[..] && tab[..|tab|] == tab;
  }
}
