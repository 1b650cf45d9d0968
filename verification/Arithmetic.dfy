/** bf_mul and bf_div of Sources/SubstrataQuickJS/libbf.c: the exact product, and the
    quotient with a sticky lowest bit, are rounded as section 4.3 of IEEE 754-2019
    demands for the exact result. */
module Arithmetic {

  import opened Limbs
  import opened Bits
  import opened Division
  import opened Reciprocal
  import opened Rounding

  /** Zero, or in normal form with an exponent above that of zero. */
  predicate IsFinite(expn: int, tab: seq<Limb>) {
    if tab == [] then expn == EXP_ZERO else NormalForm(tab) && expn > EXP_ZERO
  }

  predicate Finite(a: BF)
    reads a
  {
    IsFinite(a.expn, a.tab)
  }

  /** `y`, with exponent `ey`, is the rounding of `x`, whose exponent is `e`, and is
      what the fields of `r` and the status tell. */
  ghost predicate Correct(r: BF, x: real, prec: nat, flags: Flags, ret: Status, y: real, e: int, ey: int)
    reads r
  {
    && TwoTo(e - 1) <= Abs(x) < TwoTo(e)
    && IsRounding(flags.rnd, x, y, TwoTo(e - Precision(prec, e, flags)))
    && (y != 0.0 ==> TwoTo(ey - 1) <= Abs(y) < TwoTo(ey))
    && r.Delivered(y, ey, Precision(prec, e, flags), prec, flags, flags.rnd == RNDF || y != x, ret)
  }

  /** A correct result rounded to a unit that the precision and the flags give. */
  lemma CorrectUnit(r: BF, x: real, prec: nat, flags: Flags, ret: Status, y: real, e: int, ey: int)
    requires Correct(r, x, prec, flags, ret, y, e, ey) && 3 <= flags.expBits <= 62 && !flags.radpnt
    ensures !flags.subnormal ==> IsRounding(flags.rnd, x, y, TwoTo(e - prec))
    ensures flags.subnormal ==>
      IsRounding(flags.rnd, x, y, Greater(TwoTo(e - prec), TwoTo(3 - Pow2(flags.expBits - 1) - prec)))
  {
    RoundingUnit(prec, e, flags);
  }

  /** What a correct result is, by the exponent of the rounded number, without subnormal
      numbers: zero below the range, the number in it, an overflow above. */
  lemma CorrectRange(r: BF, x: real, prec: nat, flags: Flags, ret: Status, y: real, e: int, ey: int)
    requires Correct(r, x, prec, flags, ret, y, e, ey) && prec >= 1 && 3 <= flags.expBits <= 62
    requires !flags.radpnt && !flags.subnormal
    ensures var eMax := Pow2(flags.expBits - 1);
      if ey < 3 - eMax then r.tab == [] && r.expn == -0x8000_0000_0000_0000 && ret == Status(false, true, true)
      else if ey > eMax then ret == Status(true, false, true)
      else Value(r.sign, r.expn, r.tab) == y && r.expn == ey && ret == Status(false, false, flags.rnd == RNDF || y != x)
  {
  }

  lemma NotRoundedToZero(mode: Mode, x: real, y: real, ulp: real)
    requires 0.0 < ulp <= Abs(x) && IsRounding(mode, x, y, ulp)
    ensures y != 0.0
  {
    var q: int :| y == Times(q, ulp) && Selects(mode, x, y, q, ulp);
  }

  /** With subnormal numbers the rounded number is kept, and an underflow is reported if
      it is inexact and small, or if no bit of the number was kept. */
  lemma CorrectSubnormal(r: BF, x: real, prec: nat, flags: Flags, ret: Status, y: real, e: int, ey: int)
    requires Correct(r, x, prec, flags, ret, y, e, ey) && prec >= 1 && 3 <= flags.expBits <= 62
    requires !flags.radpnt && flags.subnormal && (y != 0.0 ==> ey <= Pow2(flags.expBits - 1))
    ensures var eMin := 3 - Pow2(flags.expBits - 1);
      && !ret.overflow && (ret.underflow <==> ret.inexact && (ey < eMin || e + prec <= eMin))
      && if y == 0.0 then r.IsZero() else Value(r.sign, r.expn, r.tab) == y && r.expn == ey
  {
    if y == 0.0 && e + prec > 3 - Pow2(flags.expBits - 1) {
      TwoToMonotone(e - Precision(prec, e, flags), e - 1);
      NotRoundedToZero(flags.rnd, x, y, TwoTo(e - Precision(prec, e, flags)));
    }
  }

  lemma LargestBelow(sign: bool, p: nat, eMax: int)
    ensures Abs(SignedReal(sign, Times(Pow2(p) - 1, TwoTo(eMax - p)))) < TwoTo(eMax)
  {
    ScaleCompare(Pow2(p) - 1, Pow2(p), TwoTo(eMax - p));
    NotNegative(Pow2(p) - 1, TwoTo(eMax - p));
    TwoToAdd(eMax - p, p);
  }

  lemma InwardRounding(mode: Mode, x: real, y: real, ulp: real)
    requires IsRounding(mode, x, y, ulp) && Abs(x) >= ulp > 0.0
    requires mode == RNDZ || (mode == RNDD && x > 0.0) || (mode == RNDU && x < 0.0)
    ensures Abs(y) <= Abs(x)
  {
    var q: int :| y == Times(q, ulp) && Selects(mode, x, y, q, ulp);
  }

  /** An overflow lies on the right side of the exact number: the largest finite number
      never beyond it, an infinity never where a finite number has to be. */
  lemma OverflowSide(r: BF, x: real, prec: nat, flags: Flags, ret: Status, y: real, e: int, ey: int)
    requires Correct(r, x, prec, flags, ret, y, e, ey) && ret.overflow
    requires 1 <= prec < PREC_INF && 3 <= flags.expBits <= 62 && r.sign == (x < 0.0)
    ensures r.tab == [] ==> r.expn == 0x7FFF_FFFF_FFFF_FFFE
    ensures flags.rnd == RNDZ ==> r.tab != []
    ensures flags.rnd in {RNDN, RNDNA, RNDA} ==> r.tab == []
    ensures flags.rnd == RNDD ==> (r.tab == [] <==> x < 0.0)
    ensures flags.rnd == RNDU ==> (r.tab == [] <==> x > 0.0)
    ensures r.tab != [] && flags.rnd != RNDF ==> Abs(Value(r.sign, r.expn, r.tab)) < Abs(x)
  {
    if r.tab != [] && flags.rnd != RNDF {
      var eMax := EMax(flags);
      TwoToMonotone(e - Precision(prec, e, flags), e - 1);
      NotRoundedToZero(flags.rnd, x, y, TwoTo(e - Precision(prec, e, flags)));
      LargestBelow(r.sign, prec, eMax);
      TwoToMonotone(eMax, ey - 1);
      InwardRounding(flags.rnd, x, y, TwoTo(e - Precision(prec, e, flags)));
    }
  }

  // ---------------------------------------------------------------------
  // Comparison
  // ---------------------------------------------------------------------

  /** The mantissa with zero limbs below, `n` limbs in all. */
  function Padded(s: seq<Limb>, n: nat): (t: seq<Limb>)
    requires |s| <= n
    ensures |t| == n && forall i :: 0 <= i < n ==> t[i] == LimbOrZero(s, |s|, |s| - n + i)
  {
    seq(n - |s|, _ => 0) + s
  }

  lemma PaddedNum(s: seq<Limb>, n: nat)
    requires |s| <= n
    ensures Num(Padded(s, n), 0, n) == Num(s, 0, |s|) * Pow(n - |s|)
  {
    var z := n - |s|;
    var t := Padded(s, n);
    ZerosBelow(s, t, z);
  }

  lemma ZerosBelow(s: seq<Limb>, t: seq<Limb>, z: nat)
    requires |t| == z + |s| && (forall i :: 0 <= i < z ==> t[i] == 0) && forall i :: 0 <= i < |s| ==> s[i] == t[i + z]
    ensures Num(t, 0, |t|) == Num(s, 0, |s|) * Pow(z)
  {
    NumSplit(t, 0, z, |s|);
    NumZero(t, 0, z);
    NumMoved(s, 0, t, z, |s|);
  }

  /** The loop of bf_cmpu. */
  method CompareLimbs(a: seq<Limb>, b: seq<Limb>, len: nat) returns (c: int)
    requires |a| <= len && |b| <= len
    ensures var p, q := Num(Padded(a, len), 0, len), Num(Padded(b, len), 0, len); (c < 0 <==> p < q) && (c > 0 <==> p > q)
  {
    ghost var s: seq<Limb>, t: seq<Limb> := Padded(a, len), Padded(b, len);
    var i := len - 1;
    while i >= 0
      invariant -1 <= i < len
      invariant Num(s, 0, len) - Num(s, 0, i + 1) == Num(t, 0, len) - Num(t, 0, i + 1)
    {
      var v1: Limb := LimbOrZero(a, |a|, |a| - len + i);
      var v2: Limb := LimbOrZero(b, |b|, |b| - len + i);
      if v1 != v2 {
        TopLimbDecides(s, 0, t, 0, i);
        TopLimbDecides(t, 0, s, 0, i);
        return if v1 < v2 then -1 else 1;
      }
      i := i - 1;
    }
    return 0;
  }

  /** bf_cmpu: the sign of |a| - |b|. */
  method Cmpu(a: BF, b: BF) returns (c: int)
    requires Finite(a) && Finite(b)
    ensures var x, y := Magnitude(Num(a.tab, 0, |a.tab|), |a.tab|, a.expn), Magnitude(Num(b.tab, 0, |b.tab|), |b.tab|, b.expn);
      (c < 0 <==> x < y) && (c > 0 <==> x > y)
  {
    if a.expn != b.expn {
      LowerExponent(a.expn, a.tab, b.expn, b.tab);
      LowerExponent(b.expn, b.tab, a.expn, a.tab);
      return if a.expn < b.expn then -1 else 1;
    }
    var len := if |a.tab| > |b.tab| then |a.tab| else |b.tab|;
    PaddedMagnitude(a.tab, len, a.expn);
    PaddedMagnitude(b.tab, len, a.expn);
    ScaleCompare(Num(Padded(a.tab, len), 0, len), Num(Padded(b.tab, len), 0, len), TwoTo(a.expn - 64 * len));
    ScaleCompare(Num(Padded(b.tab, len), 0, len), Num(Padded(a.tab, len), 0, len), TwoTo(a.expn - 64 * len));
    c := CompareLimbs(a.tab, b.tab, len);
  }

  lemma LowerExponent(e: int, tab: seq<Limb>, e1: int, tab1: seq<Limb>)
    requires IsFinite(e, tab) && IsFinite(e1, tab1)
    ensures e < e1 ==> Magnitude(Num(tab, 0, |tab|), |tab|, e) < Magnitude(Num(tab1, 0, |tab1|), |tab1|, e1)
  {
    if e < e1 {
      TopBit(tab1, |tab1|);
      FullMagnitude(Num(tab1, 0, |tab1|), |tab1|, e1);
      if tab != [] {
        TopBit(tab, |tab|);
        FullMagnitude(Num(tab, 0, |tab|), |tab|, e);
        TwoToMonotone(e, e1 - 1);
      }
    }
  }

  lemma PaddedMagnitude(tab: seq<Limb>, n: nat, e: int)
    requires |tab| <= n
    ensures Magnitude(Num(tab, 0, |tab|), |tab|, e) == Times(Num(Padded(tab, n), 0, n), TwoTo(e - 64 * n))
  {
    PaddedNum(tab, n);
    FewerLimbs(Num(tab, 0, |tab|), |tab|, n, e);
  }

  // ---------------------------------------------------------------------
  // Products of values
  // ---------------------------------------------------------------------

  /** The product of real numbers, by a name that lemmas can be told about. */
  function Mult(x: real, y: real): real {
    x * y
  }

  lemma MultSum(x: real, t: real, y: real)
    ensures Mult(x + t, y) == Mult(x, y) + Mult(t, y)
  {
  }

  lemma MultCommutes(x: real, y: real)
    ensures Mult(x, y) == Mult(y, x)
  {
  }

  lemma MultNeutral(y: real)
    ensures Mult(0.0, y) == 0.0 && Mult(y, 1.0) == y
  {
  }

  lemma MultTwice(x: real, y: real)
    ensures Mult(x, 2.0 * y) == 2.0 * Mult(x, y)
  {
  }

  lemma MultNegated(x: real, y: real)
    ensures Mult(-x, y) == Mult(x, -y) == -Mult(x, y)
    ensures Mult(-x, -y) == Mult(x, y)
  {
  }

  lemma {:induction false} TwoToProduct(p: int, q: int)
    ensures Mult(TwoTo(p), TwoTo(q)) == TwoTo(p + q)
    decreases if q < 0 then -q else q
  {
    if q == 0 {
      MultNeutral(TwoTo(p));
    } else if q > 0 {
      TwoToProduct(p, q - 1);
      TwoToNext(q - 1);
      TwoToNext(p + q - 1);
      MultTwice(TwoTo(p), TwoTo(q - 1));
    } else {
      TwoToProduct(p, q + 1);
      TwoToNext(q);
      TwoToNext(p + q);
      MultTwice(TwoTo(p), TwoTo(q));
    }
  }

  lemma {:induction false} MultTimes(m: nat, t: real, y: real)
    ensures Mult(Times(m, t), y) == Times(m, Mult(t, y))
  {
    if m == 0 {
      MultNeutral(y);
    } else {
      MultTimes(m - 1, t, y);
      MultSum(Times(m - 1, t), t, y);
      assert Times(m, t) == Times(m - 1, t) + t;
    }
  }

  lemma TimesProduct(m: nat, t: real, k: nat, u: real)
    ensures Mult(Times(m, t), Times(k, u)) == Times(m * k, Mult(t, u))
  {
    MultTimes(m, t, Times(k, u));
    MultCommutes(t, Times(k, u));
    MultTimes(k, u, t);
    MultCommutes(u, t);
    TimesTimes(m, k, Mult(t, u));
  }

  lemma SignedProduct(s: bool, x: real, t: bool, y: real)
    ensures Mult(SignedReal(s, x), SignedReal(t, y)) == SignedReal(s != t, Mult(x, y))
  {
    MultNegated(x, y);
  }

  lemma MagnitudeProduct(m: nat, l: nat, e: int, k: nat, n: nat, f: int)
    ensures Mult(Magnitude(m, l, e), Magnitude(k, n, f)) == Magnitude(m * k, l + n, e + f)
  {
    var p, q := e - 64 * l, f - 64 * n;
    TimesProduct(m, TwoTo(p), k, TwoTo(q));
    TwoToProduct(p, q);
    assert p + q == e + f - 64 * (l + n);
  }

  /** The exact product of two numbers. */
  ghost function ProductValue(a: BF, b: BF): real
    reads a, b
  {
    SignedReal(a.sign != b.sign,
               Magnitude(Num(a.tab, 0, |a.tab|) * Num(b.tab, 0, |b.tab|), |a.tab| + |b.tab|, a.expn + b.expn))
  }

  lemma ProductIs(a: BF, b: BF)
    ensures ProductValue(a, b) == Mult(Value(a.sign, a.expn, a.tab), Value(b.sign, b.expn, b.tab))
  {
    MagnitudeProduct(Num(a.tab, 0, |a.tab|), |a.tab|, a.expn, Num(b.tab, 0, |b.tab|), |b.tab|, b.expn);
    SignedProduct(a.sign, Magnitude(Num(a.tab, 0, |a.tab|), |a.tab|, a.expn),
                  b.sign, Magnitude(Num(b.tab, 0, |b.tab|), |b.tab|, b.expn));
  }

  // ---------------------------------------------------------------------
  // Multiplication
  // ---------------------------------------------------------------------

  /** The limbs of a product. */
  method ProductLimbs(a: seq<Limb>, b: seq<Limb>) returns (t: seq<Limb>)
    requires b != []
    ensures |t| == |a| + |b| && Num(t, 0, |t|) == Num(a, 0, |a|) * Num(b, 0, |b|)
  {
    var ta, tb := new Limb[|a|](i requires 0 <= i < |a| => a[i]), new Limb[|b|](i requires 0 <= i < |b| => b[i]);
    var res := new Limb[|a| + |b|](_ => 0);
    assert ta[..] == a && tb[..] == b;
    MpMulBasecase(res, 0, ta, 0, |a|, tb, 0, |b|);
    t := res[..];
  }

  lemma NotZero(tab: seq<Limb>)
    requires NormalForm(tab)
    ensures Num(tab, 0, |tab|) > 0
  {
    TopBit(tab, |tab|);
  }

  lemma ProductNotZero(m: nat, k: nat)
    requires m > 0 && k > 0
    ensures m * k > 0
  {
  }

  /** The product before it is rounded; the operand with fewer limbs comes second. */
  method Product(a0: BF, b0: BF) returns (r: BF)
    requires NormalForm(a0.tab) && NormalForm(b0.tab)
    ensures fresh(r) && r.sign == (a0.sign != b0.sign) && r.expn == a0.expn + b0.expn
    ensures Value(r.sign, r.expn, r.tab) == ProductValue(a0, b0) && Num(r.tab, 0, |r.tab|) > 0
  {
    NotZero(a0.tab);
    NotZero(b0.tab);
    ProductNotZero(Num(a0.tab, 0, |a0.tab|), Num(b0.tab, 0, |b0.tab|));
    Commute(Num(a0.tab, 0, |a0.tab|), Num(b0.tab, 0, |b0.tab|));
    var a, b := a0, b0;
    if |a.tab| < |b.tab| {
      a, b := b, a;
    }
    var t := ProductLimbs(a.tab, b.tab);
    r := new BF();
    r.sign, r.expn, r.tab := a.sign != b.sign, a.expn + b.expn, t;
  }

  method RoundedProduct(a: BF, b: BF, ghost x: real, prec: nat, flags: Flags)
    returns (r: BF, ret: Status, ghost y: real, ghost e: int, ghost ey: int)
    requires NormalForm(a.tab) && NormalForm(b.tab) && x == ProductValue(a, b)
    requires prec >= 1 && Demands(prec, 0, flags) && flags.rnd != RNDF
    ensures fresh(r) && r.sign == (a.sign != b.sign) && Correct(r, x, prec, flags, ret, y, e, ey)
  {
    r := Product(a, b);
    ret, y, e, ey := r.NormalizeAndRound(prec, flags);
  }

  /** bf_mul for finite numbers: the product, correctly rounded. */
  method Mul(a: BF, b: BF, prec: nat, flags: Flags)
    returns (r: BF, ret: Status, ghost y: real, ghost e: int, ghost ey: int)
    requires Finite(a) && Finite(b) && prec >= 1 && Demands(prec, 0, flags) && flags.rnd != RNDF
    ensures fresh(r) && r.sign == (a.sign != b.sign)
    ensures a.IsZero() || b.IsZero() ==> r.IsZero() && ret == Status(false, false, false)
    ensures !a.IsZero() && !b.IsZero() ==>
      Correct(r, Mult(Value(a.sign, a.expn, a.tab), Value(b.sign, b.expn, b.tab)), prec, flags, ret, y, e, ey)
  {
    if |a.tab| == 0 || |b.tab| == 0 {
      r := new BF();
      r.sign := a.sign != b.sign;
      ret, y, e, ey := Status(false, false, false), 0.0, 0, 0;
    } else {
      ProductIs(a, b);
      r, ret, y, e, ey := RoundedProduct(a, b, ProductValue(a, b), prec, flags);
    }
  }

  // ---------------------------------------------------------------------
  // The sticky bit
  // ---------------------------------------------------------------------

  /** No multiple of `h` tells `x` from `x1`. */
  ghost predicate SameSide(x: real, x1: real, h: real) {
    forall k: int :: (x < Times(k, h) <==> x1 < Times(k, h)) && (x > Times(k, h) <==> x1 > Times(k, h))
  }

  lemma TimesFactor(k: int, c: nat, u: real)
    ensures Times(k, Times(c, u)) == Times(k * c, u)
  {
    if k >= 0 {
      TimesTimes(k, c, u);
    } else {
      TimesTimes(-k, c, u);
      TimesNegated(-k, Times(c, u));
      TimesNegated(-k * c, u);
      assert -(-k * c) == k * c;
    }
  }

  /** Two numbers inside one gap between even multiples of `u`. */
  lemma InsideGap(x: real, x1: real, j: int, c: nat, u: real)
    requires u > 0.0
    requires Times(2 * j, u) < x < Times(2 * j + 2, u) && Times(2 * j, u) < x1 < Times(2 * j + 2, u)
    ensures SameSide(x, x1, Times(2 * c, u))
  {
    forall k: int ensures (x < Times(k, Times(2 * c, u)) <==> x1 < Times(k, Times(2 * c, u)))
                       && (x > Times(k, Times(2 * c, u)) <==> x1 > Times(k, Times(2 * c, u))) {
      TimesFactor(k, 2 * c, u);
      EvenFactor(k, c);
      ScaleCompare(k * (2 * c), 2 * j, u);
      ScaleCompare(2 * j + 2, k * (2 * c), u);
    }
  }

  lemma EvenFactor(k: int, c: int)
    ensures k * (2 * c) == 2 * (k * c)
  {
  }

  lemma TimesDouble(q: int, h: real, ulp: real)
    requires ulp == h + h
    ensures Times(2 * q, h) == Times(q, ulp)
  {
    TimesIsProduct(2 * q, h);
    TimesIsProduct(q, ulp);
    DoubleReal((2 * q) as real, q as real, h, ulp);
  }

  lemma DoubleReal(p: real, q: real, h: real, ulp: real)
    requires p == 2.0 * q && ulp == h + h
    ensures p * h == q * ulp
  {
  }

  /** So the rounding directions select the same multiple of 2h for both. */
  lemma SelectsSame(mode: Mode, x: real, x1: real, y: real, q: int, h: real, ulp: real)
    requires h > 0.0 && ulp == h + h && y == Times(q, ulp) && SameSide(x, x1, h) && Selects(mode, x1, y, q, ulp)
    ensures Selects(mode, x, y, q, ulp)
  {
    TimesDouble(q, h, ulp);
    TimesNext(2 * q, h);
    TimesNext(2 * q + 1, h);
    TimesNext(2 * q - 1, h);
    TimesNext(2 * q - 2, h);
    assert Times(0, h) == 0.0;
    Compared(x, x1, h, 0);
    Compared(x, x1, h, 2 * q);
    Compared(x, x1, h, 2 * q + 1);
    Compared(x, x1, h, 2 * q + 2);
    Compared(x, x1, h, 2 * q - 1);
    Compared(x, x1, h, 2 * q - 2);
  }

  lemma Compared(x: real, x1: real, h: real, k: int)
    requires SameSide(x, x1, h)
    ensures (x < Times(k, h) <==> x1 < Times(k, h)) && (x > Times(k, h) <==> x1 > Times(k, h))
  {
  }

  lemma SameSideNegated(x: real, x1: real, h: real)
    requires SameSide(x, x1, h)
    ensures SameSide(-x, -x1, h)
  {
    forall k: int ensures (-x < Times(k, h) <==> -x1 < Times(k, h)) && (-x > Times(k, h) <==> -x1 > Times(k, h)) {
      TimesNegated(k, h);
      Compared(x, x1, h, -k);
    }
  }

  lemma RoundsSame(mode: Mode, x: real, x1: real, y: real, h: real, ulp: real)
    requires h > 0.0 && ulp == h + h && SameSide(x, x1, h) && IsRounding(mode, x1, y, ulp)
    ensures IsRounding(mode, x, y, ulp) && (y == x <==> y == x1)
  {
    var q: int :| y == Times(q, ulp) && Selects(mode, x1, y, q, ulp);
    SelectsSame(mode, x, x1, y, q, h, ulp);
    TimesDouble(q, h, ulp);
    Compared(x, x1, h, 2 * q);
  }

  // ---------------------------------------------------------------------
  // Division
  // ---------------------------------------------------------------------

  /** An array of `n` limbs with those of `a` at the top. */
  method Widened(a: seq<Limb>, n: nat) returns (t: array<Limb>)
    requires |a| <= n
    ensures fresh(t) && t[..] == Padded(a, n)
  {
    var s := Padded(a, n);
    t := new Limb[n](i requires 0 <= i < n => s[i]);
  }

  /** The quotient of the mantissa of `a`, moved up, by that of `b`. */
  method QuotientLimbs(a: seq<Limb>, b: seq<Limb>, n: nat) returns (q: seq<Limb>, nz: bool, ghost R: nat)
    requires NormalForm(a) && NormalForm(b) && |a| <= n
    ensures |q| == n + 1 && R < Num(b, 0, |b|) && nz == (R != 0)
    ensures Num(a, 0, |a|) * Pow(n + |b| - |a|) == Num(q, 0, n + 1) * Num(b, 0, |b|) + R
  {
    var nb, na := |b|, n + |b|;
    var taba := Widened(a, na);
    var tabb := Widened(b, nb);
    var tabq := new Limb[n + 1](_ => 0);
    PaddedNum(a, na);
    PaddedNum(b, nb);
    assert Padded(b, nb) == b;
    MpDivnorm(tabq, 0, taba, 0, na, tabb, 0, nb);
    R := Num(taba[..], 0, nb);
    nz := MpScanNz(taba, 0, nb);
    q := tabq[..];
  }

  /** The number with its lowest bit set. */
  function Odd(m: nat): nat {
    if m % 2 == 0 then m + 1 else m
  }

  lemma OddLimb(q: seq<Limb>)
    requires q != []
    ensures var x := Odd(q[0]); x < 0x1_0000_0000_0000_0000 && Num(q[0 := x], 0, |q|) == Odd(Num(q, 0, |q|))
  {
    OddAbove(q[0], Num(q, 1, |q| - 1));
    var q1 := q[0 := Odd(q[0])];
    NumCons(q, 0, |q| - 1);
    NumCons(q1, 0, |q| - 1);
    NumSame(q, q1, 1, |q| - 1);
  }

  lemma OddAbove(x: Limb, h: nat)
    ensures Odd(x) < 0x1_0000_0000_0000_0000
    ensures Odd(x as int + 0x1_0000_0000_0000_0000 * h) == Odd(x) + 0x1_0000_0000_0000_0000 * h
  {
    EvenAdded(x, 0x8000_0000_0000_0000 * h);
  }

  /** The quotient has enough bits. */
  lemma QuotientLarge(A: nat, Q: nat, B: nat, R: nat, N: nat, P: nat)
    requires A == Q * B + R && R < B < P && 2 * A >= N * P && N % 2 == 0
    ensures 2 * Q >= N
  {
    assert (2 * Q + 2) * B == 2 * (Q * B) + 2 * B;
    MulMonotone(B, P, N);
    Commute(B, N);
    Commute(P, N);
    if 2 * Q + 2 <= N { MulMonotone(2 * Q + 2, N, B); }
  }

  lemma ManyBits(a: seq<Limb>, b: seq<Limb>, n: nat, Q: nat, R: nat)
    requires NormalForm(a) && NormalForm(b) && |a| <= n && R < Num(b, 0, |b|)
    requires Num(a, 0, |a|) * Pow(n + |b| - |a|) == Q * Num(b, 0, |b|) + R
    ensures Q >= Pow2(64 * n - 1)
  {
    var m, k := Num(a, 0, |a|), n + |b| - |a|;
    TopBit(a, |a|);
    HalfPower(|a|);
    HalfPower(n);
    assert Pow(|a|) == 2 * Pow2(64 * |a| - 1) && Pow(n) == 2 * Pow2(64 * n - 1);
    MulMonotone(Pow(|a|), 2 * m, Pow(k));
    PowAdd(|a|, k);
    PowAdd(n, |b|);
    Associative(2, m, Pow(k));
    NumBound(b, 0, |b|);
    QuotientLarge(m * Pow(k), Q, Num(b, 0, |b|), R, Pow(n), Pow(|b|));
  }

  /** `X` is `A / B` times `u`. */
  ghost predicate IsFraction(X: real, A: nat, B: nat, u: real) {
    Times(B, X) == Times(A, u)
  }

  lemma Fraction(A: nat, B: nat, u: real) returns (X: real)
    requires B > 0
    ensures IsFraction(X, A, B, u)
  {
    X := Times(A, u) / B as real;
    TimesIsProduct(B, X);
    DivMult(Times(A, u), B as real);
  }

  lemma DivMult(x: real, y: real)
    requires y != 0.0
    ensures y * (x / y) == x
  {
  }

  lemma Unscaled(b: nat, x: real, y: real)
    requires b > 0
    ensures (Times(b, x) < Times(b, y) <==> x < y) && (Times(b, x) == Times(b, y) <==> x == y)
  {
    if x < y { TimesMonotone(b, x, y); } else if y < x { TimesMonotone(b, y, x); }
  }

  /** It lies between the quotient and the next number. */
  lemma FractionBounds(X: real, A: nat, B: nat, Q: nat, R: nat, u: real)
    requires u > 0.0 && IsFraction(X, A, B, u) && A == Q * B + R && R < B
    ensures if R == 0 then X == Times(Q, u) else Times(Q, u) < X < Times(Q + 1, u)
  {
    Commute(Q, B);
    TimesTimes(B, Q, u);
    TimesTimes(B, Q + 1, u);
    assert B * (Q + 1) == B * Q + B;
    ScaleCompare(B * Q, A, u);
    ScaleCompare(A, B * (Q + 1), u);
    Unscaled(B, X, Times(Q, u));
    Unscaled(B, X, Times(Q + 1, u));
  }

  /** The quotient with its sticky bit is on the same side of every even multiple. */
  lemma StickySame(X: real, Q: nat, R: nat, m: nat, u: real, c: nat)
    requires u > 0.0 && m == (if R == 0 then Q else Odd(Q))
    requires if R == 0 then X == Times(Q, u) else Times(Q, u) < X < Times(Q + 1, u)
    ensures SameSide(X, Times(m, u), Times(2 * c, u))
  {
    if R != 0 {
      var j := Q / 2;
      ScaleCompare(2 * j, m, u);
      ScaleCompare(m, 2 * j + 2, u);
      ScaleCompare(2 * j, Q, u);
      ScaleCompare(Q + 1, 2 * j + 2, u);
      InsideGap(X, Times(m, u), j, c, u);
    }
  }

  lemma StickyPower(X: real, Q: nat, R: nat, m: nat, lu: int, z: int)
    requires m == (if R == 0 then Q else Odd(Q)) && z >= lu + 1
    requires var u := TwoTo(lu); if R == 0 then X == Times(Q, u) else Times(Q, u) < X < Times(Q + 1, u)
    ensures SameSide(X, Times(m, TwoTo(lu)), TwoTo(z))
  {
    TwoToAdd(lu, z - lu);
    assert Pow2(z - lu) == 2 * Pow2(z - lu - 1);
    StickySame(X, Q, R, m, TwoTo(lu), Pow2(z - lu - 1));
  }

  lemma SameExponent(X: real, x1: real, e: int)
    requires SameSide(X, x1, TwoTo(e - 1)) && TwoTo(e - 1) <= x1 < TwoTo(e)
    ensures TwoTo(e - 1) <= X < TwoTo(e)
  {
    var h := TwoTo(e - 1);
    TwoToNext(e - 1);
    TimesNext(0, h);
    TimesNext(1, h);
    Compared(X, x1, h, 1);
    Compared(X, x1, h, 2);
  }

  /** What was rounded was the truncated number with the sticky bit; so the exact number
      is rounded. `P` is the precision, `k` a number of bits that are there. */
  lemma StickyRounds(mode: Mode, neg: bool, X: real, Q: nat, R: nat, m: nat, lu: int, k: nat, e: int, P: int, y: real)
    requires m == (if R == 0 then Q else Odd(Q)) && Q >= Pow2(k) && k >= 1 && P + 1 <= k
    requires var u := TwoTo(lu); if R == 0 then X == Times(Q, u) else Times(Q, u) < X < Times(Q + 1, u)
    requires var x1 := SignedReal(neg, Times(m, TwoTo(lu)));
      TwoTo(e - 1) <= Abs(x1) < TwoTo(e) && IsRounding(mode, x1, y, TwoTo(e - P))
    ensures var x, x1 := SignedReal(neg, X), SignedReal(neg, Times(m, TwoTo(lu)));
      TwoTo(e - 1) <= Abs(x) < TwoTo(e) && IsRounding(mode, x, y, TwoTo(e - P)) && (y == x <==> y == x1)
  {
    var u, x1 := TwoTo(lu), Times(m, TwoTo(lu));
    NotNegative(m, u);
    TwoToAdd(lu, k);
    ScaleCompare(Pow2(k), m, u);
    if e <= lu + k { TwoToMonotone(e, lu + k); }
    StickyPower(X, Q, R, m, lu, e - 1);
    SameExponent(X, x1, e);
    var h := TwoTo(e - P - 1);
    StickyPower(X, Q, R, m, lu, e - P - 1);
    TwoToNext(e - P - 1);
    SameSideNegated(X, x1, h);
    RoundsSame(mode, SignedReal(neg, X), SignedReal(neg, x1), y, h, TwoTo(e - P));
  }

  lemma StickyCorrect(r: BF, neg: bool, X: real, Q: nat, R: nat, m: nat, lu: int, prec: nat, flags: Flags, ret: Status,
                      y: real, e: int, ey: int)
    requires prec >= 1 && !flags.radpnt && m == (if R == 0 then Q else Odd(Q)) && (R != 0 ==> Q >= Pow2(prec + 1))
    requires var u := TwoTo(lu); if R == 0 then X == Times(Q, u) else Times(Q, u) < X < Times(Q + 1, u)
    requires Correct(r, SignedReal(neg, Times(m, TwoTo(lu))), prec, flags, ret, y, e, ey)
    ensures Correct(r, SignedReal(neg, X), prec, flags, ret, y, e, ey)
  {
    if R != 0 {
      StickyRounds(flags.rnd, neg, X, Q, R, m, lu, prec + 1, e, Precision(prec, e, flags), y);
    }
  }

  /** `X` times the divisor is the dividend. */
  lemma FractionValue(X: real, ma: nat, la: nat, ea: int, mb: nat, lb: nat, eb: int, n: nat)
    requires la <= n && IsFraction(X, ma * Pow(n + lb - la), mb, TwoTo(ea - eb - 64 * n))
    ensures Mult(X, Magnitude(mb, lb, eb)) == Magnitude(ma, la, ea)
  {
    var A, u, t := ma * Pow(n + lb - la), TwoTo(ea - eb - 64 * n), TwoTo(eb - 64 * lb);
    MultCommutes(X, Times(mb, t));
    MultTimes(mb, t, X);
    MultCommutes(t, X);
    MultTimes(mb, X, t);
    MultTimes(A, u, t);
    TwoToProduct(ea - eb - 64 * n, eb - 64 * lb);
    assert ea - eb - 64 * n + (eb - 64 * lb) == ea - 64 * (n + lb);
    FewerLimbs(ma, la, n + lb, ea);
  }

  /** bf_div for finite numbers, of which the second is not zero: the quotient,
      correctly rounded. */
  method Div(a: BF, b: BF, prec: nat, flags: Flags)
    returns (r: BF, ret: Status, ghost x: real, ghost y: real, ghost e: int, ghost ey: int)
    requires Finite(a) && NormalForm(b.tab)
    requires 1 <= prec < PREC_INF && Demands(prec, 0, flags) && !flags.radpnt
    ensures fresh(r) && r.sign == (a.sign != b.sign)
    ensures a.IsZero() ==> r.IsZero() && ret == Status(false, false, false)
    ensures !a.IsZero() ==>
      Mult(x, Value(b.sign, b.expn, b.tab)) == Value(a.sign, a.expn, a.tab) && Correct(r, x, prec, flags, ret, y, e, ey)
  {
    if |a.tab| == 0 {
      r := new BF();
      r.sign := a.sign != b.sign;
      ret, x, y, e, ey := Status(false, false, false), 0.0, 0.0, 0, 0;
    } else {
      ghost var X, Q, R, m, lu;
      r, X, Q, R, m, lu := Quotient(a, b, prec);
      x := SignedReal(r.sign, X);
      ghost var s := r.sign;
      ret, y, e, ey := r.NormalizeAndRound(prec, flags);
      StickyCorrect(r, s, X, Q, R, m, lu, prec, flags, ret, y, e, ey);
    }
  }

  /** The quotient with the sticky bit, before it is rounded: `m` is its mantissa, `X`
      the exact quotient of the magnitudes. */
  method Quotient(a: BF, b: BF, prec: nat)
    returns (r: BF, ghost X: real, ghost Q: nat, ghost R: nat, ghost m: nat, ghost lu: int)
    requires NormalForm(a.tab) && NormalForm(b.tab) && prec >= 1
    ensures fresh(r) && r.sign == (a.sign != b.sign)
    ensures m == (if R == 0 then Q else Odd(Q)) && Q >= Pow2(prec + 1)
    ensures var u := TwoTo(lu);
      && (if R == 0 then X == Times(Q, u) else Times(Q, u) < X < Times(Q + 1, u))
      && Num(r.tab, 0, |r.tab|) == m > 0
      && Value(r.sign, r.expn, r.tab) == SignedReal(r.sign, Times(m, u))
    ensures Mult(SignedReal(r.sign, X), Value(b.sign, b.expn, b.tab)) == Value(a.sign, a.expn, a.tab)
  {
    var precl := (prec + 2 + 63) / 64;
    var l := if |a.tab| > precl then |a.tab| else precl;
    lu := a.expn - b.expn - 64 * l;
    Pow2Monotone(prec + 1, 64 * l - 1);
    var q, nz;
    q, nz, R := QuotientLimbs(a.tab, b.tab, l);
    Q := Num(q, 0, l + 1);
    ManyBits(a.tab, b.tab, l, Q, R);
    X := ExactQuotient(a, b, l, Q, R);
    OddLimb(q);
    if nz {
      q := q[0 := Odd(q[0])];
    }
    m := Num(q, 0, l + 1);
    r := new BF();
    r.sign, r.expn, r.tab := a.sign != b.sign, a.expn - b.expn + 64, q;
    assert r.expn - 64 * (l + 1) == a.expn - b.expn - 64 * l;
  }

  lemma ExactQuotient(a: BF, b: BF, n: nat, Q: nat, R: nat) returns (X: real)
    requires |a.tab| <= n && R < Num(b.tab, 0, |b.tab|)
    requires Num(a.tab, 0, |a.tab|) * Pow(n + |b.tab| - |a.tab|) == Q * Num(b.tab, 0, |b.tab|) + R
    ensures var u := TwoTo(a.expn - b.expn - 64 * n);
      if R == 0 then X == Times(Q, u) else Times(Q, u) < X < Times(Q + 1, u)
    ensures Mult(SignedReal(a.sign != b.sign, X), Value(b.sign, b.expn, b.tab)) == Value(a.sign, a.expn, a.tab)
  {
    var A, B, u := Q * Num(b.tab, 0, |b.tab|) + R, Num(b.tab, 0, |b.tab|), TwoTo(a.expn - b.expn - 64 * n);
    X := Fraction(A, B, u);
    FractionBounds(X, A, B, Q, R, u);
    FractionValue(X, Num(a.tab, 0, |a.tab|), |a.tab|, a.expn, B, |b.tab|, b.expn, n);
    SignedProduct(a.sign != b.sign, X, b.sign, Magnitude(B, |b.tab|, b.expn));
  }
}
