/** Limb division of Sources/SubstrataQuickJS/libbf.c: the two-by-one step, the
    schoolbook method, Newton's reciprocal and the sub-quadratic division that
    uses it. */
module Division {
  import opened Limbs

  const UDIV1NORM_THRESHOLD := 3
  const DIVNORM_LARGE_THRESHOLD := 50

  // ---------------------------------------------------------------------
  // Two limbs by one
  // ---------------------------------------------------------------------

  /** The precomputed inverse floor((B^2 - 1) / d) - B of a normalised limb. */
  function Udiv1NormInit(d: Limb): (v: Limb)
    requires d >= 0x8000_0000_0000_0000
    ensures 0 <= 0xFFFF_FFFF_FFFF_FFFF_FFFF_FFFF_FFFF_FFFF - (0x1_0000_0000_0000_0000 + v) * d < d
  {
    var n := (0xFFFF_FFFF_FFFF_FFFF - d) * 0x1_0000_0000_0000_0000 + 0xFFFF_FFFF_FFFF_FFFF;
    InitFits(n, d);
    n / d
  }

  lemma InitFits(n: int, d: int)
    requires 0x8000_0000_0000_0000 <= d < 0x1_0000_0000_0000_0000
    requires n == (0xFFFF_FFFF_FFFF_FFFF - d) * 0x1_0000_0000_0000_0000 + 0xFFFF_FFFF_FFFF_FFFF
    ensures 0 <= n / d < 0x1_0000_0000_0000_0000
    ensures n - d < (n / d) * d <= n
  {
    var q := n / d;
    assert n == q * d + n % d;
    if q >= 0x1_0000_0000_0000_0000 { MulMonotone(0x1_0000_0000_0000_0000, q, d); }
    if q < 0 { MulMonotone(q, -1, d); }
  }

  lemma InverseTimes(d: int, v: int, n: int, x: int, k: int, w: int)
    requires v * d == x - k - w
    ensures d * (v * n) == x * n - k * n - w * n
  {
    assert d * (v * n) == (v * d) * n;
    assert (x - k - w) * n == x * n - k * n - w * n;
  }

  lemma ScaleEquation(q: int, u: int, c: int, f: int, a1: int, d: int)
    requires 0x1_0000_0000_0000_0000 * q == u + c - f + 0x1_0000_0000_0000_0000 * a1
    ensures 0x1_0000_0000_0000_0000 * (q * d) == d * u + c * d - f * d + 0x1_0000_0000_0000_0000 * (a1 * d)
  {
    assert (0x1_0000_0000_0000_0000 * q) * d == (u + c - f + 0x1_0000_0000_0000_0000 * a1) * d;
  }

  /** B times the remainder of the estimate `q`, free of `q` and `v`. Here `c`
      is the adjusted low limb, `f` what the division by B drops, and `k` what
      the division that made `v` dropped. */
  lemma EstimateRemainder(a1: int, a0: int, d: int, v: int, n: int, k: int, c: int, f: int, q: int)
    requires v * d == 0xFFFF_FFFF_FFFF_FFFF_FFFF_FFFF_FFFF_FFFF - k - 0x1_0000_0000_0000_0000 * d
    requires 0x1_0000_0000_0000_0000 * q == v * n + c - f + 0x1_0000_0000_0000_0000 * a1
    ensures 0x1_0000_0000_0000_0000 * (a1 * 0x1_0000_0000_0000_0000 + a0 - q * d)
         == 0x1_0000_0000_0000_0000_0000_0000_0000_0000 * (a1 - n) + n + 0x1_0000_0000_0000_0000 * a0
            + k * n + 0x1_0000_0000_0000_0000 * (d * n) - c * d + f * d - 0x1_0000_0000_0000_0000 * (a1 * d)
  {
    InverseTimes(d, v, n, 0xFFFF_FFFF_FFFF_FFFF_FFFF_FFFF_FFFF_FFFF, k, 0x1_0000_0000_0000_0000 * d);
    ScaleEquation(q, v * n, c, f, a1, d);
  }

  lemma RemainderLow(a1: int, a0: int, d: int, k: int, f: int, E: int)
    requires 0x8000_0000_0000_0000 <= d < 0x1_0000_0000_0000_0000
    requires 0 <= a1 < d && 0 <= a0 < 0x8000_0000_0000_0000
    requires 0 <= k < d && 0 <= f < 0x1_0000_0000_0000_0000
    requires E == a1 + 0x1_0000_0000_0000_0000 * a0 + k * a1 - a0 * d + f * d
    ensures 0 <= E < 0x2_0000_0000_0000_0000 * d
  {
    MulMonotone(0, k, a1);
    MulMonotone(0, f, d);
    MulMonotone(k, d - 1, a1);
    MulMonotone(a1, d - 1, d);
    MulMonotone(f, 0xFFFF_FFFF_FFFF_FFFF, d);
    var e := 0x1_0000_0000_0000_0000 - d;
    MulMonotone(0, a0, e);
    MulMonotone(a0, d, e);
    assert a0 * e == 0x1_0000_0000_0000_0000 * a0 - a0 * d;
    assert d * e == 0x1_0000_0000_0000_0000 * d - d * d;
    assert (d - 1) * d == d * d - d && (d - 1) * a1 == a1 * d - a1;
  }

  lemma RemainderHigh(a1: int, a0: int, d: int, k: int, c: int, f: int, E: int)
    requires 0x8000_0000_0000_0000 <= d < 0x1_0000_0000_0000_0000
    requires 0 <= a1 < d && 0x8000_0000_0000_0000 <= a0 < 0x1_0000_0000_0000_0000
    requires 0 <= k < d && 0 <= f < 0x1_0000_0000_0000_0000
    requires c == a0 + d - 0x1_0000_0000_0000_0000
    requires E == -0x1_0000_0000_0000_0000_0000_0000_0000_0000 + (a1 + 1) + 0x1_0000_0000_0000_0000 * a0
                  + k * (a1 + 1) + 0x1_0000_0000_0000_0000 * (d * (a1 + 1)) - c * d + f * d
                  - 0x1_0000_0000_0000_0000 * (a1 * d)
    ensures 0 <= E < 0x2_0000_0000_0000_0000 * d
  {
    var e := 0x1_0000_0000_0000_0000 - d;
    MulMonotone(0, k, a1 + 1);
    MulMonotone(0, f, d);
    MulMonotone(k + 1, d, a1 + 1);
    MulMonotone(a1 + 1, d, d);
    MulMonotone(f, 0xFFFF_FFFF_FFFF_FFFF, d);
    MulMonotone(0, c, e);
    MulMonotone(c, d - 1, e);
    assert d * (a1 + 1) == a1 * d + d && (a1 + 1) * d == a1 * d + d;
    assert (k + 1) * (a1 + 1) == k * (a1 + 1) + a1 + 1;
    assert c * e == 0x1_0000_0000_0000_0000 * c - c * d;
    assert (d - 1) * e == 0x1_0000_0000_0000_0000 * d - d * d - e;
  }

  /** The estimated quotient of `a1 * B + a0` is exact or one too small. `s` is
      the top bit of `a0`. */
  lemma UdivEstimate(a1: Limb, a0: Limb, d: Limb, v: Limb, s: int, c: int, a: int, q: int)
    requires a1 < d && d >= 0x8000_0000_0000_0000
    requires 0 <= 0xFFFF_FFFF_FFFF_FFFF_FFFF_FFFF_FFFF_FFFF - (0x1_0000_0000_0000_0000 + v) * d < d
    requires s == (if a0 >= 0x8000_0000_0000_0000 then 1 else 0)
    requires c == (if s == 1 then a0 + d - 0x1_0000_0000_0000_0000 else a0)
    requires a == v * (a1 + s) + c
    requires q == a / 0x1_0000_0000_0000_0000 + a1
    ensures 0 <= a1 * 0x1_0000_0000_0000_0000 + a0 - q * d < 2 * d
  {
    var k := 0xFFFF_FFFF_FFFF_FFFF_FFFF_FFFF_FFFF_FFFF - (0x1_0000_0000_0000_0000 + v) * d;
    var f: int := a % 0x1_0000_0000_0000_0000;
    EstimateRemainder(a1, a0, d, v, a1 + s, k, c, f, q);
    var E := 0x1_0000_0000_0000_0000 * (a1 * 0x1_0000_0000_0000_0000 + a0 - q * d);
    if s == 0 {
      assert d * a1 == a1 * d;
      RemainderLow(a1, a0, d, k, f, E);
    } else {
      RemainderHigh(a1, a0, d, k, c, f, E);
    }
  }

  /** The 128-bit sum of udiv1norm does not wrap. */
  lemma SumFits(v: Limb, n: Limb, c: Limb)
    ensures Wrap2(v * n + c) == v * n + c
  {
    ProductBound(v, n);
  }

  /** The final correction of udiv1norm, from the difference `t` minus the divisor. */
  lemma FinalCorrection(t: int, d: Limb, q: Limb, a: int, ah: int, q': Limb, r: Limb)
    requires 0 <= t < 2 * d && (t >= d ==> q < 0xFFFF_FFFF_FFFF_FFFF)
    requires a == Wrap2(t - d) && ah == a / 0x1_0000_0000_0000_0000
    requires q' == Wrap(q + 1 + ah) && r == Wrap(a + if ah != 0 then d else 0)
    ensures q' == (if t < d then q else q + 1)
    ensures r == (if t < d then t else t - d)
  {
    if t < d {
      assert a == t - d + 0x1_0000_0000_0000_0000_0000_0000_0000_0000;
      assert ah == 0xFFFF_FFFF_FFFF_FFFF;
    } else {
      assert a == t - d;
      assert ah == 0;
    }
  }

  lemma EstimateFits(q: int, a1: Limb, a0: Limb, d: Limb)
    requires a1 < d && 0 <= q && 0 <= a1 * 0x1_0000_0000_0000_0000 + a0 - q * d < 2 * d
    ensures q < 0x1_0000_0000_0000_0000
    ensures a1 * 0x1_0000_0000_0000_0000 + a0 - q * d >= d ==> q + 1 < 0x1_0000_0000_0000_0000
  {
    if q >= 0x1_0000_0000_0000_0000 {
      MulMonotone(0x1_0000_0000_0000_0000, q, d);
    }
    if q >= 0xFFFF_FFFF_FFFF_FFFF {
      MulMonotone(0xFFFF_FFFF_FFFF_FFFF, q, d);
    }
  }

  /** The adjusted halves of udiv1norm, without their wrap-around. */
  lemma AdjustedHalves(a1: Limb, a0: Limb, d: Limb, m: Limb)
    requires a1 < d && d >= 0x8000_0000_0000_0000
    requires m == (if a0 >= 0x8000_0000_0000_0000 then 0xFFFF_FFFF_FFFF_FFFF else 0)
    ensures Wrap(a1 - m) == (if m != 0 then a1 + 1 else a1)
    ensures Wrap(a0 + if m != 0 then d else 0)
         == (if m != 0 then a0 + d - 0x1_0000_0000_0000_0000 else a0)
  {
  }

  /** The estimate udiv1norm computes from the adjusted halves. */
  lemma UdivQuotient(a1: Limb, a0: Limb, d: Limb, v: Limb, h: Limb, c: Limb, a: int, q: Limb)
    requires a1 < d && d >= 0x8000_0000_0000_0000 && v == Udiv1NormInit(d)
    requires h == (if a0 >= 0x8000_0000_0000_0000 then a1 + 1 else a1)
    requires c == (if a0 >= 0x8000_0000_0000_0000 then a0 + d - 0x1_0000_0000_0000_0000 else a0)
    requires a == Wrap2(v * h + c) && q == Wrap(a / 0x1_0000_0000_0000_0000 + a1)
    ensures 0 <= a1 * 0x1_0000_0000_0000_0000 + a0 - q * d < 2 * d
    ensures a1 * 0x1_0000_0000_0000_0000 + a0 - q * d >= d ==> q < 0xFFFF_FFFF_FFFF_FFFF
  {
    SumFits(v, h, c);
    var e: int := a / 0x1_0000_0000_0000_0000 + a1;
    UdivEstimate(a1, a0, d, v, h - a1, c, a, e);
    EstimateFits(e, a1, a0, d);
    SmallWrap(e);
  }

  lemma SmallWrap(x: int)
    requires 0 <= x < 0x1_0000_0000_0000_0000
    ensures Wrap(x) == x
  {
  }

  /** Quotient and remainder of `a1 * B + a0` by `d`, from the inverse of `d`. */
  method Udiv1Norm(a1: Limb, a0: Limb, d: Limb, dInv: Limb) returns (q: Limb, r: Limb)
    requires a1 < d && d >= 0x8000_0000_0000_0000 && dInv == Udiv1NormInit(d)
    ensures a1 * 0x1_0000_0000_0000_0000 + a0 == q * d + r && r < d
  {
    // the arithmetic shift of a0 by 63 bits is -1 or 0
    var n1m: Limb := if a0 >= 0x8000_0000_0000_0000 then 0xFFFF_FFFF_FFFF_FFFF else 0;
    var nAdj := Wrap(a0 + if n1m != 0 then d else 0);
    var a1Adj := Wrap(a1 - n1m);
    AdjustedHalves(a1, a0, d, n1m);
    var a := Wrap2(dInv * a1Adj + nAdj);
    var q0 := Wrap(a / 0x1_0000_0000_0000_0000 + a1);
    UdivQuotient(a1, a0, d, dInv, a1Adj, nAdj, a, q0);
    // subtract one divisor too many, then repair quotient and remainder
    ghost var t: int := a1 * 0x1_0000_0000_0000_0000 + a0 - q0 * d;
    a := Wrap2(a1 * 0x1_0000_0000_0000_0000 + a0 - q0 * d - d);
    var ah := a / 0x1_0000_0000_0000_0000;
    q := Wrap(q0 + 1 + ah);
    r := Wrap(a + if ah != 0 then d else 0);
    FinalCorrection(t, d, q0, a, ah, q, r);
    if t >= d { NextMultiple(q0, d); }
  }

  // ---------------------------------------------------------------------
  // Division by one limb
  // ---------------------------------------------------------------------

  lemma DivStep(a: int, r: int, q: int, r': int, b: int, hi: int, Q: int, r0: int, p: int)
    requires r * 0x1_0000_0000_0000_0000 + a == q * b + r'
    requires hi + r0 * p == Q * b + r
    ensures (a + 0x1_0000_0000_0000_0000 * hi) + r0 * (0x1_0000_0000_0000_0000 * p)
         == (q + 0x1_0000_0000_0000_0000 * Q) * b + r'
  {
    assert r0 * (0x1_0000_0000_0000_0000 * p) == 0x1_0000_0000_0000_0000 * (r0 * p);
    assert (q + 0x1_0000_0000_0000_0000 * Q) * b == q * b + 0x1_0000_0000_0000_0000 * (Q * b);
  }

  /** The `m` limbs of `t` at `to` are the quotient by `b` of those of `s` at
      `so` with `r0` above them, and `r` is the remainder. */
  ghost predicate Divided(s: seq<Limb>, so: nat, t: seq<Limb>, to: nat, m: nat, b: int, r0: int, r: int)
    requires so + m <= |s| && to + m <= |t|
  {
    Num(s, so, m) + r0 * Pow(m) == Num(t, to, m) * b + r
  }

  lemma DivideRow(s: seq<Limb>, so: nat, before: seq<Limb>, after: seq<Limb>, to: nat, m: nat,
                  b: int, r0: int, r: int, r': int)
    requires so + m + 1 <= |s| && to + m + 1 <= |before| == |after|
    requires forall j :: to + 1 <= j < to + 1 + m ==> after[j] == before[j]
    requires r * 0x1_0000_0000_0000_0000 + s[so] == after[to] * b + r'
    requires Divided(s, so + 1, before, to + 1, m, b, r0, r)
    ensures Divided(s, so, after, to, m + 1, b, r0, r')
  {
    NumSame(before, after, to + 1, m);
    NumCons(s, so, m);
    NumCons(after, to, m);
    DivStep(s[so], r, after[to], r', b, Num(s, so + 1, m), Num(after, to + 1, m), r0, Pow(m));
  }

  lemma TwoByOneFits(a1: Limb, a0: Limb, b: Limb)
    requires a1 < b
    ensures 0 <= (a1 * 0x1_0000_0000_0000_0000 + a0) / b < 0x1_0000_0000_0000_0000
    ensures a1 * 0x1_0000_0000_0000_0000 + a0
         == ((a1 * 0x1_0000_0000_0000_0000 + a0) / b) * b + (a1 * 0x1_0000_0000_0000_0000 + a0) % b
  {
    var n: int := a1 * 0x1_0000_0000_0000_0000 + a0;
    var q := n / b;
    assert n == q * b + n % b;
    if q >= 0x1_0000_0000_0000_0000 { MulMonotone(0x1_0000_0000_0000_0000, q, b); }
    if q < 0 { MulMonotone(q, -1, b); }
  }

  /** Divides `r0 * B^n + taba` by one normalised limb. */
  method MpDiv1Norm(tabr: array<Limb>, ro: nat, taba: array<Limb>, ao: nat, n: nat, b: Limb, r0: Limb)
    returns (r: Limb)
    requires ro + n <= tabr.Length && ao + n <= taba.Length && tabr != taba
    requires b >= 0x8000_0000_0000_0000 && r0 < b
    modifies tabr
    ensures r < b
    ensures Num(taba[..], ao, n) + r0 * Pow(n) == Num(tabr[..], ro, n) * b + r
    ensures forall j :: 0 <= j < tabr.Length && !(ro <= j < ro + n) ==> tabr[j] == old(tabr[j])
  {
    r := r0;
    var bInv: Limb := if n >= UDIV1NORM_THRESHOLD then Udiv1NormInit(b) else 0;
    var i := n;
    while i > 0
      invariant 0 <= i <= n && r < b
      invariant forall j :: 0 <= j < tabr.Length && !(ro + i <= j < ro + n) ==> tabr[j] == old(tabr[j])
      invariant Divided(taba[..], ao + i, tabr[..], ro + i, n - i, b, r0, r)
    {
      i := i - 1;
      var a: Limb, r1 := taba[ao + i], r;
      var q: Limb;
      if n >= UDIV1NORM_THRESHOLD {
        q, r := Udiv1Norm(r1, a, b, bInv);
      } else {
        TwoByOneFits(r1, a, b);
        q, r := (r1 * 0x1_0000_0000_0000_0000 + a) / b, (r1 * 0x1_0000_0000_0000_0000 + a) % b;
      }
      ghost var before: seq<Limb> := tabr[..];
      tabr[ro + i] := q;
      DivideRow(taba[..], ao + i, before, tabr[..], ro + i, n - i - 1, b, r0, r1, r);
    }
  }

  // ---------------------------------------------------------------------
  // One digit of the schoolbook method
  // ---------------------------------------------------------------------

  /** The top bit of the divisor is set. */
  ghost predicate Normalised(tabb: seq<Limb>, bo: nat, nb: nat) {
    1 <= nb && bo + nb <= |tabb| && tabb[bo + nb - 1] >= 0x8000_0000_0000_0000
  }

  lemma NormalisedBounds(s: seq<Limb>, bo: nat, nb: nat)
    requires Normalised(s, bo, nb)
    ensures s[bo + nb - 1] * Pow(nb - 1) <= Num(s, bo, nb) < (s[bo + nb - 1] + 1) * Pow(nb - 1)
    ensures Pow(nb) <= 2 * Num(s, bo, nb)
    ensures 0 < Num(s, bo, nb) < Pow(nb)
  {
    NumBound(s, bo, nb - 1);
    NumBound(s, bo, nb);
    NextMultiple(s[bo + nb - 1], Pow(nb - 1));
    MulMonotone(0x8000_0000_0000_0000, s[bo + nb - 1], Pow(nb - 1));
  }

  /** The estimated digit is at least the true one and at most two above it. */
  lemma DigitEstimate(D: int, b: int, b1: int, at: int, an: int, rest: int, P: int, q: int)
    requires P > 0 && 0 <= rest < P && 0 <= an
    requires D == (at * 0x1_0000_0000_0000_0000 + an) * P + rest
    requires b1 * P <= b < (b1 + 1) * P && 0x8000_0000_0000_0000 <= b1
    requires D < 0x1_0000_0000_0000_0000 * b
    requires 0 <= q < 0x1_0000_0000_0000_0000
    requires at >= b1 ==> q == 0xFFFF_FFFF_FFFF_FFFF
    requires at < b1 ==> 0 <= at * 0x1_0000_0000_0000_0000 + an - q * b1 < b1
    ensures -2 * b <= D - q * b < b
  {
    var top := at * 0x1_0000_0000_0000_0000 + an;
    if at >= b1 {
      assert q * b == 0xFFFF_FFFF_FFFF_FFFF * b;
      MulMonotone(q, 0x1_0000_0000_0000_0000, b1);
      assert q * b1 <= top;
    } else {
      EstimateNotBelow(top, q, b1, b, D, P);
    }
    // q * b < q * (b1 + 1) * P <= D + B * P <= D + 2 * b
    MulMonotone(q * b1, top, P);
    MulMonotone(q, 0x1_0000_0000_0000_0000, P);
    MulMonotone(0x8000_0000_0000_0000, b1, P);
    EstimateNotAbove(q, b1, b, P);
  }

  lemma EstimateNotBelow(top: int, q: int, b1: int, b: int, D: int, P: int)
    requires top - q * b1 < b1 && P > 0 && D < (top + 1) * P
    requires b1 * P <= b && q >= 0
    ensures D - q * b < b
  {
    NextMultiple(q, b1);
    NextMultiple(q, b);
    MulMonotone(top + 1, (q + 1) * b1, P);
    MulMonotone(b1 * P, b, q + 1);
    assert ((q + 1) * b1) * P == (q + 1) * (b1 * P);
    assert (b1 * P) * (q + 1) == (q + 1) * (b1 * P) && b * (q + 1) == (q + 1) * b;
  }

  lemma EstimateNotAbove(q: int, b1: int, b: int, P: int)
    requires q >= 0 && b < (b1 + 1) * P
    ensures q * b <= (q * b1) * P + q * P
  {
    MulMonotone(b, (b1 + 1) * P, q);
    assert ((b1 + 1) * P) * q == (q * b1) * P + q * P;
    assert b * q == q * b;
  }

  /** The windows at `o` hold `total` and, below their top limb, `low`. */
  lemma TopLimb(s: seq<Limb>, o: nat, nb: nat)
    requires o + nb < |s|
    ensures Num(s, o, nb + 1) == Num(s, o, nb) + s[o + nb] * Pow(nb)
  {
  }

  lemma AddBackStep(before: seq<Limb>, after: seq<Limb>, o: nat, nb: nat, b: nat, c: Limb, S: int)
    requires o + nb < |before| == |after| && c <= 1
    requires Num(before, o, nb + 1) == S + Pow(nb + 1) && S < 0 && 0 < b
    requires Num(after, o, nb) + c * Pow(nb) == Num(before, o, nb) + b
    requires after[o + nb] == (if c != 0 then Wrap(before[o + nb] as int + 1) else before[o + nb])
    ensures if c != 0 && after[o + nb] == 0
            then Num(after, o, nb + 1) == S + b && S + b >= 0
            else Num(after, o, nb + 1) == S + b + Pow(nb + 1) && S + b < 0
  {
    TopLimb(before, o, nb);
    TopLimb(after, o, nb);
    NumBound(after, o, nb + 1);
    if c != 0 {
      CarriedTop(before[o + nb], after[o + nb], Pow(nb));
    }
  }

  lemma CarriedTop(x: Limb, y: Limb, p: int)
    requires y == Wrap(x as int + 1)
    ensures y * p == x * p + p - (if y == 0 then 0x1_0000_0000_0000_0000 * p else 0)
  {
    NextMultiple(x, p);
    if y == 0 { assert x == 0xFFFF_FFFF_FFFF_FFFF; } else { assert y == x as int + 1; }
  }

  /** Adds the divisor to a negative partial remainder; tells whether that made it
      not negative. */
  method AddDivisor(taba: array<Limb>, o: nat, tabb: array<Limb>, bo: nat, nb: nat, ghost S: int) returns (stop: bool)
    requires o + nb < taba.Length && taba != tabb && bo + nb <= tabb.Length
    requires Num(taba[..], o, nb + 1) == S + Pow(nb + 1) && S < 0 < Num(tabb[..], bo, nb)
    modifies taba
    ensures stop == (S + Num(tabb[..], bo, nb) >= 0)
    ensures Num(taba[..], o, nb + 1) == S + Num(tabb[..], bo, nb) + if stop then 0 else Pow(nb + 1)
    ensures forall j :: 0 <= j < taba.Length && !(o <= j < o + nb + 1) ==> taba[j] == old(taba[j])
  {
    ghost var before: seq<Limb> := taba[..];
    var c := MpAdd(taba, o, taba, o, tabb, bo, nb, 0);
    ghost var mid: seq<Limb> := taba[..];
    stop := false;
    if c != 0 {
      taba[o + nb] := Wrap(taba[o + nb] as int + 1);
      stop := taba[o + nb] == 0;
    }
    NumSame(mid, taba[..], o, nb);
    AddBackStep(before, taba[..], o, nb, Num(tabb[..], bo, nb), c, S);
  }

  /** The digit `q` was too large: takes it back until the partial remainder is
      not negative, which needs at most two additions of the divisor. */
  method AddBack(taba: array<Limb>, o: nat, tabb: array<Limb>, bo: nat, nb: nat, q0: Limb, ghost D: nat)
    returns (q: Limb)
    requires o + nb < taba.Length && taba != tabb && Normalised(tabb[..], bo, nb)
    requires Num(taba[..], o, nb + 1) == D - q0 * Num(tabb[..], bo, nb) + Pow(nb + 1)
    requires -2 * Num(tabb[..], bo, nb) <= D - q0 * Num(tabb[..], bo, nb) < 0
    modifies taba
    ensures q < q0 <= q + 2
    ensures Num(taba[..], o, nb + 1) == D - q * Num(tabb[..], bo, nb)
    ensures 0 <= D - q * Num(tabb[..], bo, nb) < Num(tabb[..], bo, nb)
    ensures forall j :: 0 <= j < taba.Length && !(o <= j < o + nb + 1) ==> taba[j] == old(taba[j])
  {
    ghost var b := Num(tabb[..], bo, nb);
    ghost var S: int := D - q0 * b;
    NormalisedBounds(tabb[..], bo, nb);
    q := q0;
    while true
      invariant q <= q0 <= q + 1
      invariant Num(taba[..], o, nb + 1) == S + Pow(nb + 1)
      invariant S == D - q * b && S < 0
      invariant -(if q == q0 then 2 * b else b) <= S
      invariant forall j :: 0 <= j < taba.Length && !(o <= j < o + nb + 1) ==> taba[j] == old(taba[j])
      decreases q
    {
      if q == 0 { NoCarry(q, b); }
      NextMultiple(q - 1, b);
      q := q - 1;
      var stop := AddDivisor(taba, o, tabb, bo, nb, S);
      S := S + b;
      if stop { break; }
    }
  }

  /** The borrow out of the product subtraction tells the sign of the difference. */
  lemma SubtractProduct(before: seq<Limb>, after: seq<Limb>, o: nat, nb: nat, qb: int, r: Limb,
                        a: Limb, c: bool)
    requires o + nb < |before| == |after|
    requires Num(after, o, nb) + qb == Num(before, o, nb) + r * Pow(nb)
    requires after[o + nb] == a == Wrap(before[o + nb] as int - r) && c == (a > before[o + nb])
    ensures Num(after, o, nb + 1)
         == Num(before, o, nb + 1) - qb + (if c then Pow(nb + 1) else 0)
    ensures c ==> Num(before, o, nb + 1) < qb
  {
    TopLimb(before, o, nb);
    TopLimb(after, o, nb);
    NumBound(after, o, nb + 1);
    BorrowedTop(before[o + nb], r, a, c, Pow(nb));
    assert Pow(nb + 1) == 0x1_0000_0000_0000_0000 * Pow(nb);
  }

  lemma BorrowedTop(v: Limb, r: Limb, a: Limb, c: bool, p: int)
    requires a == Wrap(v as int - r) && c == (a > v)
    ensures a * p == v * p - r * p + (if c then 0x1_0000_0000_0000_0000 * p else 0)
  {
    var w: int := v as int - r;
    var t: int := if c then w + 0x1_0000_0000_0000_0000 else w;
    assert a == t;
    assert w * p == v * p - r * p;
    assert (w + 0x1_0000_0000_0000_0000) * p == w * p + 0x1_0000_0000_0000_0000 * p;
  }

  /** The estimate of a digit from the top limbs. */
  method EstimateDigit(a1: Limb, a0: Limb, b1: Limb, b1Inv: Limb) returns (q: Limb)
    requires b1 >= 0x8000_0000_0000_0000 && (b1Inv == 0 || b1Inv == Udiv1NormInit(b1))
    ensures a1 >= b1 ==> q == 0xFFFF_FFFF_FFFF_FFFF
    ensures a1 < b1 ==> 0 <= a1 * 0x1_0000_0000_0000_0000 + a0 - q * b1 < b1
  {
    if a1 >= b1 {
      q := 0xFFFF_FFFF_FFFF_FFFF;
    } else if b1Inv != 0 {
      var dummy;
      q, dummy := Udiv1Norm(a1, a0, b1, b1Inv);
    } else {
      TwoByOneFits(a1, a0, b1);
      q := (a1 * 0x1_0000_0000_0000_0000 + a0) / b1;
    }
  }

  /** One iteration of the main loop of mp_divnorm: the limbs at `o` are divided
      by the divisor, leaving the remainder there and a zero above it. */
  method DivnormDigit(taba: array<Limb>, o: nat, tabb: array<Limb>, bo: nat, nb: nat, b1Inv: Limb)
    returns (q: Limb)
    requires o + nb < taba.Length && taba != tabb && Normalised(tabb[..], bo, nb) && nb >= 2
    requires b1Inv == 0 || b1Inv == Udiv1NormInit(tabb[bo + nb - 1])
    requires Num(taba[..], o + 1, nb) < Num(tabb[..], bo, nb)
    modifies taba
    ensures Num(taba[..], o, nb) < Num(tabb[..], bo, nb)
    ensures old(Num(taba[..], o, nb + 1)) == q * Num(tabb[..], bo, nb) + Num(taba[..], o, nb)
    ensures forall j :: 0 <= j < taba.Length && !(o <= j < o + nb + 1) ==> taba[j] == old(taba[j])
  {
    q := EstimateDigit(taba[o + nb], taba[o + nb - 1], tabb[bo + nb - 1], b1Inv);
    ghost var before: seq<Limb> := taba[..];
    ghost var b, D := Num(tabb[..], bo, nb), Num(before, o, nb + 1);
    EstimateFromLimbs(before, o, tabb[..], bo, nb, q);
    var r := MpSubMul1(taba, o, tabb, bo, nb, q);
    ghost var mid: seq<Limb> := taba[..];
    var v: int := taba[o + nb];
    var a := Wrap(v - r);
    var c := a > v;
    taba[o + nb] := a;
    NumSame(mid, taba[..], o, nb);
    SubtractProduct(before, taba[..], o, nb, q * b, r, a, c);
    if c {
      q := AddBack(taba, o, tabb, bo, nb, q, D);
    }
    RemainderFits(taba[..], o, tabb[..], bo, nb);
  }

  lemma RemainderFits(s: seq<Limb>, o: nat, t: seq<Limb>, bo: nat, nb: nat)
    requires o + nb < |s| && bo + nb <= |t| && Num(s, o, nb + 1) < Num(t, bo, nb)
    ensures Num(s, o, nb + 1) == Num(s, o, nb)
  {
    NumBound(t, bo, nb);
    TopLimb(s, o, nb);
    if s[o + nb] >= 1 { MulMonotone(1, s[o + nb], Pow(nb)); }
  }

  lemma EstimateFromLimbs(s: seq<Limb>, o: nat, t: seq<Limb>, bo: nat, nb: nat, q: Limb)
    requires o + nb < |s| && Normalised(t, bo, nb) && nb >= 2
    requires Num(s, o + 1, nb) < Num(t, bo, nb)
    requires s[o + nb] >= t[bo + nb - 1] ==> q == 0xFFFF_FFFF_FFFF_FFFF
    requires s[o + nb] < t[bo + nb - 1] ==>
      0 <= s[o + nb] * 0x1_0000_0000_0000_0000 + s[o + nb - 1] - q * t[bo + nb - 1] < t[bo + nb - 1]
    ensures -2 * Num(t, bo, nb) <= Num(s, o, nb + 1) - q * Num(t, bo, nb) < Num(t, bo, nb)
  {
    NormalisedBounds(t, bo, nb);
    NumCons(s, o, nb);
    NumBound(s, o, nb - 1);
    TopLimb(s, o, nb);
    TopLimb(s, o, nb - 1);
    var P := Pow(nb - 1);
    assert Pow(nb) == 0x1_0000_0000_0000_0000 * P;
    TwoLimbs(s[o + nb], s[o + nb - 1], P);
    DigitEstimate(Num(s, o, nb + 1), Num(t, bo, nb), t[bo + nb - 1], s[o + nb], s[o + nb - 1],
                  Num(s, o, nb - 1), P, q);
  }

  lemma TwoLimbs(x: int, y: int, p: int)
    ensures x * (0x1_0000_0000_0000_0000 * p) + y * p == (x * 0x1_0000_0000_0000_0000 + y) * p
  {
    assert x * (0x1_0000_0000_0000_0000 * p) == (x * 0x1_0000_0000_0000_0000) * p;
  }

  // ---------------------------------------------------------------------
  // The schoolbook method
  // ---------------------------------------------------------------------

  /** `q` and the remainder left in `a` are the division of the `na` limbs of
      `a0` by the divisor: exact, with a remainder below the divisor and a top
      quotient limb of 0 or 1. */
  ghost predicate IsDivision(a0: seq<Limb>, ao: nat, na: nat, q: seq<Limb>, qo: nat, a: seq<Limb>,
                             t: seq<Limb>, bo: nat, nb: nat)
    requires 1 <= nb <= na && ao + na <= |a0| == |a| && qo + na - nb < |q| && bo + nb <= |t|
  {
    && Num(a0, ao, na) == Num(q, qo, na - nb + 1) * Num(t, bo, nb) + Num(a, ao, nb)
    && Num(a, ao, nb) < Num(t, bo, nb)
    && q[qo + na - nb] <= 1
  }

  lemma QuotientTop(q: seq<Limb>, qo: nat, m: nat, t: seq<Limb>, bo: nat, nb: nat)
    requires qo + m < |q| && Normalised(t, bo, nb)
    requires Num(q, qo, m + 1) * Num(t, bo, nb) < Pow(m + nb)
    ensures q[qo + m] <= 1
  {
    NormalisedBounds(t, bo, nb);
    PowAdd(m, nb);
    TopLimb(q, qo, m);
    if q[qo + m] >= 2 {
      MulMonotone(2, q[qo + m], Pow(m));
      QuotientTooLarge(Num(q, qo, m + 1), Num(t, bo, nb), Pow(m), Pow(nb));
    }
  }

  lemma QuotientTooLarge(q: int, b: int, p: int, pb: int)
    requires 2 * p <= q && pb <= 2 * b && p > 0 && b > 0
    ensures q * b >= p * pb
  {
    MulMonotone(2 * p, q, b);
    MulMonotone(pb, 2 * b, p);
    assert (2 * p) * b == (2 * b) * p && pb * p == p * pb;
  }

  /** The limbs of the dividend from `ao` on are already divided: `q` holds
      their quotient and `a` their remainder. */
  ghost predicate PartialDivision(a0: seq<Limb>, ao: nat, m: nat, q: seq<Limb>, qo: nat, a: seq<Limb>, b: nat, nb: nat)
    requires ao + nb + m <= |a0| == |a| && qo + m + 1 <= |q|
  {
    && Num(a0, ao, m + nb) == Num(q, qo, m + 1) * b + Num(a, ao, nb)
    && Num(a, ao, nb) < b
  }

  lemma JoinDigit(x: int, hi: int, q: int, Q: int, b: int, r: int, r': int)
    requires hi == Q * b + r && x + 0x1_0000_0000_0000_0000 * r == q * b + r'
    ensures x + 0x1_0000_0000_0000_0000 * hi == (q + 0x1_0000_0000_0000_0000 * Q) * b + r'
  {
    assert (q + 0x1_0000_0000_0000_0000 * Q) * b == q * b + 0x1_0000_0000_0000_0000 * (Q * b);
  }

  lemma DivnormRow(a0: seq<Limb>, ao: nat, m: nat, q0: seq<Limb>, q: seq<Limb>, qo: nat,
                   before: seq<Limb>, after: seq<Limb>, b: nat, nb: nat)
    requires ao + 1 + nb + m <= |a0| == |before| == |after| && qo + m + 2 <= |q| == |q0|
    requires PartialDivision(a0, ao + 1, m, q0, qo + 1, before, b, nb)
    requires forall j :: qo + 1 <= j < qo + m + 2 ==> q[j] == q0[j]
    requires before[ao] == a0[ao]
    requires Num(before, ao, nb + 1) == q[qo] * b + Num(after, ao, nb)
    requires Num(after, ao, nb) < b
    ensures PartialDivision(a0, ao, m + 1, q, qo, after, b, nb)
  {
    NumSame(q0, q, qo + 1, m + 1);
    NumCons(a0, ao, m + nb);
    NumCons(before, ao, nb);
    NumCons(q, qo, m + 1);
    JoinDigit(a0[ao], Num(a0, ao + 1, m + nb), q[qo], Num(q, qo + 1, m + 1), b,
              Num(before, ao + 1, nb), Num(after, ao, nb));
  }

  /** The first quotient digit is 0 or 1: compares the top limbs with the divisor. */
  method FirstDigit(taba: array<Limb>, o: nat, tabb: array<Limb>, bo: nat, nb: nat) returns (q: Limb)
    requires o + nb <= taba.Length && bo + nb <= tabb.Length
    ensures q == if Num(taba[..], o, nb) >= Num(tabb[..], bo, nb) then 1 else 0
  {
    ghost var s: seq<Limb>, t: seq<Limb> := taba[..], tabb[..];
    q := 1;
    var j: int := nb - 1;
    while j >= 0
      invariant -1 <= j < nb && q == 1
      invariant Num(s, o, nb) - Num(s, o, j + 1) == Num(t, bo, nb) - Num(t, bo, j + 1)
    {
      if taba[o + j] != tabb[bo + j] {
        TopLimbDecides(s, o, t, bo, j);
        TopLimbDecides(t, bo, s, o, j);
        if taba[o + j] < tabb[bo + j] {
          q := 0;
        }
        return;
      }
      j := j - 1;
    }
  }

  /** The first iteration of mp_divnorm, on the top `nb` limbs. */
  method DivnormFirst(tabq: array<Limb>, qo: nat, taba: array<Limb>, o: nat, tabb: array<Limb>, bo: nat, nb: nat)
    requires qo < tabq.Length && o + nb <= taba.Length && Normalised(tabb[..], bo, nb)
    requires tabq != taba && tabq != tabb && taba != tabb
    modifies tabq, taba
    ensures tabq[qo] <= 1
    ensures PartialDivision(old(taba[..]), o, 0, tabq[..], qo, taba[..], Num(tabb[..], bo, nb), nb)
    ensures forall j :: 0 <= j < tabq.Length && j != qo ==> tabq[j] == old(tabq[j])
    ensures forall j :: 0 <= j < taba.Length && !(o <= j < o + nb) ==> taba[j] == old(taba[j])
  {
    NormalisedBounds(tabb[..], bo, nb);
    NumBound(taba[..], o, nb);
    var q := FirstDigit(taba, o, tabb, bo, nb);
    tabq[qo] := q;
    OneLimb(tabq[..], qo);
    if q != 0 {
      var k := MpSub(taba, o, taba, o, tabb, bo, nb, 0);
      NumBound(taba[..], o, nb);
      if k != 1 { NoCarry(k, Pow(nb)); }
    }
  }

  /** One iteration of the main loop of mp_divnorm: one more quotient limb. */
  method DivnormIteration(tabq: array<Limb>, qo: nat, taba: array<Limb>, ao: nat, tabb: array<Limb>,
                          bo: nat, nb: nat, b1Inv: Limb, ghost m: nat, ghost a0: seq<Limb>)
    requires qo + m + 1 < tabq.Length && ao + 1 + nb + m <= taba.Length == |a0|
    requires Normalised(tabb[..], bo, nb) && nb >= 2
    requires b1Inv == 0 || b1Inv == Udiv1NormInit(tabb[bo + nb - 1])
    requires tabq != taba && tabq != tabb && taba != tabb
    requires PartialDivision(a0, ao + 1, m, tabq[..], qo + 1, taba[..], Num(tabb[..], bo, nb), nb)
    requires taba[ao] == a0[ao]
    modifies tabq, taba
    ensures PartialDivision(a0, ao, m + 1, tabq[..], qo, taba[..], Num(tabb[..], bo, nb), nb)
    ensures forall j :: 0 <= j < tabq.Length && j != qo ==> tabq[j] == old(tabq[j])
    ensures forall j :: 0 <= j < taba.Length && !(ao <= j <= ao + nb) ==> taba[j] == old(taba[j])
  {
    ghost var before: seq<Limb>, q0: seq<Limb> := taba[..], tabq[..];
    var q := DivnormDigit(taba, ao, tabb, bo, nb, b1Inv);
    tabq[qo] := q;
    DivnormRow(a0, ao, m, q0, tabq[..], qo, before, taba[..], Num(tabb[..], bo, nb), nb);
  }

  /** The base case of mp_divnorm for a divisor of two or more limbs. */
  method DivnormSchoolbook(tabq: array<Limb>, qo: nat, taba: array<Limb>, ao: nat, na: nat,
                           tabb: array<Limb>, bo: nat, nb: nat)
    requires 2 <= nb <= na && qo + na - nb < tabq.Length && ao + na <= taba.Length
    requires Normalised(tabb[..], bo, nb)
    requires tabq != taba && tabq != tabb && taba != tabb
    modifies tabq, taba
    ensures IsDivision(old(taba[..]), ao, na, tabq[..], qo, taba[..], tabb[..], bo, nb)
    ensures forall j :: 0 <= j < tabq.Length && !(qo <= j <= qo + na - nb) ==> tabq[j] == old(tabq[j])
    ensures forall j :: 0 <= j < taba.Length && !(ao <= j < ao + na) ==> taba[j] == old(taba[j])
  {
    ghost var a0: seq<Limb> := taba[..];
    ghost var b := Num(tabb[..], bo, nb);
    var b1: Limb, n := tabb[bo + nb - 1], na - nb;
    var b1Inv: Limb := if n >= UDIV1NORM_THRESHOLD then Udiv1NormInit(b1) else 0;
    DivnormFirst(tabq, qo + n, taba, ao + n, tabb, bo, nb);
    var i := n;
    while i > 0
      invariant 0 <= i <= n && tabq[qo + n] <= 1
      invariant PartialDivision(a0, ao + i, n - i, tabq[..], qo + i, taba[..], b, nb)
      invariant forall j :: 0 <= j < taba.Length && !(ao + i <= j < ao + na) ==> taba[j] == a0[j]
      invariant forall j :: 0 <= j < tabq.Length && !(qo + i <= j <= qo + n) ==> tabq[j] == old(tabq[j])
    {
      i := i - 1;
      DivnormIteration(tabq, qo + i, taba, ao + i, tabb, bo, nb, b1Inv, n - i - 1, a0);
    }
  }
}
