/** The modular multiplications of the number-theoretic transform in
    Sources/SubstrataQuickJS/libbf.c, for moduli of 62 bits and 64-bit limbs. */
module NttModular {

  import opened Limbs
  import opened Congruence

  /** What the moduli of the transform have in common. */
  predicate Modulus(m: int) {
    0x2000_0000_0000_0000 < m < 0x4000_0000_0000_0000
  }

  lemma QuotientFits(x: int, m: int, b: int)
    requires m > 0 && 0 <= x < b * m
    ensures 0 <= x / m < b && x / m * m <= x < (x / m + 1) * m
  {
    var q := x / m;
    assert x == q * m + x % m && (q + 1) * m == q * m + m;
    if q >= b { MulMonotone(b, q, m); }
    if q < 0 { MulMonotone(q, -1, m); }
  }

  /** init_mul_mod_fast */
  function InitMulModFast(m: Limb): (r: Limb)
    requires Modulus(m)
    ensures r * m <= 0x2000_0000_0000_0000_0000_0000_0000_0000 < (r + 1) * m
  {
    QuotientFits(0x2000_0000_0000_0000_0000_0000_0000_0000, m, 0x1_0000_0000_0000_0000);
    0x2000_0000_0000_0000_0000_0000_0000_0000 / m
  }

  /** init_mul_mod_fast2 */
  function InitMulModFast2(b: Limb, m: Limb): (r: Limb)
    requires b < m
    ensures r * m <= b * 0x1_0000_0000_0000_0000 < (r + 1) * m
  {
    QuotientFits(b * 0x1_0000_0000_0000_0000, m, 0x1_0000_0000_0000_0000);
    b * 0x1_0000_0000_0000_0000 / m
  }

  /** add_mod */
  method AddMod(a: Limb, b: Limb, m: Limb) returns (r: Limb)
    requires a < m && b < m <= 0x8000_0000_0000_0000
    ensures r < m && (r == a + b || r == a + b - m)
  {
    r := Wrap(a as int + b);
    if r >= m {
      r := r - m;
    }
  }

  /** sub_mod */
  method SubMod(a: Limb, b: Limb, m: Limb) returns (r: Limb)
    requires a < m && b < m
    ensures r < m && (r == a - b || r == a - b + m)
  {
    r := Wrap(a as int - b);
    if r > a {
      r := Wrap(r as int + m);
    }
  }

  /** The quotient by `m` from a multiplication with the scaled inverse of `b` is
      at most one too small. */
  lemma QuotientClose(a: int, b: int, m: int, bInv: int, q: int, f: int)
    requires 0 <= a < 0x1_0000_0000_0000_0000 && m > 0 && 0 <= f < 0x1_0000_0000_0000_0000
    requires bInv * m <= b * 0x1_0000_0000_0000_0000 < (bInv + 1) * m
    requires a * bInv == q * 0x1_0000_0000_0000_0000 + f
    ensures 0 <= a * b - q * m < 2 * m
  {
    var B := 0x1_0000_0000_0000_0000;
    var e := b * B - bInv * m;
    assert 0 <= e < m by { assert (bInv + 1) * m == bInv * m + m; }
    assert (a * b - q * m) * B == f * m + a * e by {
      assert a * (b * B) == a * (bInv * m) + a * e;
      assert a * (bInv * m) == (a * bInv) * m;
      assert (q * B + f) * m == (q * m) * B + f * m;
      assert a * (b * B) == (a * b) * B;
    }
    MulMonotone(0, f, m);
    MulMonotone(f + 1, B, m);
    assert (f + 1) * m == f * m + m;
    MulMonotone(0, a, e);
    MulMonotone(a, B, e);
    MulStrict(e, m, B);
  }

  /** mul_mod_fast3: the product modulo `m`, or `m` more than that. */
  method MulModFast3(a: Limb, b: Limb, m: Limb, bInv: Limb) returns (r: Limb)
    requires Modulus(m) && b < m && bInv == InitMulModFast2(b, m)
    ensures r < 2 * m && Cong(r, a * b, m)
  {
    var q := a * bInv / 0x1_0000_0000_0000_0000;
    ghost var f := a * bInv % 0x1_0000_0000_0000_0000;
    QuotientClose(a, b, m, bInv, q, f);
    r := Wrap(a * b - q * m);
    CongBy(r, a * b, -q, m) by { assert (-q) * m == -(q * m); }
  }

  lemma ModUnique(r: int, x: int, m: int)
    requires Cong(r, x, m) && 0 <= r < m
    ensures r == x % m
  {
    var k := Factor(r, x, m);
    assert x == (-k) * m + r;
    QuotientUnique(x / m, x % m, -k, r, m);
  }

  /** mul_mod_fast2 */
  method MulModFast2(a: Limb, b: Limb, m: Limb, bInv: Limb) returns (r: Limb)
    requires Modulus(m) && b < m && bInv == InitMulModFast2(b, m)
    ensures r == a * b % m
  {
    r := MulModFast3(a, b, m, bInv);
    if r >= m {
      CongBy(r - m, r, -1, m);
      CongTrans(r - m, r, a * b, m);
      r := r - m;
    }
    ModUnique(r, a * b, m);
  }

  /** The quotient estimate of mod_fast is at most two too small. */
  lemma ModFastEstimate(r: int, m: int, mInv: int, a1: int, q: int)
    requires Modulus(m) && 0 <= r < 0x2000_0000_0000_0000_0000_0000_0000_0000
    requires 0 <= mInv < 0x1_0000_0000_0000_0000
    requires mInv * m <= 0x2000_0000_0000_0000_0000_0000_0000_0000 < (mInv + 1) * m
    requires a1 == r / 0x2000_0000_0000_0000 && q == a1 * mInv / 0x1_0000_0000_0000_0000
    ensures 0 <= q && 0 <= a1 < 0x1_0000_0000_0000_0000 && 0 <= r - q * m < 3 * m
  {
    var B, S := 0x1_0000_0000_0000_0000, 0x2000_0000_0000_0000;
    assert 0 <= a1 < B && a1 * S <= r < a1 * S + S;
    MulMonotone(0, a1, mInv);
    var f := a1 * mInv % B;
    assert a1 * mInv == q * B + f;
    var e := S * B - mInv * m;
    assert 0 <= e < m by { assert (mInv + 1) * m == mInv * m + m; }
    EstimateScaled(r, m, mInv, a1, q, f, e);
  }

  lemma EstimateScaled(r: int, m: int, mInv: int, a1: int, q: int, f: int, e: int)
    requires Modulus(m) && 0 <= e < m && 0 <= f < 0x1_0000_0000_0000_0000
    requires 0 <= a1 < 0x1_0000_0000_0000_0000
    requires a1 * 0x2000_0000_0000_0000 <= r < a1 * 0x2000_0000_0000_0000 + 0x2000_0000_0000_0000
    requires mInv * m + e == 0x2000_0000_0000_0000_0000_0000_0000_0000
    requires a1 * mInv == q * 0x1_0000_0000_0000_0000 + f
    ensures 0 <= r - q * m < 3 * m
  {
    var B, S := 0x1_0000_0000_0000_0000, 0x2000_0000_0000_0000;
    assert a1 * (S * B) == (q * m) * B + f * m + a1 * e by {
      assert a1 * (mInv * m) == (a1 * mInv) * m;
      assert (q * B + f) * m == (q * m) * B + f * m;
      assert a1 * (mInv * m + e) == a1 * (mInv * m) + a1 * e;
    }
    MulMonotone(0, f, m);
    MulMonotone(f + 1, B, m);
    assert (f + 1) * m == f * m + m;
    MulMonotone(0, a1, e);
    MulMonotone(a1, B, e);
    MulStrict(e, m, B);
    assert a1 * (S * B) == (a1 * S) * B;
  }

  /** A limb that is all zeros or all ones, as the mask of the source's `&`. */
  function Masked(m: Limb, t: Limb): Limb
    requires t == 0 || t == 0xFFFF_FFFF_FFFF_FFFF
  {
    if t == 0 then 0 else m
  }

  /** A signed limb shifted right by one bit. */
  function Sar1(x: Limb): Limb {
    x / 2 + if x >= 0x8000_0000_0000_0000 then 0x8000_0000_0000_0000 else 0
  }

  /** mod_fast */
  method ModFast(r0: int, m: Limb, mInv: Limb) returns (res: Limb)
    requires Modulus(m) && mInv == InitMulModFast(m)
    requires 0 <= r0 < 0x2000_0000_0000_0000_0000_0000_0000_0000
    ensures res == r0 % m
  {
    var a1 := r0 / 0x2000_0000_0000_0000;
    var q := a1 * mInv / 0x1_0000_0000_0000_0000;
    ModFastEstimate(r0, m, mInv, a1, q);
    ghost var c;
    res, c := FinishMod(Wrap2(r0 - q * m - m * 2), m, r0 - q * m);
    ghost var k := q + c;
    assert res == r0 - k * m;
    CongBy(res, r0, -k, m) by { assert (-k) * m == -(k * m); }
    ModUnique(res, r0, m);
  }

  /** The end of mod_fast: `r` holds `x` minus twice the modulus. */
  method FinishMod(r0: int, m: Limb, ghost x: int) returns (res: Limb, ghost c: int)
    requires Modulus(m) && 0 <= x < 3 * m && r0 == Wrap2(x - m * 2)
    ensures res < m && 0 <= c <= 2 && res == x - c * m
  {
    var r := r0;
    var r1: Limb := r / 0x1_0000_0000_0000_0000;
    c := if x < m then 0 else if x < 2 * m then 1 else 2;
    assert x < 2 * m ==> r == x - m * 2 + 0x1_0000_0000_0000_0000_0000_0000_0000_0000 && r1 == 0xFFFF_FFFF_FFFF_FFFF;
    assert x >= 2 * m ==> r == x - m * 2 && r1 == 0;
    var t0 := Sar1(r1);
    r := Wrap2(r + Masked(m, t0));
    assert x < m ==> r == x - m + 0x1_0000_0000_0000_0000_0000_0000_0000_0000;
    assert m <= x < 2 * m ==> r == x - m;
    res := r % 0x1_0000_0000_0000_0000;
    r1 := r / 0x1_0000_0000_0000_0000;
    res := Wrap(res as int + Masked(m, r1));
  }

  /** mul_mod_fast */
  method MulModFast(a: Limb, b: Limb, m: Limb, mInv: Limb) returns (res: Limb)
    requires Modulus(m) && mInv == InitMulModFast(m)
    requires a * b < 0x2000_0000_0000_0000_0000_0000_0000_0000
    ensures res == a * b % m
  {
    MulMonotone(0, a, b);
    res := ModFast(a * b, m, mInv);
  }
}
