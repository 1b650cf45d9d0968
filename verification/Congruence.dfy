/** Congruence of integers, powers and polynomial sums: the arithmetic behind the
    number-theoretic transform of Sources/SubstrataQuickJS/libbf.c. */
module Congruence {

  import Limbs

  predicate Cong(a: int, b: int, m: int) {
    m > 0 && (a - b) % m == 0
  }

  lemma IsMultiple(x: int, k: int, m: int)
    requires m > 0 && x == k * m
    ensures x % m == 0
  {
    Limbs.QuotientUnique(x / m, x % m, k, 0, m);
  }

  lemma CongBy(a: int, b: int, k: int, m: int)
    requires m > 0 && a == b + k * m
    ensures Cong(a, b, m)
  {
    IsMultiple(a - b, k, m);
  }

  lemma Factor(a: int, b: int, m: int) returns (k: int)
    requires Cong(a, b, m)
    ensures a == b + k * m
  {
    k := (a - b) / m;
  }

  lemma CongRefl(a: int, m: int)
    requires m > 0
    ensures Cong(a, a, m)
  {
    CongBy(a, a, 0, m);
  }

  lemma CongSym(a: int, b: int, m: int)
    requires Cong(a, b, m)
    ensures Cong(b, a, m)
  {
    var k := Factor(a, b, m);
    assert b == a + (-k) * m;
    CongBy(b, a, -k, m);
  }

  lemma CongTrans(a: int, b: int, c: int, m: int)
    requires Cong(a, b, m) && Cong(b, c, m)
    ensures Cong(a, c, m)
  {
    var k := Factor(a, b, m);
    var l := Factor(b, c, m);
    assert a == c + (k + l) * m;
    CongBy(a, c, k + l, m);
  }

  lemma CongAdd(a: int, b: int, c: int, d: int, m: int)
    requires Cong(a, b, m) && Cong(c, d, m)
    ensures Cong(a + c, b + d, m)
  {
    var k := Factor(a, b, m);
    var l := Factor(c, d, m);
    assert a + c == b + d + (k + l) * m;
    CongBy(a + c, b + d, k + l, m);
  }

  lemma CongMul(a: int, b: int, c: int, d: int, m: int)
    requires Cong(a, b, m) && Cong(c, d, m)
    ensures Cong(a * c, b * d, m)
  {
    var k := Factor(a, b, m);
    var l := Factor(c, d, m);
    assert a * c == b * d + (b * l + k * d + k * l * m) * m by {
      assert (b + k * m) * (d + l * m) == b * d + b * (l * m) + (k * m) * d + (k * m) * (l * m);
    }
    CongBy(a * c, b * d, b * l + k * d + k * l * m, m);
  }

  lemma CongMod(a: int, m: int)
    requires m > 0
    ensures Cong(a % m, a, m)
  {
    assert a % m == a + (-(a / m)) * m;
    CongBy(a % m, a, -(a / m), m);
  }

  // ---------------------------------------------------------------------
  // Powers
  // ---------------------------------------------------------------------

  function PowI(w: int, e: nat): int {
    if e == 0 then 1 else PowI(w, e - 1) * w
  }

  lemma {:induction false} PowSum(w: int, a: nat, b: nat)
    ensures PowI(w, a + b) == PowI(w, a) * PowI(w, b)
  {
    if b > 0 {
      PowSum(w, a, b - 1);
      assert PowI(w, a) * PowI(w, b - 1) * w == PowI(w, a) * (PowI(w, b - 1) * w);
    }
  }

  lemma {:induction false} PowTimes(w: int, a: nat, b: nat)
    ensures PowI(w, a * b) == PowI(PowI(w, a), b)
  {
    if b > 0 {
      PowTimes(w, a, b - 1);
      PowSum(w, a * (b - 1), a);
      assert a * (b - 1) + a == a * b;
    }
  }

  lemma FourProduct(x: int, y: int, w: int, v: int)
    ensures (x * y) * (w * v) == (x * w) * (y * v)
  {
    Triple(x * y, w, v);
    Triple(x, y, w);
    Triple(x, w, y);
    Triple(x * w, y, v);
  }

  lemma Triple(x: int, y: int, z: int)
    ensures (x * y) * z == x * (y * z)
  {
  }

  lemma {:induction false} PowProduct(w: int, v: int, e: nat)
    ensures PowI(w * v, e) == PowI(w, e) * PowI(v, e)
  {
    if e > 0 {
      PowProduct(w, v, e - 1);
      FourProduct(PowI(w, e - 1), PowI(v, e - 1), w, v);
    }
  }

  lemma {:induction false} PowOne(e: nat)
    ensures PowI(1, e) == 1
  {
    if e > 0 { PowOne(e - 1); }
  }

  lemma {:induction false} CongPow(a: int, b: int, e: nat, m: int)
    requires Cong(a, b, m)
    ensures Cong(PowI(a, e), PowI(b, e), m)
  {
    if e == 0 {
      CongRefl(1, m);
    } else {
      CongPow(a, b, e - 1, m);
      CongMul(PowI(a, e - 1), PowI(b, e - 1), a, b, m);
    }
  }

  // ---------------------------------------------------------------------
  // The value of a polynomial
  // ---------------------------------------------------------------------

  /** The sum of c[i] z^i over the first `n` coefficients. */
  function Sum(c: seq<int>, z: int, n: nat): int
    requires n <= |c|
  {
    if n == 0 then 0 else Sum(c, z, n - 1) + c[n - 1] * PowI(z, n - 1)
  }

  lemma {:induction false} CongSum(c: seq<int>, d: seq<int>, z: int, y: int, n: nat, m: int)
    requires n <= |c| && n <= |d| && Cong(z, y, m)
    requires forall i :: 0 <= i < n ==> Cong(c[i], d[i], m)
    ensures Cong(Sum(c, z, n), Sum(d, y, n), m)
  {
    if n == 0 {
      CongRefl(0, m);
    } else {
      CongSum(c, d, z, y, n - 1, m);
      CongPow(z, y, n - 1, m);
      CongMul(c[n - 1], d[n - 1], PowI(z, n - 1), PowI(y, n - 1), m);
      CongAdd(Sum(c, z, n - 1), Sum(d, y, n - 1), c[n - 1] * PowI(z, n - 1), d[n - 1] * PowI(y, n - 1), m);
    }
  }

  lemma FactorOut(p: int, s: int, x: int, q: int)
    ensures p * s + x * (p * q) == p * (s + x * q)
  {
    Triple(x, p, q);
    Triple(p, x, q);
  }

  /** The upper half of the coefficients, from `h` on. */
  lemma {:induction false} SumSplit(c: seq<int>, z: int, h: nat, n: nat)
    requires h + n <= |c|
    ensures Sum(c, z, h + n) == Sum(c, z, h) + PowI(z, h) * Sum(c[h..], z, n)
  {
    if n > 0 {
      SumSplit(c, z, h, n - 1);
      PowSum(z, h, n - 1);
      var s, p, q, x := Sum(c[h..], z, n - 1), PowI(z, h), PowI(z, n - 1), c[h + n - 1];
      assert c[h..][n - 1] == x;
      FactorOut(p, s, x, q);
    }
  }

  /** Adding `t` times the coefficients of `b`. */
  lemma {:induction false} SumAdd(a: seq<int>, b: seq<int>, c: seq<int>, t: int, z: int, n: nat)
    requires n <= |a| && n <= |b| && n <= |c|
    requires forall i :: 0 <= i < n ==> c[i] == a[i] + t * b[i]
    ensures Sum(c, z, n) == Sum(a, z, n) + t * Sum(b, z, n)
  {
    if n > 0 {
      SumAdd(a, b, c, t, z, n - 1);
      var x, y, p, s := a[n - 1], b[n - 1], PowI(z, n - 1), Sum(b, z, n - 1);
      assert (x + t * y) * p == x * p + t * (y * p);
      assert t * (s + y * p) == t * s + t * (y * p);
    }
  }

  /** Coefficients weighted with the powers of `w`: the value at `w` times `z`. */
  lemma {:induction false} SumTwist(a: seq<int>, c: seq<int>, w: int, z: int, n: nat)
    requires n <= |a| && n <= |c|
    requires forall i :: 0 <= i < n ==> c[i] == a[i] * PowI(w, i)
    ensures Sum(c, z, n) == Sum(a, w * z, n)
  {
    if n > 0 {
      SumTwist(a, c, w, z, n - 1);
      PowProduct(w, z, n - 1);
      Triple(a[n - 1], PowI(w, n - 1), PowI(z, n - 1));
    }
  }
}
