/** The inverse of the number-theoretic transform of
    Sources/SubstrataQuickJS/libbf.c: transforming with a root and then with its
    inverse gives the input back, times the length. */
module NttInverse {

  import opened Limbs
  import opened Congruence
  import opened Ntt

  /** The sum of the first `n` powers of `z`. */
  function Geometric(z: int, n: nat): int {
    if n == 0 then 0 else Geometric(z, n - 1) + PowI(z, n - 1)
  }

  lemma {:induction false} GeometricDouble(z: int, h: nat, n: nat)
    ensures Geometric(z, h + n) == Geometric(z, h) + PowI(z, h) * Geometric(z, n)
  {
    if n > 0 {
      GeometricDouble(z, h, n - 1);
      PowSum(z, h, n - 1);
      var p, g, q := PowI(z, h), Geometric(z, n - 1), PowI(z, n - 1);
      assert p * (g + q) == p * g + p * q;
    }
  }

  lemma {:induction false} CongGeometric(z: int, y: int, n: nat, m: int)
    requires Cong(z, y, m)
    ensures Cong(Geometric(z, n), Geometric(y, n), m)
  {
    if n == 0 {
      CongRefl(0, m);
    } else {
      CongGeometric(z, y, n - 1, m);
      CongPow(z, y, n - 1, m);
      CongAdd(Geometric(z, n - 1), Geometric(y, n - 1), PowI(z, n - 1), PowI(y, n - 1), m);
    }
  }

  /** The powers of a root to an exponent that its order does not divide add up
      to 0. */
  lemma {:induction false} RootsCancel(w: int, l: nat, d: nat, m: int)
    requires Root(w, l, m) && 0 < d < Pow2(l)
    ensures Cong(Geometric(PowI(w, d), Pow2(l)), 0, m)
    decreases l
  {
    var h, z := Pow2(l - 1), PowI(w, d);
    var g := Geometric(z, h);
    HalfPowers(w, l, m, d);
    GeometricDouble(z, h, h);
    assert Pow2(l) == h + h;
    CongRefl(g, m);
    if d % 2 == 1 {
      CongMul(PowI(z, h), -1, g, g, m);
      CongAdd(g, g, PowI(z, h) * g, -1 * g, m);
    } else {
      EvenCancel(w, l, d / 2, m);
      CongMul(PowI(z, h), 1, g, g, m);
      CongAdd(g, 0, PowI(z, h) * g, g, m);
      CongTrans(g + PowI(z, h) * g, 0 + g, 0, m);
    }
  }

  lemma EvenCancel(w: int, l: nat, e: nat, m: int)
    requires Root(w, l, m) && 0 < 2 * e < Pow2(l)
    ensures Cong(Geometric(PowI(w, 2 * e), Pow2(l - 1)), 0, m)
    decreases l, 0
  {
    var h := Pow2(l - 1);
    assert e < h;
    assert l >= 2;
    CongRefl(w * w, m);
    RootSquare(w, w * w, l, m);
    RootsCancel(w * w, l - 1, e, m);
    EvenPower(w, w * w, e, m);
    CongGeometric(PowI(w, 2 * e), PowI(w * w, e), h, m);
    CongTrans(Geometric(PowI(w, 2 * e), h), Geometric(PowI(w * w, e), h), 0, m);
  }

  /** The inverse of a root is a root of the same order. */
  lemma InverseRoot(w: int, v: int, l: nat, m: int)
    requires Root(w, l, m) && Cong(w * v, 1, m)
    ensures Root(v, l, m)
  {
    var h := Pow2(l - 1);
    var p, q := PowI(w, h), PowI(v, h);
    CongPow(w * v, 1, h, m);
    PowOne(h);
    PowProduct(w, v, h);
    CongRefl(q, m);
    CongMul(p, -1, q, q, m);
    CongSym(p * q, -1 * q, m);
    CongTrans(-1 * q, p * q, 1, m);
    CongRefl(-1, m);
    CongMul(-1, -1, -1 * q, 1, m);
    assert -1 * (-1 * q) == q;
  }

  lemma {:induction false} GeometricOne(n: nat)
    ensures Geometric(1, n) == n
  {
    if n > 0 {
      GeometricOne(n - 1);
      PowOne(n - 1);
    }
  }

  /** A power of `w` times a lower power of its inverse. */
  lemma PowersCancel(w: int, v: int, a: nat, b: nat, m: int)
    requires Cong(w * v, 1, m)
    ensures Cong(PowI(w, a + b) * PowI(v, b), PowI(w, a), m)
  {
    PowSum(w, a, b);
    PowProduct(w, v, b);
    CongPow(w * v, 1, b, m);
    PowOne(b);
    var x, y, z := PowI(w, a), PowI(w, b), PowI(v, b);
    Triple(x, y, z);
    CongRefl(x, m);
    CongMul(x, x, y * z, 1, m);
  }

  lemma HigherPower(w: int, v: int, u: nat, t: nat, m: int)
    requires Cong(w * v, 1, m) && u >= t
    ensures Cong(PowI(w, u) * PowI(v, t), PowI(w, u - t), m)
  {
    var d := u - t;
    assert d + t == u;
    PowersCancel(w, v, d, t, m);
  }

  lemma SamePower(w: int, v: int, n: nat, t: nat, m: int)
    requires Cong(w * v, 1, m)
    ensures Cong(Geometric(PowI(w, t) * PowI(v, t), n), n, m)
  {
    HigherPower(w, v, t, t, m);
    CongGeometric(PowI(w, t) * PowI(v, t), 1, n, m);
    GeometricOne(n);
  }

  lemma HigherFirst(w: int, v: int, k: nat, u: nat, t: nat, m: int)
    requires Root(w, k, m) && Cong(w * v, 1, m) && t < u < Pow2(k)
    ensures Cong(Geometric(PowI(w, u) * PowI(v, t), Pow2(k)), 0, m)
  {
    HigherPower(w, v, u, t, m);
    Cancelled(w, PowI(w, u) * PowI(v, t), k, u - t, m);
  }

  lemma HigherSecond(w: int, v: int, k: nat, u: nat, t: nat, m: int)
    requires Root(w, k, m) && Cong(w * v, 1, m) && u < t < Pow2(k)
    ensures Cong(Geometric(PowI(w, u) * PowI(v, t), Pow2(k)), 0, m)
  {
    InverseRoot(w, v, k, m);
    assert v * w == w * v;
    HigherFirst(v, w, k, t, u, m);
    assert PowI(v, t) * PowI(w, u) == PowI(w, u) * PowI(v, t);
  }

  /** The columns of the two transforms are orthogonal. */
  lemma Orthogonal(w: int, v: int, k: nat, m: int, u: nat, t: nat)
    requires Root(w, k, m) && Cong(w * v, 1, m) && u < Pow2(k) && t < Pow2(k)
    ensures Cong(Geometric(PowI(w, u) * PowI(v, t), Pow2(k)), if u == t then Pow2(k) else 0, m)
  {
    if u == t {
      SamePower(w, v, Pow2(k), t, m);
    } else if u > t {
      HigherFirst(w, v, k, u, t, m);
    } else {
      HigherSecond(w, v, k, u, t, m);
    }
  }

  lemma Cancelled(w: int, z: int, k: nat, d: nat, m: int)
    requires Root(w, k, m) && 0 < d < Pow2(k) && Cong(z, PowI(w, d), m)
    ensures Cong(Geometric(z, Pow2(k)), 0, m)
  {
    var n := Pow2(k);
    CongGeometric(z, PowI(w, d), n, m);
    RootsCancel(w, k, d, m);
    CongTrans(Geometric(z, n), Geometric(PowI(w, d), n), 0, m);
  }

  /** The transform of the first `u` entries of `x`, for every index. */
  function Prefix(x: seq<Limb>, w: int, u: nat, n: nat): (c: seq<int>)
    requires u <= |x|
    ensures |c| == n
  {
    seq(n, f requires 0 <= f < n => Sum(x, PowI(w, f), u))
  }

  lemma {:induction false} SumOnes(c: seq<int>, z: int, n: nat)
    requires n <= |c| && forall i :: 0 <= i < n ==> c[i] == 1
    ensures Sum(c, z, n) == Geometric(z, n)
  {
    if n > 0 { SumOnes(c, z, n - 1); }
  }

  /** The sum over the powers of one root, weighted with the powers of another. */
  lemma PowersSum(w: int, z: int, u: nat, n: nat, b: seq<int>)
    requires |b| == n && forall f :: 0 <= f < n ==> b[f] == PowI(PowI(w, f), u)
    ensures Sum(b, z, n) == Geometric(PowI(w, u) * z, n)
  {
    var ones := seq(n, _ => 1);
    forall f | 0 <= f < n ensures b[f] == ones[f] * PowI(PowI(w, u), f) {
      PowTimes(w, f, u);
      PowTimes(w, u, f);
      Commute(f, u);
    }
    SumTwist(ones, b, PowI(w, u), z, n);
    SumOnes(ones, PowI(w, u) * z, n);
  }

  lemma OneMoreTerm(s: int, r: int, x: int, g: int, h: int, m: int)
    requires Cong(s, r, m) && Cong(g, h, m)
    ensures Cong(s + x * g, r + x * h, m)
  {
    CongRefl(x, m);
    CongMul(x, x, g, h, m);
    CongAdd(s, r, x * g, x * h, m);
  }

  lemma {:induction false} PrefixInverse(x: seq<Limb>, w: int, v: int, k: nat, m: int, u: nat, t: nat)
    requires Root(w, k, m) && Cong(w * v, 1, m) && |x| == Pow2(k) && t < |x| && u <= |x|
    ensures Cong(Sum(Prefix(x, w, u, |x|), PowI(v, t), |x|), if t < u then |x| * x[t] else 0, m)
  {
    var n, z := |x|, PowI(v, t);
    var c := Prefix(x, w, u, n);
    if u == 0 {
      ZeroSum(c, z, n);
      CongRefl(0, m);
    } else {
      var a, xu: int := Prefix(x, w, u - 1, n), x[u - 1];
      var b := seq(n, f requires 0 <= f < n => PowI(PowI(w, f), u - 1));
      PrefixInverse(x, w, v, k, m, u - 1, t);
      SumAdd(a, b, c, xu, z, n);
      PowersSum(w, z, u - 1, n, b);
      Orthogonal(w, v, k, m, u - 1, t);
      OneMoreTerm(Sum(a, z, n), if t < u - 1 then n * x[t] else 0, xu, Sum(b, z, n), if u - 1 == t then n else 0, m);
      if u - 1 == t { Commute(xu, n); }
    }
  }

  lemma {:induction false} ZeroSum(c: seq<int>, z: int, n: nat)
    requires n <= |c| && forall i :: 0 <= i < n ==> c[i] == 0
    ensures Sum(c, z, n) == 0
  {
    if n > 0 { ZeroSum(c, z, n - 1); }
  }

  /** If `y` is the transform of `x` with `w`, the transform of `y` with the
      inverse of `w` is `x` times the length. */
  lemma InverseTransform(x: seq<Limb>, y: seq<Limb>, w: int, v: int, k: nat, m: int, t: nat)
    requires Root(w, k, m) && Cong(w * v, 1, m) && |x| == |y| == Pow2(k) && t < |x|
    requires forall f :: 0 <= f < |y| ==> Final(y, x, w, m, f)
    ensures Cong(Dft(y, v, t), |x| * x[t], m)
  {
    var n, z, c := |x|, PowI(v, t), Prefix(x, w, |x|, |x|);
    CongRefl(z, m);
    forall f | 0 <= f < n ensures Cong(y[f], c[f], m) { assert Final(y, x, w, m, f); }
    CongSum(y, c, z, z, n, m);
    PrefixInverse(x, w, v, k, m, n, t);
    CongTrans(Dft(y, v, t), Sum(c, z, n), n * x[t], m);
  }
}
