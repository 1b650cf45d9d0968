/** Newton's reciprocal and the division that multiplies by it
    (mp_divnorm, mp_recip and mp_divnorm_large of
    Sources/SubstrataQuickJS/libbf.c). The three call each other. */
module Reciprocal {
  import opened Limbs
  import opened Division

  // ---------------------------------------------------------------------
  // The arithmetic of one Newton step
  // ---------------------------------------------------------------------

  lemma NewtonProduct(A: int, X: int, T: int, Tm: int, e: int, V: int, f: int, P: int, K: int, Q: int, M: int)
    requires M == P * Q && K * P == Q
    requires A * X == M - T && T == Tm * P + e && Tm * X == V * K + f
    ensures Q * (A * (X * P + V)) == M * M - T * T - e * (A * X) - P * (A * f)
  {
    var AX := A * X;
    assert Q * (A * (X * P + V)) == Q * (A * (X * P)) + Q * (A * V);
    assert Q * (A * (X * P)) == (P * Q) * AX;
    QuotientPart(A, X, T, Tm, e, V, f, P, K, Q);
    assert M * AX + (T - e) * AX == (M - T) * (M + T) - e * AX;
    assert (M - T) * (M + T) == M * M - T * T;
  }

  lemma QuotientPart(A: int, X: int, T: int, Tm: int, e: int, V: int, f: int, P: int, K: int, Q: int)
    requires K * P == Q && T == Tm * P + e && Tm * X == V * K + f
    ensures Q * (A * V) == (T - e) * (A * X) - P * (A * f)
  {
    assert (K * P) * (A * V) == (P * A) * (V * K);
    assert (P * A) * (Tm * X - f) == (Tm * P) * (A * X) - P * (A * f);
  }

  lemma SquareTerm(A: int, T: int, N: int)
    requires 0 < T < 2 * A && A < N
    ensures 0 < T * T < 4 * (A * N)
  {
    MulStrict(0, T, T);
    MulStrict(T, 2 * A, T);
    MulMonotone(T, 2 * A, A);
    MulMonotone(A, N, A);
  }

  lemma TruncationTerm(A: int, AX: int, e: int, P: int, M: int, N: int)
    requires 0 <= e < P && 0 <= AX <= M && N * N == P * M && N <= 2 * A && 0 < N
    ensures 0 <= e * AX <= 2 * (A * N)
  {
    MulMonotone(0, e, AX);
    MulMonotone(e, P, AX);
    MulMonotone(AX, M, P);
    MulMonotone(N, 2 * A, N);
  }

  lemma FloorTerm(A: int, f: int, P: int, K: int, Q: int)
    requires 0 <= f < K && K * P == Q && 0 < A && 0 < P
    ensures 0 <= P * (A * f) <= A * Q
  {
    MulMonotone(0, f, A);
    MulMonotone(f, K, A);
    MulMonotone(0, A * f, P);
    MulMonotone(A * f, A * K, P);
    assert (A * K) * P == A * (K * P);
  }

  /** The error left by one Newton step, scaled by `Q`, is positive and small. */
  lemma NewtonError(A: int, AX: int, T: int, e: int, f: int, P: int, K: int, Q: int, M: int, N: int)
    requires 0 < T < 2 * A && 0 <= e < P && 0 <= f < K && 0 <= AX <= M
    requires K * P == Q && N * N == P * M && N <= 2 * A && A < N && 6 * N <= Q
    ensures 0 < T * T + e * AX + P * (A * f) < (2 * A) * Q
  {
    SquareTerm(A, T, N);
    TruncationTerm(A, AX, e, P, M, N);
    FloorTerm(A, f, P, K, Q);
    MulMonotone(6 * N, Q, A);
    assert (6 * N) * A == 6 * (A * N) && Q * A == A * Q;
  }

  /** One Newton step: from the residual `T` of the half-size reciprocal `X` to
      a full-size one. P, H and K stand for B^l, B^h and B^(2h-l). */
  lemma NewtonStep(A: int, X: int, T: int, Tm: int, e: int, V: int, f: int,
                   P: int, H: int, K: int, N: int, Q: int, M: int)
    requires N == P * H && Q == H * H && M == P * Q && K * P == Q
    requires A * X == M - T && 0 < T < 2 * A && 0 <= A * X
    requires T == Tm * P + e && 0 <= e < P
    requires Tm * X == V * K + f && 0 <= f < K
    requires 0 < P && 6 * P <= H
    requires N <= 2 * A && A < N
    ensures A * (X * P + V) < N * N < A * (X * P + V + 2)
  {
    NewtonProduct(A, X, T, Tm, e, V, f, P, K, Q, M);
    NewtonScales(P, H, N, Q, M);
    NewtonError(A, A * X, T, e, f, P, K, Q, M, N);
    Unscale(Q, A * (X * P + V), N * N, 2 * A, T * T + e * (A * X) + P * (A * f));
    assert A * (X * P + V + 2) == A * (X * P + V) + 2 * A;
  }

  lemma NewtonScales(P: int, H: int, N: int, Q: int, M: int)
    requires N == P * H && Q == H * H && M == P * Q && 0 < P && 6 * P <= H
    ensures N * N == P * M && 6 * N <= Q && Q * (N * N) == M * M && 0 < Q
  {
    MulMonotone(6 * P, H, H);
    MulStrict(0, H, H);
    assert N * N == (P * P) * Q;
    assert Q * ((P * P) * Q) == (P * Q) * (P * Q);
  }

  lemma Unscale(Q: int, x: int, y: int, d: int, E: int)
    requires 0 < Q && Q * y - Q * x == E && 0 < E < d * Q
    ensures x < y < x + d
  {
    assert Q * (y - x) == E;
    if y - x <= 0 { MulMonotone(y - x, 0, Q); }
    if d <= y - x { MulMonotone(d, y - x, Q); }
  }

  // ---------------------------------------------------------------------
  // mp_recip, phase by phase
  // ---------------------------------------------------------------------

  /** The `n + 1` limbs of `r` are an approximate inverse of the `n` limbs of
      `a`: a * r < B^(2n) < a * (r + 2), and the top limb is 1. */
  ghost predicate IsReciprocal(r: seq<Limb>, ro: nat, a: seq<Limb>, ao: nat, n: nat)
    requires ro + n < |r| && ao + n <= |a|
  {
    && Num(a, ao, n) * Num(r, ro, n + 1) < Pow(n) * Pow(n)
    && Pow(n) * Pow(n) < Num(a, ao, n) * (Num(r, ro, n + 1) + 2)
    && r[ro + n] == 1
  }

  /** The greatest number below B^(2n) / a. */
  ghost predicate IsClosest(r: seq<Limb>, ro: nat, a: seq<Limb>, ao: nat, n: nat)
    requires ro + n < |r| && ao + n <= |a|
  {
    var A, X := Num(a, ao, n), Num(r, ro, n + 1);
    A * X < Pow(n) * Pow(n) <= A * (X + 1)
  }

  /** The upper bound in the comment above mp_recip: B^(2n) < a * r + 2. */
  ghost predicate CommentBound(r: seq<Limb>, ro: nat, a: seq<Limb>, ao: nat, n: nat)
    requires ro + n < |r| && ao + n <= |a|
  {
    Pow(n) * Pow(n) < Num(a, ao, n) * Num(r, ro, n + 1) + 2
  }

  lemma RemainderIs(m: nat, d: nat, q: nat, r: nat)
    requires d > 0 && m == d * q + r && r < d
    ensures m % d == r
  {
    QuotientUnique(m / d, m % d, q, r, d);
  }

  /** It asks for more than the result gives: it can hold only if `a` divides
      B^(2n) - 1, and then does so exactly for the closest reciprocal. */
  lemma CommentBoundIf(r: seq<Limb>, ro: nat, a: seq<Limb>, ao: nat, n: nat)
    requires ro + n < |r| && ao + n <= |a| && IsReciprocal(r, ro, a, ao, n) && Num(a, ao, n) > 0
    ensures CommentBound(r, ro, a, ao, n) <==>
      (Pow(n) * Pow(n) - 1) % Num(a, ao, n) == 0 && IsClosest(r, ro, a, ao, n)
  {
    var A, X, M := Num(a, ao, n), Num(r, ro, n + 1), Pow(n) * Pow(n);
    assert A * (X + 1) == A * X + A && A * (X + 2) == A * X + 2 * A;
    if CommentBound(r, ro, a, ao, n) {
      RemainderIs(M - 1, A, X, 0);
    } else if IsClosest(r, ro, a, ao, n) {
      RemainderIs(M - 1, A, X, M - 1 - A * X);
    }
  }

  /** So for one or two limbs it holds exactly for the divisors of B^(2n) - 1, ... */
  lemma CommentBoundShort(r: seq<Limb>, ro: nat, a: seq<Limb>, ao: nat, n: nat)
    requires ro + n < |r| && ao + n <= |a| && IsReciprocal(r, ro, a, ao, n) && IsClosest(r, ro, a, ao, n)
    requires Num(a, ao, n) > 0
    ensures CommentBound(r, ro, a, ao, n) <==> (Pow(n) * Pow(n) - 1) % Num(a, ao, n) == 0
  {
    CommentBoundIf(r, ro, a, ao, n);
  }

  /** ... and for no even number of any length, the least normalised one for
      example. */
  lemma CommentBoundFails(r: seq<Limb>, ro: nat, a: seq<Limb>, ao: nat, n: nat)
    requires 1 <= n && ro + n < |r| && ao + n <= |a| && IsReciprocal(r, ro, a, ao, n)
    requires Num(a, ao, n) > 0 && Num(a, ao, n) % 2 == 0
    ensures !CommentBound(r, ro, a, ao, n)
  {
    EvenProduct(Num(a, ao, n), Num(r, ro, n + 1));
    EvenProduct(Pow(n), Pow(n));
    assert Pow(n) == 2 * (0x8000_0000_0000_0000 * Pow(n - 1));
  }

  lemma EvenProduct(x: nat, y: nat)
    ensures x % 2 == 0 ==> (x * y) % 2 == 0
  {
    if x % 2 == 0 {
      var h := x / 2;
      assert x * y == 2 * (h * y) by { assert x == 2 * h; }
    }
  }

  lemma LeastNormalised(r: seq<Limb>, ro: nat, a: seq<Limb>, ao: nat, n: nat)
    requires ro + n < |r| && Normalised(a, ao, n) && IsReciprocal(r, ro, a, ao, n)
    requires 2 * Num(a, ao, n) == Pow(n)
    ensures Num(r, ro, n + 1) == 2 * Pow(n) - 1 && !CommentBound(r, ro, a, ao, n)
  {
    LeastArithmetic(Num(a, ao, n), Num(r, ro, n + 1), 2 * Pow(n));
    NormalisedBounds(a, ao, n);
    HalfSquare(Num(a, ao, n), Pow(n));
  }

  lemma HalfSquare(h: int, m: int)
    requires m == 2 * h
    ensures m * m == h * (2 * m)
  {
  }

  lemma LeastArithmetic(h: nat, x: nat, m: nat)
    requires h > 1
    ensures h * x < h * m < h * (x + 2) ==> x + 1 == m && h * x + 2 <= h * m
  {
    if x >= m { MulMonotone(m, x, h); }
    if x + 2 <= m { MulMonotone(x + 2, m, h); }
    if x + 1 == m { assert h * m == h * x + h; }
  }

  /** The two bounds already force the top limb to be 1. */
  lemma ReciprocalTop(r: seq<Limb>, ro: nat, n: nat, A: nat)
    requires ro + n < |r| && A < Pow(n) <= 2 * A
    requires A * Num(r, ro, n + 1) < Pow(n) * Pow(n) < A * (Num(r, ro, n + 1) + 2)
    ensures r[ro + n] == 1 && Pow(n) <= Num(r, ro, n + 1) < 2 * Pow(n)
  {
    ReciprocalRange(A, Num(r, ro, n + 1), Pow(n));
    NumBound(r, ro, n);
    TopLimb(r, ro, n);
    if r[ro + n] >= 2 { MulMonotone(2, r[ro + n], Pow(n)); }
  }

  lemma ReciprocalRange(A: int, X: int, N: int)
    requires 0 < A < N <= 2 * A && 0 <= X
    requires A * X < N * N < A * (X + 2)
    ensures N <= X < 2 * N
  {
    if X >= 2 * N { MulMonotone(2 * N, X, A); MulMonotone(N, 2 * A, N); }
    if X <= N - 1 {
      MulMonotone(X + 2, N + 1, A);
      MulMonotone(A, N - 1, N + 1);
    }
  }

  /** B^(2n) divided exactly: the quotient goes to `tabr`, and the result says
      whether there is a remainder. */
  method RecipExact(tabr: array<Limb>, ro: nat, taba: array<Limb>, ao: nat, n: nat)
    returns (nz: bool, ghost R: nat)
    requires 1 <= n <= 2 && ro + n < tabr.Length && tabr != taba
    requires Normalised(taba[..], ao, n)
    modifies tabr
    ensures Pow(n) * Pow(n) == Num(tabr[..], ro, n + 1) * Num(taba[..], ao, n) + R
    ensures R < Num(taba[..], ao, n) && (nz <==> R != 0) && 1 <= Num(tabr[..], ro, n + 1)
    ensures forall j :: 0 <= j < tabr.Length && !(ro <= j <= ro + n) ==> tabr[j] == old(tabr[j])
    decreases 1, n, 0
  {
    var tabu, tabt := new Limb[2 * n + 1](_ => 0), new Limb[n + 2](_ => 0);
    tabu[2 * n] := 1;
    NumZero(tabu[..], 0, 2 * n);
    NormalisedBounds(taba[..], ao, n);
    PowAdd(n, n);
    MpDivnorm(tabt, 0, tabu, 0, 2 * n + 1, taba, ao, n);
    R := Num(tabu[..], 0, n);
    QuotientShort(tabt[..], n, Num(taba[..], ao, n), R);
    CopyLimbs(tabr, ro, tabt, 0, n + 1);
    nz := MpScanNz(tabu, 0, n);
  }

  /** The base case: ceil(B^(2n) / a) - 1. */
  method RecipBase(tabr: array<Limb>, ro: nat, taba: array<Limb>, ao: nat, n: nat)
    requires 1 <= n <= 2 && ro + n < tabr.Length && tabr != taba
    requires Normalised(taba[..], ao, n)
    modifies tabr
    ensures IsReciprocal(tabr[..], ro, taba[..], ao, n) && IsClosest(tabr[..], ro, taba[..], ao, n)
    ensures forall j :: 0 <= j < tabr.Length && !(ro <= j <= ro + n) ==> tabr[j] == old(tabr[j])
    decreases 1, n, 1
  {
    var nz, R := RecipExact(tabr, ro, taba, ao, n);
    ghost var A, Q := Num(taba[..], ao, n), Num(tabr[..], ro, n + 1);
    if !nz {
      // only happens for a = B^n / 2
      var k := MpSubUi(tabr, ro, 1, n + 1);
      NoBorrow(tabr[..], ro, n + 1, Q - 1, k);
    }
    ExactToApproximate(A, Q, R, Pow(n) * Pow(n));
    NormalisedBounds(taba[..], ao, n);
    ReciprocalTop(tabr[..], ro, n, A);
  }

  /** A subtraction whose exact result is not negative leaves no borrow. */
  lemma NoBorrow(s: seq<Limb>, off: nat, n: nat, x: int, k: Limb)
    requires off + n <= |s| && k <= 1
    requires Num(s, off, n) == x + k * Pow(n) && 0 <= x
    ensures k == 0 && Num(s, off, n) == x
  {
    NumBound(s, off, n);
    if k != 1 { NoCarry(k, Pow(n)); }
  }

  lemma ExactToApproximate(A: int, Q: int, R: int, S: int)
    requires S == Q * A + R && 0 <= R < A
    ensures var X := if R == 0 then Q - 1 else Q; A * X < S <= A * (X + 1) && S < A * (X + 2)
  {
    assert A * (Q - 1) == Q * A - A && A * Q == Q * A;
    assert A * (Q + 1) == Q * A + A && A * (Q + 2) == Q * A + 2 * A;
  }

  /** The quotient of B^(2n) by a normalised number fits n + 1 limbs. */
  lemma QuotientShort(t: seq<Limb>, n: nat, A: nat, R: nat)
    requires |t| == n + 2 && 1 <= n && A < Pow(n) <= 2 * A && R < A
    requires Pow(n) * Pow(n) == Num(t, 0, n + 2) * A + R
    ensures t[n + 1] == 0 && Num(t, 0, n + 2) == Num(t, 0, n + 1) && 1 <= Num(t, 0, n + 1)
  {
    TopLimb(t, 0, n + 1);
    if t[n + 1] >= 1 { MulMonotone(1, t[n + 1], Pow(n + 1)); }
    ShortArithmetic(Num(t, 0, n + 2), Pow(n), A, R);
    NoCarry(t[n + 1], Pow(n + 1));
  }

  lemma ShortArithmetic(Q: nat, N: nat, A: nat, R: nat)
    requires N * N == Q * A + R && R < A < N <= 2 * A
    ensures 1 <= Q < 4 * N
  {
    if Q >= 4 * N {
      MulMonotone(4 * N, Q, A);
      MulMonotone(N, 2 * A, N);
      MulStrict(0, N, N);
    }
    if Q == 0 {
      NoCarry(Q, A);
      MulMonotone(1, N, N);
    }
  }

  lemma BorrowAcross(lo': int, lo: int, hi': int, hi: int, A: int, c: int, k: int, p: int, q: int)
    requires lo' + A == lo + c * p && hi' + c == hi + k * q
    ensures lo' + hi' * p == (lo + hi * p - A) + k * (p * q)
  {
    assert (hi' + c) * p == (hi + k * q) * p;
    assert (k * q) * p == k * (p * q);
  }

  lemma SubtractAcross(t0: seq<Limb>, t1: seq<Limb>, t2: seq<Limb>, n: nat, m: nat, A: nat, c: Limb, k: Limb)
    requires |t0| == |t1| == |t2| && n + m <= |t0| && m > 0 && k <= 1
    requires Num(t1, 0, n) + A == Num(t0, 0, n) + c * Pow(n)
    requires Num(t2, n, m) + c == Num(t1, n, m) + k * Pow(m)
    requires forall j :: n <= j < n + m ==> t1[j] == t0[j]
    requires forall j :: 0 <= j < n ==> t2[j] == t1[j]
    requires A <= Num(t0, 0, n + m)
    ensures Num(t2, 0, n + m) == Num(t0, 0, n + m) - A
  {
    NumSplit(t0, 0, n, m);
    NumSplit(t2, 0, n, m);
    NumSame(t0, t1, n, m);
    NumSame(t1, t2, 0, n);
    PowAdd(n, m);
    BorrowAcross(Num(t1, 0, n), Num(t0, 0, n), Num(t2, n, m), Num(t0, n, m), A, c, k, Pow(n), Pow(m));
    NoBorrow(t2, 0, n + m, Num(t0, 0, n + m) - A, k);
  }

  /** The product, lowered by the full-size number. */
  method SubtractDivisor(tabt: array<Limb>, taba: array<Limb>, ao: nat, n: nat, h: nat)
    requires tabt.Length == n + h + 1 && ao + n <= taba.Length && tabt != taba
    requires Num(taba[..], ao, n) <= Num(tabt[..], 0, n + h + 1)
    modifies tabt
    ensures Num(tabt[..], 0, n + h + 1) == old(Num(tabt[..], 0, n + h + 1)) - Num(taba[..], ao, n)
  {
    ghost var t0: seq<Limb> := tabt[..];
    var c := MpSub(tabt, 0, tabt, 0, taba, ao, n, 0);
    ghost var t1: seq<Limb> := tabt[..];
    var k := MpSubUi(tabt, n, c, h + 1);
    SubtractAcross(t0, t1, tabt[..], n, h + 1, Num(taba[..], ao, n), c, k);
  }

  /** The decrement loop of mp_recip: lowers the half-size reciprocal until its
      product with the full-size number is below B^(n+h). */
  method RecipAdjust(tabr: array<Limb>, xo: nat, tabt: array<Limb>, taba: array<Limb>, ao: nat, n: nat, h: nat)
    requires xo + h < tabr.Length && tabt.Length == n + h + 1 && ao + n <= taba.Length
    requires tabr != tabt && tabr != taba && tabt != taba && 1 <= h
    requires 0 < Num(taba[..], ao, n)
    requires Num(tabt[..], 0, n + h + 1) == Num(taba[..], ao, n) * Num(tabr[..], xo, h + 1)
    requires Pow(n + h) < Num(taba[..], ao, n) * (Num(tabr[..], xo, h + 1) + 2)
    requires Pow(h) <= Num(tabr[..], xo, h + 1)
    modifies tabr, tabt
    ensures Num(tabt[..], 0, n + h + 1) == Num(taba[..], ao, n) * Num(tabr[..], xo, h + 1)
    ensures Num(tabt[..], 0, n + h + 1) < Pow(n + h)
    ensures Pow(n + h) < Num(taba[..], ao, n) * (Num(tabr[..], xo, h + 1) + 2)
    ensures Pow(h) <= Num(tabr[..], xo, h + 1) <= old(Num(tabr[..], xo, h + 1))
    ensures forall j :: 0 <= j < tabr.Length && !(xo <= j <= xo + h) ==> tabr[j] == old(tabr[j])
  {
    ghost var A: nat, X: nat := Num(taba[..], ao, n), Num(tabr[..], xo, h + 1);
    while tabt[n + h] != 0
      invariant Num(tabr[..], xo, h + 1) == X <= old(Num(tabr[..], xo, h + 1))
      invariant Num(tabt[..], 0, n + h + 1) == A * X
      invariant Pow(n + h) < A * (X + 2) && Pow(h) <= X
      invariant forall j :: 0 <= j < tabr.Length && !(xo <= j <= xo + h) ==> tabr[j] == old(tabr[j])
      decreases X
    {
      ProductAbove(tabt[..], n, h, A, X, taba[..], ao);
      var b := MpSubUi(tabr, xo, 1, h + 1);
      NoBorrow(tabr[..], xo, h + 1, X - 1, b);
      SubtractDivisor(tabt, taba, ao, n, h);
      X := X - 1;
    }
    TopLimb(tabt[..], 0, n + h);
    NumBound(tabt[..], 0, n + h);
    NoCarry(tabt[n + h], Pow(n + h));
  }

  /** While the product reaches B^(n+h) the reciprocal is above B^h. */
  lemma ProductAbove(t: seq<Limb>, n: nat, h: nat, A: nat, X: nat, a: seq<Limb>, ao: nat)
    requires |t| == n + h + 1 && t[n + h] != 0 && 0 < A && ao + n <= |a| && A == Num(a, ao, n)
    requires Num(t, 0, n + h + 1) == A * X
    ensures Pow(n + h) <= A * X && Pow(h) < X && A <= A * X
    ensures A * (X - 1) == A * X - A && Pow(n + h) < A * ((X - 1) + 2)
  {
    TopLimb(t, 0, n + h);
    MulMonotone(1, t[n + h], Pow(n + h));
    NumBound(a, ao, n);
    PowAdd(n, h);
    if X <= Pow(h) {
      MulMonotone(X, Pow(h), A);
      MulStrict(A, Pow(n), Pow(h));
    }
    MulMonotone(1, X, A);
    assert A * (X + 1) == A * X + A;
  }

  /** tabt = B^(n+h) - tabt, by negating and incrementing the top limb. */
  method RecipResidual(tabt: array<Limb>, m: nat)
    requires tabt.Length == m + 1 && 0 < Num(tabt[..], 0, m + 1) < Pow(m)
    modifies tabt
    ensures Num(tabt[..], 0, m + 1) == Pow(m) - old(Num(tabt[..], 0, m + 1))
  {
    ghost var T := Num(tabt[..], 0, m + 1);
    var k := MpNeg(tabt, 0, tabt, 0, m + 1, 0);
    ghost var t: seq<Limb> := tabt[..];
    NegatedTop(t, m, T, k);
    tabt[m] := Wrap(tabt[m] as int + 1);
    NumSame(t, tabt[..], 0, m);
    TopLimb(tabt[..], 0, m);
    NoCarry(tabt[m], Pow(m));
  }

  lemma NegatedTop(t: seq<Limb>, m: nat, T: nat, k: Limb)
    requires |t| == m + 1 && 0 < T < Pow(m) && k <= 1
    requires Num(t, 0, m + 1) + T == k * Pow(m + 1)
    ensures t[m] == 0xFFFF_FFFF_FFFF_FFFF && Num(t, 0, m) == Pow(m) - T
  {
    if k != 1 { NoCarry(k, Pow(m + 1)); }
    assert Pow(m + 1) == 0x1_0000_0000_0000_0000 * Pow(m);
    NumBound(t, 0, m);
    TopLimb(t, 0, m);
    QuotientUnique(t[m], Num(t, 0, m), 0xFFFF_FFFF_FFFF_FFFF, Pow(m) - T, Pow(m));
  }

  lemma UpperPart(X: nat, V: nat, P: nat, H: nat, lo: nat)
    requires X * P + (lo + V * P) < 2 * (P * H) && H <= X && 0 < P
    ensures X + V < 2 * H && V < H
  {
    if X + V >= 2 * H { MulMonotone(2 * H, X + V, P); }
  }

  lemma AddUpper(X: nat, xl: nat, top: nat, V: nat, vh: nat, z: nat, y: nat, c: nat, H: nat)
    requires X == xl + top * H && xl < H && V == vh + z * H && y + c * H == xl + vh
    requires X + V < 2 * H && V < H && H <= X && c <= 1
    ensures y + top * H == X + V
  {
    if top == 0 { NoCarry(top, H); }
    if top >= 2 { MulMonotone(2, top, H); }
    if z >= 1 { MulMonotone(1, z, H); } else { NoCarry(z, H); }
    if c == 0 { NoCarry(c, H); }
  }

  lemma Distribute(lo: int, hi: int, x: int, v: int, p: int)
    requires hi == x + v
    ensures lo + hi * p == x * p + (lo + v * p)
  {
  }

  /** Adding the top of the correction to the half-size reciprocal cannot carry
      into the top limb. */
  lemma CombineParts(r1: seq<Limb>, r2: seq<Limb>, ro: nat, u: seq<Limb>, l: nat, h: nat, X: nat, c: Limb)
    requires 1 <= h && ro + l + h < |r1| == |r2| && |u| == 3 * h + 2 && c <= 1 && l < h
    requires Num(r1, ro + l, h + 1) == X && Pow(h) <= X
    requires Num(r1, ro, l) == Num(u, 2 * h - l, l)
    requires Num(r2, ro + l, h) + c * Pow(h) == Num(r1, ro + l, h) + Num(u, 2 * h, h)
    requires r2[ro + l + h] == r1[ro + l + h]
    requires forall j :: ro <= j < ro + l ==> r2[j] == r1[j]
    requires X * Pow(l) + Num(u, 2 * h - l, l + h + 2) < 2 * Pow(l + h)
    ensures Num(r2, ro, l + h + 1) == X * Pow(l) + Num(u, 2 * h - l, l + h + 2)
  {
    PowAdd(l, h);
    var V := Num(u, 2 * h, h + 2);
    NumSplit(u, 2 * h - l, l, h + 2);
    UpperPart(X, V, Pow(l), Pow(h), Num(u, 2 * h - l, l));
    NumSplit(u, 2 * h, h, 2);
    TopLimb(r1, ro + l, h);
    NumBound(r1, ro + l, h);
    AddUpper(X, Num(r1, ro + l, h), r1[ro + l + h], V, Num(u, 2 * h, h), Num(u, 3 * h, 2),
             Num(r2, ro + l, h), c, Pow(h));
    TopLimb(r2, ro + l, h);
    NumSplit(r2, ro, l, h + 1);
    NumSame(r1, r2, ro, l);
    Distribute(Num(u, 2 * h - l, l), Num(r2, ro + l, h + 1), X, V, Pow(l));
  }

  /** The last phase of mp_recip: the correction from `tabu` is put below and
      added to the half-size reciprocal. */
  method RecipCombine(tabr: array<Limb>, ro: nat, tabu: array<Limb>, l: nat, h: nat)
    requires 1 <= l < h && ro + l + h < tabr.Length && tabu.Length == 3 * h + 2 && tabr != tabu
    requires Pow(h) <= Num(tabr[..], ro + l, h + 1)
    requires Num(tabr[..], ro + l, h + 1) * Pow(l) + Num(tabu[..], 2 * h - l, l + h + 2) < 2 * Pow(l + h)
    modifies tabr
    ensures Num(tabr[..], ro, l + h + 1)
         == old(Num(tabr[..], ro + l, h + 1)) * Pow(l) + Num(tabu[..], 2 * h - l, l + h + 2)
    ensures forall j :: 0 <= j < tabr.Length && !(ro <= j <= ro + l + h) ==> tabr[j] == old(tabr[j])
  {
    ghost var r0: seq<Limb> := tabr[..];
    var k := 2 * h - l;
    CopyLimbs(tabr, ro, tabu, k, l);
    ghost var r1: seq<Limb> := tabr[..];
    NumSame(r0, r1, ro + l, h + 1);
    var c := MpAdd(tabr, ro + l, tabr, ro + l, tabu, 2 * h, h, 0);
    CombineParts(r1, tabr[..], ro, tabu[..], l, h, Num(r0, ro + l, h + 1), c);
  }

  lemma HalfSizeArithmetic(A: nat, Ah: nat, Al: nat, P: nat, H: nat, X: nat)
    requires A == Al + Ah * P && H * H < Ah * (X + 2) && 0 < P
    ensures (P * H) * H < A * (X + 2)
  {
    MulStrict(H * H, Ah * (X + 2), P);
    MulMonotone(Ah * P, A, X + 2);
    assert (Ah * (X + 2)) * P == (Ah * P) * (X + 2);
    assert (H * H) * P == (P * H) * H;
  }

  /** The half-size reciprocal is good enough to start the decrement loop. */
  lemma HalfSize(a: seq<Limb>, ao: nat, l: nat, h: nat, X: nat)
    requires ao + l + h <= |a|
    requires Pow(h) * Pow(h) < Num(a, ao + l, h) * (X + 2)
    ensures Pow(l + h + h) < Num(a, ao, l + h) * (X + 2)
  {
    NumSplit(a, ao, l, h);
    PowAdd(l, h);
    PowAdd(l + h, h);
    HalfSizeArithmetic(Num(a, ao, l + h), Num(a, ao + l, h), Num(a, ao, l), Pow(l), Pow(h), X);
  }

  lemma RecipPowers(l: nat, h: nat)
    requires 1 <= l < h
    ensures Pow(l + h) == Pow(l) * Pow(h) && Pow(h + h) == Pow(h) * Pow(h)
    ensures Pow(l + h + h) == Pow(l) * Pow(h + h) && Pow(2 * h - l) * Pow(l) == Pow(h + h)
    ensures 6 * Pow(l) <= Pow(h)
  {
    PowAdd(l, h);
    PowAdd(l, h + h);
    PowAdd(h, h);
    PowAdd(2 * h - l, l);
    PowMonotone(l, h);
  }

  /** The product of one Newton step, read off the limbs. */
  lemma NewtonLimbs(a: seq<Limb>, ao: nat, l: nat, h: nat, X: nat, t: seq<Limb>, u: seq<Limb>)
    requires 1 <= l < h && ao + l + h <= |a| && Normalised(a, ao, l + h)
    requires |t| == l + 2 * h + 1 && |u| == 3 * h + 2
    requires Num(t, 0, l + 2 * h + 1) == Pow(l + h + h) - Num(a, ao, l + h) * X
    requires 0 < Num(t, 0, l + 2 * h + 1) < 2 * Num(a, ao, l + h)
    requires Num(u, 0, 3 * h + 2) == Num(t, l, 2 * h + 1) * X
    ensures var r := X * Pow(l) + Num(u, 2 * h - l, l + h + 2);
      && Num(a, ao, l + h) * r < Pow(l + h) * Pow(l + h) < Num(a, ao, l + h) * (r + 2)
      && r < 2 * Pow(l + h)
  {
    var k := 2 * h - l;
    var A, V := Num(a, ao, l + h), Num(u, k, l + h + 2);
    NormalisedBounds(a, ao, l + h);
    NewtonPieces(t, u, l, h);
    RecipPowers(l, h);
    MulMonotone(0, A, X);
    NewtonStep(A, X, Num(t, 0, l + 2 * h + 1), Num(t, l, 2 * h + 1), Num(t, 0, l),
               V, Num(u, 0, k), Pow(l), Pow(h), Pow(k), Pow(l + h), Pow(h + h), Pow(l + h + h));
    MulMonotone(0, X, Pow(l));
    ReciprocalRange(A, X * Pow(l) + V, Pow(l + h));
  }

  lemma NewtonPieces(t: seq<Limb>, u: seq<Limb>, l: nat, h: nat)
    requires 1 <= l < h && |t| == l + 2 * h + 1 && |u| == 3 * h + 2
    ensures Num(t, 0, l + 2 * h + 1) == Num(t, l, 2 * h + 1) * Pow(l) + Num(t, 0, l)
    ensures Num(t, 0, l) < Pow(l) && Num(u, 0, 2 * h - l) < Pow(2 * h - l)
    ensures Num(u, 0, 3 * h + 2) == Num(u, 2 * h - l, l + h + 2) * Pow(2 * h - l) + Num(u, 0, 2 * h - l)
  {
    NumSplit(t, 0, l, 2 * h + 1);
    NumBound(t, 0, l);
    NumSplit(u, 0, 2 * h - l, l + h + 2);
    NumBound(u, 0, 2 * h - l);
  }

  // ---------------------------------------------------------------------
  // The sub-quadratic division
  // ---------------------------------------------------------------------

  /** The truncated product never overestimates the quotient and is at most
      three below it. D is the divisor of `inv` after the shift or truncation,
      X the weight of its limbs. */
  lemma QuotientLower(Ah: nat, inv: nat, q: nat, D: nat, b: nat, S: nat, Bn: nat, Bnb: nat, W: nat, A: nat)
    requires q * S <= Ah * inv && D * inv <= Bn * Bn && b * Bn <= D * Bnb
    requires (S * Bn) * W == Bn * Bn * Bnb && Ah * W <= A && 0 < S * Bn
    ensures q * b <= A
  {
    MulMonotone(q * S, Ah * inv, D);
    MulMonotone(D * inv, Bn * Bn, Ah);
    MulMonotone((q * S) * D, Ah * (Bn * Bn), Bnb);
    MulMonotone(b * Bn, D * Bnb, q * S);
    var Y := S * Bn;
    assert (Ah * inv) * D == Ah * (D * inv);
    assert ((q * S) * D) * Bnb == (q * S) * (D * Bnb);
    assert (q * S) * (b * Bn) == (q * b) * Y;
    assert Ah * (Bn * Bn) * Bnb == (Ah * W) * Y;
    if q * b > Ah * W { MulStrict(Ah * W, q * b, Y); }
  }

  lemma ScaledInverse(Ah: nat, inv: nat, D: nat, BB: nat)
    requires BB < D * (inv + 2)
    ensures Ah * BB <= D * (Ah * inv) + 2 * (Ah * D)
  {
    MulMonotone(BB, D * (inv + 2), Ah);
  }

  lemma ScaledQuotient(x: nat, q: nat, S: nat, D: nat)
    requires x < (q + 1) * S
    ensures D * x + 2 * (S * D) <= D * (S * (q + 3))
  {
    MulMonotone(x, (q + 1) * S, D);
    assert (q + 1) * S * D + 2 * (S * D) == D * (S * (q + 3));
  }

  lemma ProductOfTop(Ah: nat, inv: nat, q: nat, D: nat, S: nat, BB: nat)
    requires Ah * inv < (q + 1) * S && BB < D * (inv + 2) && Ah <= S
    ensures Ah * BB <= D * (S * (q + 3))
  {
    ScaledInverse(Ah, inv, D, BB);
    MulMonotone(Ah, S, D);
    ScaledQuotient(Ah * inv, q, S, D);
  }

  lemma SplitDivisor(D: nat, Bnb: nat, b: nat, Bn: nat, tr: nat, S: nat, q: nat)
    requires D * Bnb == b * Bn + tr
    ensures (D * (S * (q + 3))) * Bnb == (q + 3) * (b * (S * Bn)) + tr * (S * (q + 3))
  {
    var s := S * (q + 3);
    assert (D * s) * Bnb == (D * Bnb) * s;
    assert (b * Bn) * s == (q + 3) * (b * (S * Bn));
    assert (b * Bn + tr) * s == (b * Bn) * s + tr * s;
  }

  lemma ScaledDividend(A: nat, Ah: nat, Al: nat, W: nat, Y: nat, Z: nat, BB: nat, Bnb: nat)
    requires A == Ah * W + Al && Al < W && Y * W == Z == BB * Bnb && 0 < Y
    ensures A * Y < (Ah * BB) * Bnb + Z
  {
    MulStrict(Al, W, Y);
    assert (Ah * W + Al) * Y == Ah * (Y * W) + Al * Y;
    assert Ah * (BB * Bnb) == (Ah * BB) * Bnb;
  }

  /** `tr` is what truncating and incrementing the divisor added to it. */
  lemma QuotientUpper(Ah: nat, Al: nat, inv: nat, q: nat, D: nat, b: nat, tr: nat, S: nat, Bn: nat,
                      Bnb: nat, W: nat, A: nat)
    requires A == Ah * W + Al && Al < W
    requires Ah * inv < (q + 1) * S && Bn * Bn < D * (inv + 2) && Ah <= S
    requires D * Bnb == b * Bn + tr && (S * Bn) * W == Bn * Bn * Bnb && 0 < S * Bn
    requires tr * (S * (q + 3)) + Bn * Bn * Bnb <= (S * Bn) * b
    ensures A < (q + 4) * b
  {
    var Y := S * Bn;
    ProductOfTop(Ah, inv, q, D, S, Bn * Bn);
    MulMonotone(Ah * (Bn * Bn), D * (S * (q + 3)), Bnb);
    SplitDivisor(D, Bnb, b, Bn, tr, S, q);
    ScaledDividend(A, Ah, Al, W, Y, Bn * Bn * Bnb, Bn * Bn, Bnb);
    BelowMultiple(A, Y, q, b);
  }

  lemma BelowMultiple(A: nat, Y: nat, q: nat, b: nat)
    requires A * Y < (q + 3) * (b * Y) + Y * b
    ensures A < (q + 4) * b
  {
    assert (q + 3) * (b * Y) + Y * b == ((q + 4) * b) * Y;
    if A >= (q + 4) * b { MulMonotone((q + 4) * b, A, Y); }
  }

  /** Without truncation the last condition of QuotientUpper holds ... */
  lemma ExactDivisor(b: nat, S: nat, Bn: nat, Bnb: nat)
    requires Bnb <= 2 * b && 0x1_0000_0000_0000_0000 * Bn <= S
    ensures Bn * Bn * Bnb <= (S * Bn) * b
  {
    MulMonotone(2 * Bn, S, Bn);
    MulMonotone((2 * Bn) * Bn, S * Bn, b);
    MulMonotone(Bnb, 2 * b, Bn * Bn);
    assert (2 * Bn) * Bn * b == (2 * b) * (Bn * Bn);
  }

  lemma QuotientBound(q: nat, b: nat, A: nat, Bq: nat, Bnb: nat)
    requires q * b <= A < Bq * Bnb && Bnb <= 2 * b
    ensures q < 2 * Bq
  {
    if q >= 2 * Bq {
      MulMonotone(2 * Bq, q, b);
      MulMonotone(Bnb, 2 * b, Bq);
    }
  }

  lemma TruncationCost(q: nat, tr: nat, S: nat, Bq: nat, Bnb: nat)
    requires tr <= Bnb && q + 3 <= 5 * Bq
    ensures tr * (S * (q + 3)) <= 5 * (Bq * Bnb * S)
  {
    MulMonotone(q + 3, 5 * Bq, S);
    MulMonotone(tr, Bnb, S * (q + 3));
    MulMonotone(S * (q + 3), 5 * (Bq * S), Bnb);
    assert (5 * (Bq * S)) * Bnb == 5 * (Bq * Bnb * S);
  }

  lemma ProductCost(S: nat, Bn: nat, Bq: nat, Bnb: nat)
    requires Bn == 0x1_0000_0000_0000_0000 * Bq && 0x1_0000_0000_0000_0000 * Bn <= S
    ensures Bn * Bn * Bnb <= Bq * Bnb * S
  {
    var g := Bq * Bnb;
    MulMonotone(0x1_0000_0000_0000_0000 * Bn, S, g);
    assert Bn * Bn * Bnb == (0x1_0000_0000_0000_0000 * Bn) * g;
  }

  lemma DivisorGain(S: nat, Bn: nat, Bq: nat, Bnb: nat, b: nat)
    requires Bn == 0x1_0000_0000_0000_0000 * Bq && Bnb <= 2 * b
    ensures 0x1_0000_0000_0000_0000 * (Bq * Bnb * S) <= 2 * ((S * Bn) * b)
  {
    MulMonotone(Bnb, 2 * b, S * Bn);
    assert Bnb * (S * Bn) == 0x1_0000_0000_0000_0000 * (Bq * Bnb * S);
    assert (2 * b) * (S * Bn) == 2 * ((S * Bn) * b);
  }

  /** ... and with truncation too, since then S has two more limbs than needed. */
  lemma TruncatedDivisor(q: nat, b: nat, tr: nat, S: nat, Bn: nat, Bq: nat, Bnb: nat)
    requires tr <= Bnb <= 2 * b && q < 2 * Bq && 1 <= Bq
    requires Bn == 0x1_0000_0000_0000_0000 * Bq && 0x1_0000_0000_0000_0000 * Bn <= S
    ensures tr * (S * (q + 3)) + Bn * Bn * Bnb <= (S * Bn) * b
  {
    TruncationCost(q, tr, S, Bq, Bnb);
    ProductCost(S, Bn, Bq, Bnb);
    DivisorGain(S, Bn, Bq, Bnb, b);
    var g := Bq * Bnb * S;
    assert 0 <= g;
  }

  // ---------------------------------------------------------------------
  // mp_recip, mp_divnorm and mp_divnorm_large
  // ---------------------------------------------------------------------

  /** The first part of Newton's step: lowers the half-size reciprocal until the
      residual B^(n+h) - a * x is positive, and returns the residual. */
  method RecipHalf(tabr: array<Limb>, xo: nat, taba: array<Limb>, ao: nat, l: nat, h: nat)
    returns (tabt: array<Limb>)
    requires 1 <= l < h && xo + h < tabr.Length && tabr != taba
    requires Normalised(taba[..], ao, l + h)
    requires IsReciprocal(tabr[..], xo, taba[..], ao + l, h)
    modifies tabr
    ensures fresh(tabt) && tabt.Length == l + 2 * h + 1
    ensures Num(tabt[..], 0, l + 2 * h + 1)
         == Pow(l + h + h) - Num(taba[..], ao, l + h) * Num(tabr[..], xo, h + 1)
    ensures 0 < Num(tabt[..], 0, l + 2 * h + 1) < 2 * Num(taba[..], ao, l + h)
    ensures Pow(h) <= Num(tabr[..], xo, h + 1)
    ensures forall j :: 0 <= j < tabr.Length && !(xo <= j <= xo + h) ==> tabr[j] == old(tabr[j])
  {
    var n := l + h;
    tabt := new Limb[n + h + 1](_ => 0);
    NormalisedBounds(taba[..], ao, n);
    HalfSize(taba[..], ao, l, h, Num(tabr[..], xo, h + 1));
    HalfReciprocalRange(tabr[..], xo, taba[..], ao + l, h);
    MpMulBasecase(tabt, 0, taba, ao, n, tabr, xo, h + 1);
    RecipLower(tabr, xo, tabt, taba, ao, n, h);
  }

  method RecipLower(tabr: array<Limb>, xo: nat, tabt: array<Limb>, taba: array<Limb>, ao: nat, n: nat, h: nat)
    requires xo + h < tabr.Length && tabt.Length == n + h + 1 && ao + n <= taba.Length
    requires tabr != tabt && tabr != taba && tabt != taba && 1 <= h
    requires 0 < Num(taba[..], ao, n)
    requires Num(tabt[..], 0, n + h + 1) == Num(taba[..], ao, n) * Num(tabr[..], xo, h + 1)
    requires Pow(n + h) < Num(taba[..], ao, n) * (Num(tabr[..], xo, h + 1) + 2)
    requires Pow(h) <= Num(tabr[..], xo, h + 1)
    modifies tabr, tabt
    ensures Num(tabt[..], 0, n + h + 1) == Pow(n + h) - Num(taba[..], ao, n) * Num(tabr[..], xo, h + 1)
    ensures 0 < Num(tabt[..], 0, n + h + 1) < 2 * Num(taba[..], ao, n)
    ensures Pow(h) <= Num(tabr[..], xo, h + 1)
    ensures forall j :: 0 <= j < tabr.Length && !(xo <= j <= xo + h) ==> tabr[j] == old(tabr[j])
  {
    RecipAdjust(tabr, xo, tabt, taba, ao, n, h);
    ResidualRange(Num(taba[..], ao, n), Num(tabr[..], xo, h + 1), Pow(n + h));
    RecipResidual(tabt, n + h);
  }

  lemma ResidualRange(A: nat, X: nat, M: nat)
    requires 0 < A && 0 < X && A * X < M < A * (X + 2)
    ensures 0 < A * X && M - A * X < 2 * A
  {
    MulStrict(0, X, A);
  }

  /** Newton's step of mp_recip, given the half-size reciprocal in `tabr`. */
  method RecipStep(tabr: array<Limb>, ro: nat, taba: array<Limb>, ao: nat, l: nat, h: nat)
    requires 1 <= l < h && ro + l + h < tabr.Length && tabr != taba
    requires Normalised(taba[..], ao, l + h)
    requires IsReciprocal(tabr[..], ro + l, taba[..], ao + l, h)
    modifies tabr
    ensures IsReciprocal(tabr[..], ro, taba[..], ao, l + h)
    ensures forall j :: 0 <= j < tabr.Length && !(ro <= j <= ro + l + h) ==> tabr[j] == old(tabr[j])
  {
    var tabt := RecipHalf(tabr, ro + l, taba, ao, l, h);
    var tabu := new Limb[3 * h + 2](_ => 0);
    ghost var X := Num(tabr[..], ro + l, h + 1);
    MpMulBasecase(tabu, 0, tabt, l, 2 * h + 1, tabr, ro + l, h + 1);
    NewtonLimbs(taba[..], ao, l, h, X, tabt[..], tabu[..]);
    RecipCombine(tabr, ro, tabu, l, h);
    NormalisedBounds(taba[..], ao, l + h);
    ReciprocalTop(tabr[..], ro, l + h, Num(taba[..], ao, l + h));
  }

  lemma HalfReciprocalRange(r: seq<Limb>, ro: nat, a: seq<Limb>, ao: nat, h: nat)
    requires ro + h < |r| && Normalised(a, ao, h) && IsReciprocal(r, ro, a, ao, h)
    ensures Pow(h) <= Num(r, ro, h + 1)
  {
    NormalisedBounds(a, ao, h);
    ReciprocalRange(Num(a, ao, h), Num(r, ro, h + 1), Pow(h));
  }

  /** An approximate inverse of the `n` limbs of a normalised number. */
  method MpRecip(tabr: array<Limb>, ro: nat, taba: array<Limb>, ao: nat, n: nat)
    requires 1 <= n && ro + n < tabr.Length && tabr != taba
    requires Normalised(taba[..], ao, n)
    modifies tabr
    ensures IsReciprocal(tabr[..], ro, taba[..], ao, n)
    ensures n <= 2 ==> IsClosest(tabr[..], ro, taba[..], ao, n)
    ensures forall j :: 0 <= j < tabr.Length && !(ro <= j <= ro + n) ==> tabr[j] == old(tabr[j])
    decreases 1, n, 2
  {
    if n <= 2 {
      RecipBase(tabr, ro, taba, ao, n);
    } else {
      var l := (n - 1) / 2;
      var h := n - l;
      MpRecip(tabr, ro + l, taba, ao + l, h);
      RecipStep(tabr, ro, taba, ao, l, h);
    }
  }

  /** The divisor of mp_divnorm_large scaled to `n` limbs: shifted up, or
      truncated and incremented so that its inverse is too small rather than
      too large. `D` is its exact value, which may be B^n. */
  ghost predicate ScaledDivisor(D: nat, tr: nat, b: nat, n: nat, nb: nat) {
    && D * Pow(nb) == b * Pow(n) + tr && 0 < D
    && (if n >= nb then tr == 0 else tr <= Pow(nb))
  }

  /** `inv` is at most B^(2n) / D and less than two below it. */
  ghost predicate ApproximateInverse(D: nat, inv: nat, n: nat) {
    D * inv <= Pow(n) * Pow(n) < D * (inv + 2)
  }

  /** `q` is the product `p` divided by `S`, rounded down. */
  ghost predicate Truncated(p: nat, S: nat, q: nat) {
    q * S <= p < (q + 1) * S
  }

  /** `q` does not overestimate the quotient and is at most three below it. */
  ghost predicate NearQuotient(A: nat, q: nat, b: nat) {
    q * b <= A < (q + 4) * b
  }

  lemma ShiftedDivisor(t: seq<Limb>, n: nat, b: nat, nb: nat)
    requires nb <= n <= |t| && Num(t, 0, n - nb) == 0 && Num(t, n - nb, nb) == b && 0 < b
    ensures ScaledDivisor(Num(t, 0, n), 0, b, n, nb)
  {
    NumSplit(t, 0, n - nb, nb);
    PowAdd(n - nb, nb);
    ShiftArithmetic(b, Pow(n - nb), Pow(nb));
  }

  lemma ShiftArithmetic(b: nat, p: nat, q: nat)
    requires 0 < b && 0 < p
    ensures 0 < b * p && (b * p) * q == b * (p * q)
  {
    MulStrict(0, b, p);
  }

  lemma CutDivisor(s: seq<Limb>, bo: nat, n: nat, nb: nat, hi: nat)
    requires n < nb && bo + nb <= |s| && hi == Num(s, bo + nb - n, n)
    ensures Num(s, bo, nb) * Pow(n) <= (hi + 1) * Pow(nb)
    ensures ScaledDivisor(hi + 1, (hi + 1) * Pow(nb) - Num(s, bo, nb) * Pow(n), Num(s, bo, nb), n, nb)
  {
    var m := nb - n;
    NumSplit(s, bo, m, n);
    NumBound(s, bo, m);
    PowAdd(m, n);
    CutArithmetic(Num(s, bo, nb), Num(s, bo, m), hi, Pow(m), Pow(n), Pow(nb));
  }

  lemma CutArithmetic(b: nat, lo: nat, hi: nat, p: nat, q: nat, pq: nat)
    requires b == lo + hi * p && lo < p && pq == p * q
    ensures b * q <= (hi + 1) * pq <= b * q + pq
  {
    MulMonotone(hi * p, b, q);
    MulMonotone(b, (hi + 1) * p, q);
    assert ((hi + 1) * p) * q == (hi + 1) * pq && (hi * p) * q + pq == (hi + 1) * pq;
  }

  /** tab = 0 in a window. */
  method ClearLimbs(tab: array<Limb>, n: nat)
    requires n <= tab.Length
    modifies tab
    ensures Num(tab[..], 0, n) == 0
    ensures forall j :: n <= j < tab.Length ==> tab[j] == old(tab[j])
  {
    var i := 0;
    while i < n
      invariant 0 <= i <= n
      invariant forall j :: 0 <= j < i ==> tab[j] == 0
      invariant forall j :: n <= j < tab.Length ==> tab[j] == old(tab[j])
    {
      tab[i] := 0;
      i := i + 1;
    }
    NumZero(tab[..], 0, n);
  }

  /** A long enough quotient: the divisor is shifted up to `n` limbs. */
  method ShiftDivisor(tabt: array<Limb>, tabb: array<Limb>, bo: nat, nb: nat, n: nat)
    requires nb <= n <= tabt.Length && tabt != tabb && Normalised(tabb[..], bo, nb)
    modifies tabt
    ensures Normalised(tabt[..], 0, n)
    ensures ScaledDivisor(Num(tabt[..], 0, n), 0, Num(tabb[..], bo, nb), n, nb)
  {
    ClearLimbs(tabt, n - nb);
    ghost var t0: seq<Limb> := tabt[..];
    CopyLimbs(tabt, n - nb, tabb, bo, nb);
    NumSame(t0, tabt[..], 0, n - nb);
    NormalisedBounds(tabb[..], bo, nb);
    ShiftedDivisor(tabt[..], n, Num(tabb[..], bo, nb), nb);
  }

  /** A short quotient: the divisor is cut to `n` limbs and incremented. The
      result says whether that overflowed to B^n. */
  method TruncateDivisor(tabt: array<Limb>, tabb: array<Limb>, bo: nat, nb: nat, n: nat)
    returns (overflow: bool, ghost D: nat, ghost tr: nat)
    requires 1 <= n < nb && n <= tabt.Length && tabt != tabb && Normalised(tabb[..], bo, nb)
    modifies tabt
    ensures ScaledDivisor(D, tr, Num(tabb[..], bo, nb), n, nb)
    ensures overflow ==> D == Pow(n)
    ensures !overflow ==> D == Num(tabt[..], 0, n) && Normalised(tabt[..], 0, n)
  {
    CopyLimbs(tabt, 0, tabb, bo + nb - n, n);
    ghost var t0: seq<Limb> := tabt[..];
    ghost var hi := Num(t0, 0, n);
    CutDivisor(tabb[..], bo, n, nb, hi);
    D, tr := hi + 1, (hi + 1) * Pow(nb) - Num(tabb[..], bo, nb) * Pow(n);
    var c := MpAddUi(tabt, 0, 1, n);
    overflow := c != 0;
    NumBound(t0, 0, n);
    if overflow {
      assert c * Pow(n) == Pow(n);
    } else {
      NoCarry(c, Pow(n));
      IncrementedTop(t0, tabt[..], n);
    }
  }

  lemma PowerInverse(D: nat, r: seq<Limb>, n: nat)
    requires D == Pow(n) && n < |r| && Num(r, 0, n) == 0 && r[n] == 1
    ensures ApproximateInverse(D, Num(r, 0, n + 1), n)
  {
    TopLimb(r, 0, n);
    assert Num(r, 0, n + 1) == Pow(n);
    MulStrict(Pow(n), Pow(n) + 2, D);
  }

  /** The first half of mp_divnorm_large: an inverse of the scaled divisor. */
  method LargeInverse(tabbInv: array<Limb>, tabt: array<Limb>, tabb: array<Limb>, bo: nat, nb: nat, n: nat)
    returns (ghost D: nat, ghost tr: nat)
    requires 1 <= n && tabbInv.Length == n + 1 && tabt.Length >= n
    requires Normalised(tabb[..], bo, nb)
    requires tabbInv != tabt && tabbInv != tabb && tabt != tabb
    modifies tabbInv, tabt
    ensures ScaledDivisor(D, tr, Num(tabb[..], bo, nb), n, nb)
    ensures ApproximateInverse(D, Num(tabbInv[..], 0, n + 1), n)
    decreases 2, 0, 0
  {
    if n >= nb {
      ShiftDivisor(tabt, tabb, bo, nb, n);
      D, tr := Num(tabt[..], 0, n), 0;
    } else {
      var overflow;
      overflow, D, tr := TruncateDivisor(tabt, tabb, bo, nb, n);
      if overflow {
        // the inverse of B^n is B^n
        ClearLimbs(tabbInv, n);
        ghost var r0: seq<Limb> := tabbInv[..];
        tabbInv[n] := 1;
        NumSame(r0, tabbInv[..], 0, n);
        PowerInverse(D, tabbInv[..], n);
        return;
      }
    }
    MpRecip(tabbInv, 0, tabt, 0, n);
  }

  /** Incrementing without overflow keeps a number normalised. */
  lemma IncrementedTop(t0: seq<Limb>, t1: seq<Limb>, n: nat)
    requires Normalised(t0, 0, n) && n <= |t1| && Num(t1, 0, n) == Num(t0, 0, n) + 1
    ensures Normalised(t1, 0, n)
  {
    TopLimbDecides(t1, 0, t0, 0, n - 1);
  }

  /** The quotient estimate of mp_divnorm_large: the top limbs of the dividend
      times the inverse, truncated. */
  method LargeEstimate(tabq: array<Limb>, qo: nat, tabbInv: array<Limb>, taba: array<Limb>, aho: nat,
                       n: nat, nq: nat)
    requires 1 <= nq <= n && tabbInv.Length == n + 1 && aho + n < taba.Length && qo + nq < tabq.Length
    requires tabq != tabbInv && tabq != taba
    modifies tabq
    ensures Truncated(Num(tabbInv[..], 0, n + 1) * Num(taba[..], aho, n + 1), Pow(2 * n + 1 - nq),
                      Num(tabq[..], qo, nq + 1))
    ensures forall j :: 0 <= j < tabq.Length && !(qo <= j <= qo + nq) ==> tabq[j] == old(tabq[j])
  {
    var tabt := new Limb[2 * n + 2](_ => 0);
    MpMulBasecase(tabt, 0, tabbInv, 0, n + 1, taba, aho, n + 1);
    CopyLimbs(tabq, qo, tabt, 2 * n + 1 - nq, nq + 1);
    TopTruncates(tabt[..], 2 * n + 1 - nq, nq + 1);
  }

  lemma TopTruncates(t: seq<Limb>, m: nat, k: nat)
    requires m + k <= |t|
    ensures Truncated(Num(t, 0, m + k), Pow(m), Num(t, m, k))
  {
    NumSplit(t, 0, m, k);
    NumBound(t, 0, m);
    NextMultiple(Num(t, m, k), Pow(m));
  }

  /** A remainder below B^m is not changed by working modulo B^m. */
  lemma ModuloWindow(lo': nat, lo: nat, hi: nat, tlo: nat, thi: nat, k: nat, p: nat, R: nat)
    requires lo' + tlo == lo + k * p && lo' < p && 0 <= R < p
    requires (lo + hi * p) - (tlo + thi * p) == R
    ensures lo' == R
  {
    assert (k + thi - hi) * p == k * p + thi * p - hi * p;
    QuotientUnique(0, lo', k + thi - hi, R, p);
  }

  /** R = A - B * Q on the `nb + 1` low limbs. */
  method LargeResidual(tabq: array<Limb>, qo: nat, nq: nat, taba: array<Limb>, ao: nat, tabb: array<Limb>,
                       bo: nat, nb: nat)
    requires 1 <= nq && 1 <= nb && qo + nq < tabq.Length && ao + nq + nb <= taba.Length && bo + nb <= tabb.Length
    requires tabq != taba && taba != tabb
    requires NearQuotient(Num(taba[..], ao, nq + nb), Num(tabq[..], qo, nq + 1), Num(tabb[..], bo, nb))
    modifies taba
    ensures Leaves(old(Num(taba[..], ao, nq + nb)), Num(tabq[..], qo, nq + 1), Num(tabb[..], bo, nb),
                   Num(taba[..], ao, nb + 1), 4)
    ensures forall j :: 0 <= j < taba.Length && !(ao <= j <= ao + nb) ==> taba[j] == old(taba[j])
  {
    ghost var a0: seq<Limb> := taba[..];
    var na := nq + nb;
    var tabt := new Limb[na + 1](_ => 0);
    MpMulBasecase(tabt, 0, tabq, qo, nq + 1, tabb, bo, nb);
    var k := MpSub(taba, ao, taba, ao, tabt, 0, nb + 1, 0);
    ResidualWindow(a0, tabt[..], taba[..], ao, nq, nb, Num(tabq[..], qo, nq + 1), tabb[..], bo, k);
  }

  /** `A == q * b + R` with a remainder below `c * b`. */
  ghost predicate Leaves(A: nat, q: nat, b: nat, R: nat, c: nat) {
    A == q * b + R && R < c * b
  }

  lemma ResidualWindow(a0: seq<Limb>, t: seq<Limb>, a: seq<Limb>, ao: nat, nq: nat, nb: nat, q: nat,
                       s: seq<Limb>, bo: nat, k: Limb)
    requires 1 <= nq && 1 <= nb && ao + nq + nb <= |a0| == |a| && |t| == nq + nb + 1 && bo + nb <= |s|
    requires Num(t, 0, nq + nb + 1) == q * Num(s, bo, nb)
    requires NearQuotient(Num(a0, ao, nq + nb), q, Num(s, bo, nb))
    requires Num(a, ao, nb + 1) + Num(t, 0, nb + 1) == Num(a0, ao, nb + 1) + k * Pow(nb + 1)
    ensures Leaves(Num(a0, ao, nq + nb), q, Num(s, bo, nb), Num(a, ao, nb + 1), 4)
  {
    NumSplit(a0, ao, nb + 1, nq - 1);
    NumSplit(t, 0, nb + 1, nq);
    NumBound(a, ao, nb + 1);
    NumBound(s, bo, nb);
    FourMore(q, Num(s, bo, nb));
    ModuloWindow(Num(a, ao, nb + 1), Num(a0, ao, nb + 1), Num(a0, ao + nb + 1, nq - 1),
                 Num(t, 0, nb + 1), Num(t, nb + 1, nq), k, Pow(nb + 1),
                 Num(a0, ao, nq + nb) - Num(t, 0, nq + nb + 1));
  }

  lemma FourMore(q: nat, b: nat)
    ensures (q + 4) * b == q * b + 4 * b
  {
  }

  lemma BorrowIntoTop(before: seq<Limb>, mid: seq<Limb>, after: seq<Limb>, o: nat, nb: nat, b: nat, c: Limb)
    requires o + nb < |before| == |mid| == |after| && c <= 1
    requires Num(mid, o, nb) + b == Num(before, o, nb) + c * Pow(nb)
    requires mid[o + nb] == before[o + nb] && b <= Num(before, o, nb + 1)
    requires after == mid[o + nb := Wrap(mid[o + nb] as int - c)]
    ensures Num(after, o, nb + 1) == Num(before, o, nb + 1) - b
  {
    NumSame(mid, after, o, nb);
    NumBound(mid, o, nb);
    TopLimb(before, o, nb);
    TopLimb(after, o, nb);
    var v: int := before[o + nb];
    if c != 0 {
      assert c * Pow(nb) == Pow(nb);
      if v == 0 { NoCarry(v, Pow(nb)); }
      NextMultiple(v - 1, Pow(nb));
    } else {
      NoCarry(c, Pow(nb));
    }
  }

  /** One subtraction of the divisor in the final loop of mp_divnorm_large. */
  method SubtractOnce(tabq: array<Limb>, qo: nat, nq: nat, taba: array<Limb>, ao: nat, tabb: array<Limb>,
                      bo: nat, nb: nat, ghost A: nat, ghost c: nat)
    requires 1 <= nb && qo + nq < tabq.Length && ao + nb < taba.Length && Normalised(tabb[..], bo, nb)
    requires tabq != taba && taba != tabb && tabq != tabb && 1 <= c
    requires Leaves(A, Num(tabq[..], qo, nq + 1), Num(tabb[..], bo, nb), Num(taba[..], ao, nb + 1), c)
    requires Num(tabb[..], bo, nb) <= Num(taba[..], ao, nb + 1) && A < Pow(nq + nb)
    modifies tabq, taba
    ensures Leaves(A, Num(tabq[..], qo, nq + 1), Num(tabb[..], bo, nb), Num(taba[..], ao, nb + 1), c - 1)
    ensures forall j :: 0 <= j < tabq.Length && !(qo <= j <= qo + nq) ==> tabq[j] == old(tabq[j])
    ensures forall j :: 0 <= j < taba.Length && !(ao <= j <= ao + nb) ==> taba[j] == old(taba[j])
  {
    ghost var before: seq<Limb>, q, b := taba[..], Num(tabq[..], qo, nq + 1), Num(tabb[..], bo, nb);
    var k := MpSub(taba, ao, taba, ao, tabb, bo, nb, 0);
    ghost var mid: seq<Limb> := taba[..];
    taba[ao + nb] := Wrap(taba[ao + nb] as int - k);
    BorrowIntoTop(before, mid, taba[..], ao, nb, b, k);
    NumBound(tabq[..], qo, nq + 1);
    LeavesLess(A, q, b, Num(before, ao, nb + 1), c);
    QuotientFits(q + 1, b, A, nq, tabb[..], bo, nb);
    k := MpAddUi(tabq, qo, 1, nq + 1);
    NumBound(tabq[..], qo, nq + 1);
    NoBorrowUp(tabq[..], qo, nq + 1, q + 1, k);
  }

  lemma LeavesLess(A: nat, q: nat, b: nat, R: nat, c: nat)
    requires Leaves(A, q, b, R, c) && b <= R && 1 <= c
    ensures Leaves(A, q + 1, b, R - b, c - 1) && (q + 1) * b <= A
  {
    NextMultiple(q, b);
    NextMultiple(c - 1, b);
  }

  /** The quotient was not overestimated, so the final loop of mp_divnorm_large
      only has to add to it, at most three times. */
  method LargeFixup(tabq: array<Limb>, qo: nat, nq: nat, taba: array<Limb>, ao: nat, tabb: array<Limb>,
                    bo: nat, nb: nat, ghost A: nat)
    requires 1 <= nb && qo + nq < tabq.Length && ao + nb < taba.Length && Normalised(tabb[..], bo, nb)
    requires tabq != taba && taba != tabb && tabq != tabb
    requires Leaves(A, Num(tabq[..], qo, nq + 1), Num(tabb[..], bo, nb), Num(taba[..], ao, nb + 1), 4)
    requires A < Pow(nq + nb)
    modifies tabq, taba
    ensures A == Num(tabq[..], qo, nq + 1) * Num(tabb[..], bo, nb) + Num(taba[..], ao, nb)
    ensures Num(taba[..], ao, nb) < Num(tabb[..], bo, nb)
    ensures forall j :: 0 <= j < tabq.Length && !(qo <= j <= qo + nq) ==> tabq[j] == old(tabq[j])
    ensures forall j :: 0 <= j < taba.Length && !(ao <= j <= ao + nb) ==> taba[j] == old(taba[j])
  {
    ghost var additions := 0;
    while true
      invariant 0 <= additions <= 3
      invariant Leaves(A, Num(tabq[..], qo, nq + 1), Num(tabb[..], bo, nb), Num(taba[..], ao, nb + 1), 4 - additions)
      invariant forall j :: 0 <= j < tabq.Length && !(qo <= j <= qo + nq) ==> tabq[j] == old(tabq[j])
      invariant forall j :: 0 <= j < taba.Length && !(ao <= j <= ao + nb) ==> taba[j] == old(taba[j])
      decreases 3 - additions
    {
      TopLimb(taba[..], ao, nb);
      if taba[ao + nb] == 0 { NoCarry(taba[ao + nb], Pow(nb)); }
      if taba[ao + nb] == 0 {
        var cmp := MpCmp(taba, ao, tabb, bo, nb);
        if cmp < 0 { return; }
      }
      StillTooLarge(taba[..], ao, tabb[..], bo, nb, A, Num(tabq[..], qo, nq + 1), 4 - additions);
      SubtractOnce(tabq, qo, nq, taba, ao, tabb, bo, nb, A, 4 - additions);
      additions := additions + 1;
    }
  }

  lemma StillTooLarge(a: seq<Limb>, ao: nat, t: seq<Limb>, bo: nat, nb: nat, A: nat, q: nat, c: nat)
    requires ao + nb < |a| && bo + nb <= |t|
    requires a[ao + nb] != 0 || Num(a, ao, nb) >= Num(t, bo, nb)
    requires Leaves(A, q, Num(t, bo, nb), Num(a, ao, nb + 1), c)
    ensures Num(t, bo, nb) <= Num(a, ao, nb + 1) && 2 <= c
  {
    TopLimb(a, ao, nb);
    NumBound(t, bo, nb);
    if a[ao + nb] != 0 { MulMonotone(1, a[ao + nb], Pow(nb)); } else { NoCarry(a[ao + nb], Pow(nb)); }
    if c == 0 { NoCarry(c, Num(t, bo, nb)); }
  }

  lemma QuotientFits(q: nat, b: nat, A: nat, nq: nat, t: seq<Limb>, bo: nat, nb: nat)
    requires Normalised(t, bo, nb) && b == Num(t, bo, nb)
    requires q * b <= A < Pow(nq + nb)
    ensures q < Pow(nq + 1)
  {
    NormalisedBounds(t, bo, nb);
    PowAdd(nq, nb);
    QuotientBound(q, b, A, Pow(nq), Pow(nb));
  }

  lemma NoBorrowUp(s: seq<Limb>, off: nat, n: nat, x: nat, k: Limb)
    requires off + n <= |s| && k <= 1 && Num(s, off, n) + k * Pow(n) == x && x < Pow(n)
    ensures Num(s, off, n) == x
  {
    if k != 1 { NoCarry(k, Pow(n)); } 
  }

  /** What truncating the divisor adds stays below one divisor. */
  lemma TruncationFits(n: nat, nq: nat, nb: nat, b: nat, A: nat, q: nat, D: nat, tr: nat)
    requires 1 <= nq && 1 <= nb && (if nq < nb then n == nq + 1 else n == nq)
    requires ScaledDivisor(D, tr, b, n, nb) && Pow(nb) <= 2 * b
    requires q * b <= A < Pow(nq + nb)
    ensures tr * (Pow(2 * n + 1 - nq) * (q + 3)) + Pow(n) * Pow(n) * Pow(nb) <= (Pow(2 * n + 1 - nq) * Pow(n)) * b
  {
    LargePowers(n, nq, nb, nq + nb - n - 1);
    if n >= nb {
      ExactDivisor(b, Pow(2 * n + 1 - nq), Pow(n), Pow(nb));
      NoCarry(tr, Pow(2 * n + 1 - nq) * (q + 3));
    } else {
      QuotientBound(q, b, A, Pow(nq), Pow(nb));
      TruncatedDivisor(q, b, tr, Pow(2 * n + 1 - nq), Pow(n), Pow(nq), Pow(nb));
    }
  }

  lemma LargeLower(A: nat, Ah: nat, inv: nat, q: nat, D: nat, b: nat, tr: nat, n: nat, nq: nat, nb: nat, w: nat)
    requires 1 <= nq <= n <= nq + 1 && w + n + 1 == nq + nb && Ah * Pow(w) <= A
    requires ScaledDivisor(D, tr, b, n, nb) && ApproximateInverse(D, inv, n)
    requires Truncated(inv * Ah, Pow(2 * n + 1 - nq), q)
    ensures q * b <= A
  {
    LargePowers(n, nq, nb, w);
    MulStrict(0, Pow(2 * n + 1 - nq), Pow(n));
    QuotientLower(Ah, inv, q, D, b, Pow(2 * n + 1 - nq), Pow(n), Pow(nb), Pow(w), A);
  }

  lemma LargeUpper(A: nat, Ah: nat, Al: nat, inv: nat, q: nat, D: nat, b: nat, tr: nat,
                   n: nat, nq: nat, nb: nat, w: nat)
    requires 1 <= nq <= n && 1 <= nb && (if nq < nb then n == nq + 1 else n == nq) && w + n + 1 == nq + nb
    requires Truncated(inv * Ah, Pow(2 * n + 1 - nq), q)
    requires A == Ah * Pow(w) + Al && Al < Pow(w) && Ah < Pow(n + 1)
    requires q * b <= A < Pow(nq + nb) && Pow(nb) <= 2 * b
    requires ScaledDivisor(D, tr, b, n, nb) && ApproximateInverse(D, inv, n)
    ensures A < (q + 4) * b
  {
    LargePowers(n, nq, nb, w);
    MulStrict(0, Pow(2 * n + 1 - nq), Pow(n));
    TruncationFits(n, nq, nb, b, A, q, D, tr);
    QuotientUpper(Ah, Al, inv, q, D, b, tr, Pow(2 * n + 1 - nq), Pow(n), Pow(nb), Pow(w), A);
  }

  /** The estimate is exact or up to three too small, whatever the truncation. */
  lemma LargeQuotient(a: seq<Limb>, ao: nat, n: nat, nq: nat, t: seq<Limb>, bo: nat, nb: nat, w: nat,
                      inv: nat, q: nat, D: nat, tr: nat)
    requires Normalised(t, bo, nb) && 1 <= nq && (if nq < nb then n == nq + 1 else n == nq)
    requires w + n + 1 == nq + nb
    requires ao + nq + nb <= |a| && ScaledDivisor(D, tr, Num(t, bo, nb), n, nb)
    requires ApproximateInverse(D, inv, n)
    requires Truncated(inv * Num(a, ao + w, n + 1), Pow(2 * n + 1 - nq), q)
    ensures NearQuotient(Num(a, ao, nq + nb), q, Num(t, bo, nb))
  {
    var A, Ah, Al, b := Num(a, ao, nq + nb), Num(a, ao + w, n + 1), Num(a, ao, w), Num(t, bo, nb);
    NumSplit(a, ao, w, n + 1);
    NumBound(a, ao, w);
    NumBound(a, ao + w, n + 1);
    NumBound(a, ao, nq + nb);
    NormalisedBounds(t, bo, nb);
    LargeLower(A, Ah, inv, q, D, b, tr, n, nq, nb, w);
    LargeUpper(A, Ah, Al, inv, q, D, b, tr, n, nq, nb, w);
  }

  lemma LargePowers(n: nat, nq: nat, nb: nat, w: nat)
    requires 1 <= nq <= n <= nq + 1 && n + 1 <= nq + nb && w == nq + nb - n - 1
    ensures (Pow(2 * n + 1 - nq) * Pow(n)) * Pow(w) == Pow(n) * Pow(n) * Pow(nb)
    ensures 0x1_0000_0000_0000_0000 * Pow(n) <= Pow(2 * n + 1 - nq)
    ensures n == nq + 1 ==> Pow(n) == 0x1_0000_0000_0000_0000 * Pow(nq)
    ensures Pow(nq + nb) == Pow(nq) * Pow(nb)
    ensures Pow(n + 1) <= Pow(2 * n + 1 - nq)
  {
    PowAdd(2 * n + 1 - nq, n);
    PowAdd(2 * n + 1 - nq + n, w);
    PowAdd(n, n);
    PowAdd(n + n, nb);
    PowAdd(nq, nb);
    PowMonotone(n + 1, 2 * n + 1 - nq);
  }

  /** Sub-quadratic division. */
  method MpDivnormLarge(tabq: array<Limb>, qo: nat, taba: array<Limb>, ao: nat, na: nat,
                        tabb: array<Limb>, bo: nat, nb: nat)
    requires 1 <= nb < na && qo + na - nb < tabq.Length && ao + na <= taba.Length
    requires Normalised(tabb[..], bo, nb)
    requires tabq != taba && tabq != tabb && taba != tabb
    modifies tabq, taba
    ensures IsDivision(old(taba[..]), ao, na, tabq[..], qo, taba[..], tabb[..], bo, nb)
    ensures forall j :: 0 <= j < tabq.Length && !(qo <= j <= qo + na - nb) ==> tabq[j] == old(tabq[j])
    ensures forall j :: 0 <= j < taba.Length && !(ao <= j < ao + na) ==> taba[j] == old(taba[j])
    decreases 3, 0, 0
  {
    var nq := na - nb;
    var n := nq;
    if nq < nb {
      n := n + 1;
    }
    var tabbInv, tabt := new Limb[n + 1](_ => 0), new Limb[2 * (n + 1)](_ => 0);
    var D, tr := LargeInverse(tabbInv, tabt, tabb, bo, nb, n);
    var w := na - (n + 1);
    LargeEstimate(tabq, qo, tabbInv, taba, ao + w, n, nq);
    LargeQuotient(taba[..], ao, n, nq, tabb[..], bo, nb, w, Num(tabbInv[..], 0, n + 1), Num(tabq[..], qo, nq + 1), D, tr);
    ghost var A := Num(taba[..], ao, na);
    NumBound(taba[..], ao, na);
    LargeResidual(tabq, qo, nq, taba, ao, tabb, bo, nb);
    LargeFixup(tabq, qo, nq, taba, ao, tabb, bo, nb, A);
    QuotientTop(tabq[..], qo, nq, tabb[..], bo, nb);
  }

  /** Divides the `na` limbs of `taba` by the normalised divisor: the quotient
      goes to `tabq`, the remainder stays in `taba`. */
  method MpDivnorm(tabq: array<Limb>, qo: nat, taba: array<Limb>, ao: nat, na: nat,
                   tabb: array<Limb>, bo: nat, nb: nat)
    requires 1 <= nb <= na && qo + na - nb < tabq.Length && ao + na <= taba.Length
    requires Normalised(tabb[..], bo, nb)
    requires tabq != taba && tabq != tabb && taba != tabb
    modifies tabq, taba
    ensures IsDivision(old(taba[..]), ao, na, tabq[..], qo, taba[..], tabb[..], bo, nb)
    ensures forall j :: 0 <= j < tabq.Length && !(qo <= j <= qo + na - nb) ==> tabq[j] == old(tabq[j])
    ensures forall j :: 0 <= j < taba.Length && !(ao <= j < ao + na) ==> taba[j] == old(taba[j])
    decreases if na - nb >= DIVNORM_LARGE_THRESHOLD && nb >= DIVNORM_LARGE_THRESHOLD then 4 else 0, 0, 0
  {
    if nb == 1 {
      var r := MpDiv1Norm(tabq, qo, taba, ao, na, tabb[bo], 0);
      ghost var a0: seq<Limb> := taba[..];
      taba[ao] := r;
      OneLimb(taba[..], ao);
      OneLimb(tabb[..], bo);
      NumBound(a0, ao, na);
      QuotientTop(tabq[..], qo, na - 1, tabb[..], bo, 1);
    } else if na - nb >= DIVNORM_LARGE_THRESHOLD && nb >= DIVNORM_LARGE_THRESHOLD {
      MpDivnormLarge(tabq, qo, taba, ao, na, tabb, bo, nb);
    } else {
      DivnormSchoolbook(tabq, qo, taba, ao, na, tabb, bo, nb);
    }
  }
}
