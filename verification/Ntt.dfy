/** The number-theoretic transform of Sources/SubstrataQuickJS/libbf.c: passes
    between two buffers with lazily reduced entries, against the discrete Fourier
    transform modulo m. */
module Ntt {

  import opened Common
  import opened Limbs
  import opened Congruence
  import opened NttModular

  const NTT_TRIG_K_MAX := 19
  const NTT_PROOT_2EXP := 51

  // ---------------------------------------------------------------------
  // Roots of unity
  // ---------------------------------------------------------------------

  /** `w` has order 2^l modulo `m`: its power 2^(l-1) is -1. */
  predicate Root(w: int, l: nat, m: int) {
    l >= 1 && Cong(PowI(w, Pow2(l - 1)), -1, m)
  }

  lemma RootSquare(w: int, v: int, l: nat, m: int)
    requires Root(w, l, m) && l >= 2 && Cong(v, w * w, m)
    ensures Root(v, l - 1, m)
  {
    var h := Pow2(l - 2);
    CongPow(v, w * w, h, m);
    PowProduct(w, w, h);
    PowSum(w, h, h);
    assert Pow2(l - 1) == h + h;
    CongTrans(PowI(v, h), PowI(w, Pow2(l - 1)), -1, m);
  }

  /** Even powers of a root, to half its order, are 1; odd ones are -1. */
  lemma HalfPowers(w: int, l: nat, m: int, f: nat)
    requires Root(w, l, m)
    ensures Cong(PowI(PowI(w, f), Pow2(l - 1)), if f % 2 == 0 then 1 else -1, m)
  {
    var h := Pow2(l - 1);
    PowTimes(w, f, h);
    PowTimes(w, h, f);
    Commute(f, h);
    CongPow(PowI(w, h), -1, f, m);
    MinusOnePower(f);
  }

  lemma {:induction false} MinusOnePower(f: nat)
    ensures PowI(-1, f) == if f % 2 == 0 then 1 else -1
  {
    if f > 0 { MinusOnePower(f - 1); }
  }

  // ---------------------------------------------------------------------
  // The transform
  // ---------------------------------------------------------------------

  /** Entry `t` of the discrete Fourier transform of `x` with the root `w`. */
  function Dft(x: seq<Limb>, w: int, t: nat): int {
    Sum(x, PowI(w, t), |x|)
  }

  lemma Index(i: nat, j: nat, s: nat, n: nat)
    requires i < n && j < s
    ensures i * s + j < n * s && 0 <= i * s
  {
    MulMonotone(i + 1, n, s);
    assert (i + 1) * s == i * s + s;
    MulMonotone(0, i, s);
  }

  /** Every `s`-th entry of `a`, from entry `j` on. */
  function Column(a: seq<Limb>, s: nat, j: nat, n: nat): (c: seq<int>)
    requires j < s && n * s <= |a|
    ensures |c| == n
  {
    seq(n, i requires 0 <= i < n => Index(i, j, s, n); a[i * s + j])
  }

  /** Column `j` of `a` still determines the entries j, j + s, j + 2s, ... of the
      transform of `x`. */
  ghost predicate Bin(x: seq<Limb>, a: seq<Limb>, wk: int, w: int, l: nat, s: nat, m: int, j: nat, f: nat) {
    && j < s && Pow2(l) * s <= |a|
    && Cong(Sum(Column(a, s, j, Pow2(l)), PowI(w, f), Pow2(l)), Dft(x, wk, j + s * f), m)
  }

  ghost predicate Partial(x: seq<Limb>, a: seq<Limb>, wk: int, w: int, l: nat, s: nat, m: int) {
    && |x| == |a| == Pow2(l) * s
    && (forall i :: 0 <= i < |a| ==> a[i] < 2 * m)
    && (forall j, f :: 0 <= j < s && 0 <= f < Pow2(l) ==> Bin(x, a, wk, w, l, s, m, j, f))
  }

  // ---------------------------------------------------------------------
  // One pass
  // ---------------------------------------------------------------------

  /** The two results of a butterfly, at `p + j` and `p + s + j`. */
  predicate Pair(t: seq<Limb>, a: seq<Limb>, p: nat, k: nat, s: nat, half: nat, j: nat, c: int, m: int) {
    && p + s + j < |t| && k + j + half < |a|
    && t[p + j] < 2 * m && t[p + s + j] < 2 * m
    && Cong(t[p + j], a[k + j] as int + a[k + j + half], m)
    && Cong(t[p + s + j], (a[k + j] as int - a[k + j + half]) * c, m)
  }

  ghost predicate Row(t: seq<Limb>, a: seq<Limb>, p: nat, k: nat, s: nat, half: nat, c: int, m: int) {
    forall j :: 0 <= j < s ==> Pair(t, a, p, k, s, half, j, c, m)
  }

  ghost predicate Rows(t: seq<Limb>, a: seq<Limb>, s: nat, half: nat, w: int, m: int, n: nat)
    requires m > 0
  {
    forall i :: 0 <= i < n ==> RowAt(t, a, s, half, w, m, i)
  }

  ghost predicate RowAt(t: seq<Limb>, a: seq<Limb>, s: nat, half: nat, w: int, m: int, i: nat)
    requires m > 0
  {
    Row(t, a, 2 * (i * s), i * s, s, half, PowI(w, i) % m, m)
  }

  /** The lower half of a column plus its upper half times `u`, where the power of
      `z` to the half length is `u`. */
  lemma Folded(c: seq<int>, d: seq<int>, z: int, h: nat, u: int, m: int)
    requires |c| == 2 * h && |d| == h && Cong(PowI(z, h), u, m)
    requires forall i :: 0 <= i < h ==> d[i] == c[i] + u * c[h + i]
    ensures Cong(Sum(c, z, 2 * h), Sum(d, z, h), m)
  {
    var hi := Sum(c[h..], z, h);
    SumSplit(c, z, h, h);
    assert forall i :: 0 <= i < h ==> c[h..][i] == c[h + i];
    SumAdd(c, c[h..], d, u, z, h);
    CongRefl(hi, m);
    CongMul(PowI(z, h), u, hi, hi, m);
    CongRefl(Sum(c, z, h), m);
    CongAdd(Sum(c, z, h), Sum(c, z, h), PowI(z, h) * hi, u * hi, m);
  }

  lemma EvenPower(w: int, v: int, g: nat, m: int)
    requires Cong(v, w * w, m)
    ensures Cong(PowI(w, 2 * g), PowI(v, g), m)
  {
    PowTimes(w, 2, g);
    assert PowI(w, 2) == w * w by { assert PowI(w, 1) == w; }
    CongSym(v, w * w, m);
    CongPow(w * w, v, g, m);
  }

  /** An entry of the transform with even index, from the sums. */
  lemma EvenBin(c: seq<int>, e: seq<int>, w: int, v: int, l: nat, m: int, g: nat)
    requires Root(w, l, m) && Cong(v, w * w, m)
    requires |c| == Pow2(l) && |e| == Pow2(l - 1)
    requires forall i :: 0 <= i < |e| ==> Cong(e[i], c[i] + c[|e| + i], m)
    ensures Cong(Sum(c, PowI(w, 2 * g), |c|), Sum(e, PowI(v, g), |e|), m)
  {
    var h, z := |e|, PowI(w, 2 * g);
    var d := seq(h, i requires 0 <= i < h => c[i] + c[h + i]);
    HalfPowers(w, l, m, 2 * g);
    FoldedSums(c, d, z, h, m);
    EvenPower(w, v, g, m);
    Mirrored(d, e, m);
    CongSum(d, e, z, PowI(v, g), h, m);
    CongTrans(Sum(c, z, |c|), Sum(d, z, h), Sum(e, PowI(v, g), h), m);
  }

  lemma Mirrored(d: seq<int>, e: seq<int>, m: int)
    requires m > 0 && |d| == |e| && forall i :: 0 <= i < |e| ==> Cong(e[i], d[i], m)
    ensures forall i :: 0 <= i < |e| ==> Cong(d[i], e[i], m)
  {
    forall i | 0 <= i < |e| ensures Cong(d[i], e[i], m) { CongSym(e[i], d[i], m); }
  }

  lemma ReducedWeight(e: int, d: int, p: int, m: int)
    requires m > 0 && Cong(e, d * (p % m), m)
    ensures Cong(d * p, e, m)
  {
    CongMod(p, m);
    CongRefl(d, m);
    CongMul(d, d, p % m, p, m);
    CongTrans(e, d * (p % m), d * p, m);
    CongSym(e, d * p, m);
  }

  lemma FoldedSums(c: seq<int>, d: seq<int>, z: int, h: nat, m: int)
    requires |c| == 2 * h && |d| == h && Cong(PowI(z, h), 1, m)
    requires forall i :: 0 <= i < h ==> d[i] == c[i] + c[h + i]
    ensures Cong(Sum(c, z, 2 * h), Sum(d, z, h), m)
  {
    Folded(c, d, z, h, 1, m);
  }

  lemma FoldedDifferences(c: seq<int>, d: seq<int>, z: int, h: nat, m: int)
    requires |c| == 2 * h && |d| == h && Cong(PowI(z, h), -1, m)
    requires forall i :: 0 <= i < h ==> d[i] == c[i] - c[h + i]
    ensures Cong(Sum(c, z, 2 * h), Sum(d, z, h), m)
  {
    Folded(c, d, z, h, -1, m);
  }

  /** An entry with odd index, from the weighted differences. */
  lemma OddBin(c: seq<int>, e: seq<int>, w: int, v: int, l: nat, m: int, g: nat)
    requires Root(w, l, m) && Cong(v, w * w, m)
    requires |c| == Pow2(l) && |e| == Pow2(l - 1)
    requires forall i :: 0 <= i < |e| ==> Cong(e[i], (c[i] - c[|e| + i]) * (PowI(w, i) % m), m)
    ensures Cong(Sum(c, PowI(w, 2 * g + 1), |c|), Sum(e, PowI(v, g), |e|), m)
  {
    var h, z := |e|, PowI(w, 2 * g + 1);
    var d := seq(h, i requires 0 <= i < h => c[i] - c[h + i]);
    HalfPowers(w, l, m, 2 * g + 1);
    FoldedDifferences(c, d, z, h, m);
    OddSum(d, e, w, v, m, g);
    CongTrans(Sum(c, z, |c|), Sum(d, z, h), Sum(e, PowI(v, g), h), m);
  }

  /** The weights move into the powers. */
  lemma OddSum(d: seq<int>, e: seq<int>, w: int, v: int, m: int, g: nat)
    requires m > 0 && |d| == |e| && Cong(v, w * w, m)
    requires forall i :: 0 <= i < |e| ==> Cong(e[i], d[i] * (PowI(w, i) % m), m)
    ensures Cong(Sum(d, PowI(w, 2 * g + 1), |e|), Sum(e, PowI(v, g), |e|), m)
  {
    var h, y := |e|, PowI(w, 2 * g);
    var b := seq(h, i requires 0 <= i < h => d[i] * PowI(w, i));
    assert PowI(w, 2 * g + 1) == w * y;
    SumTwist(d, b, w, y, h);
    EvenPower(w, v, g, m);
    WeightedDifferences(d, b, e, w, m);
    CongSum(b, e, y, PowI(v, g), h, m);
  }

  lemma WeightedDifferences(d: seq<int>, b: seq<int>, e: seq<int>, w: int, m: int)
    requires m > 0 && |d| == |b| == |e|
    requires forall i :: 0 <= i < |b| ==> b[i] == d[i] * PowI(w, i)
    requires forall i :: 0 <= i < |e| ==> Cong(e[i], d[i] * (PowI(w, i) % m), m)
    ensures forall i :: 0 <= i < |e| ==> Cong(b[i], e[i], m)
  {
    forall i | 0 <= i < |e| ensures Cong(b[i], e[i], m) {
      ReducedWeight(e[i], d[i], PowI(w, i), m);
    }
  }

  lemma Positions(i: nat, s: nat, h: nat)
    ensures i * (2 * s) == 2 * (i * s) && (h + i) * s == h * s + i * s
  {
  }

  lemma EntryOf(a: seq<Limb>, s: nat, j: nat, n: nat, i: nat, k: nat)
    requires j < s && n * s <= |a| && i < n && k == i * s
    ensures k + j < |a| && Column(a, s, j, n)[i] == a[k + j]
  {
    Index(i, j, s, n);
  }

  /** The entries of a column and of its two successors in the other buffer. */
  lemma ColumnPairs(a: seq<Limb>, t: seq<Limb>, s: nat, h: nat, w: int, m: int, j: nat, i: nat)
    requires m > 0 && j < s && i < h && 2 * h * s == |a| == |t| && Rows(t, a, s, h * s, w, m, h)
    requires h * (2 * s) == |a|
    ensures var c, e, o := Column(a, s, j, 2 * h), Column(t, 2 * s, j, h), Column(t, 2 * s, j + s, h);
      Cong(e[i], c[i] + c[h + i], m) && Cong(o[i], (c[i] - c[h + i]) * (PowI(w, i) % m), m)
  {
    var k, half, v := i * s, h * s, PowI(w, i) % m;
    Positions(i, s, h);
    EntryOf(a, s, j, 2 * h, i, k);
    EntryOf(a, s, j, 2 * h, h + i, half + k);
    EntryOf(t, 2 * s, j, h, i, 2 * k);
    EntryOf(t, 2 * s, j + s, h, i, 2 * k);
    PairAt(t, a, s, half, w, m, h, i, j, k);
    assert k + j + half == half + k + j && 2 * k + (j + s) == 2 * k + s + j;
  }

  lemma PairAt(t: seq<Limb>, a: seq<Limb>, s: nat, half: nat, w: int, m: int, n: nat, i: nat, j: nat, k: nat)
    requires m > 0 && Rows(t, a, s, half, w, m, n) && i < n && j < s && k == i * s
    ensures Pair(t, a, 2 * k, k, s, half, j, PowI(w, i) % m, m)
  {
    assert RowAt(t, a, s, half, w, m, i);
  }

  lemma Sizes(h: nat, s: nat, n: nat)
    requires n == 2 * h * s
    ensures h * (2 * s) == n && (2 * h) * s == n && h * s + h * s == n
  {
    assert h * (2 * s) == 2 * (h * s);
  }

  /** What a pass has written, and the columns before it. */
  ghost predicate Passed(x: seq<Limb>, a: seq<Limb>, t: seq<Limb>, wk: int, w: int, v: int, l: nat, s: nat, m: int) {
    && l >= 2 && Root(w, l, m) && Cong(v, w * w, m) && Partial(x, a, wk, w, l, s, m)
    && |t| == |a| && Rows(t, a, s, Pow2(l - 1) * s, w, m, Pow2(l - 1))
  }

  lemma PassedSizes(l: nat, s: nat, n: nat)
    requires l >= 1 && n == Pow2(l) * s
    ensures var h := Pow2(l - 1); Pow2(l) == 2 * h && 2 * h * s == n && h * (2 * s) == n
  {
    Sizes(Pow2(l - 1), s, n);
  }

  lemma EvenColumns(a: seq<Limb>, t: seq<Limb>, s: nat, h: nat, l: nat, w: int, v: int, m: int, j: nat, g: nat)
    requires Root(w, l, m) && Cong(v, w * w, m) && h == Pow2(l - 1) && j < s
    requires 2 * h * s == |a| == |t| && h * (2 * s) == |a| && Rows(t, a, s, h * s, w, m, h)
    ensures Cong(Sum(Column(a, s, j, 2 * h), PowI(w, 2 * g), 2 * h), Sum(Column(t, 2 * s, j, h), PowI(v, g), h), m)
  {
    var c, e := Column(a, s, j, 2 * h), Column(t, 2 * s, j, h);
    forall i | 0 <= i < h ensures Cong(e[i], c[i] + c[h + i], m) {
      ColumnPairs(a, t, s, h, w, m, j, i);
    }
    EvenBin(c, e, w, v, l, m, g);
  }

  lemma OddColumns(a: seq<Limb>, t: seq<Limb>, s: nat, h: nat, l: nat, w: int, v: int, m: int, j: nat, g: nat)
    requires Root(w, l, m) && Cong(v, w * w, m) && h == Pow2(l - 1) && j < s
    requires 2 * h * s == |a| == |t| && h * (2 * s) == |a| && Rows(t, a, s, h * s, w, m, h)
    ensures Cong(Sum(Column(a, s, j, 2 * h), PowI(w, 2 * g + 1), 2 * h), Sum(Column(t, 2 * s, j + s, h), PowI(v, g), h), m)
  {
    var c, e := Column(a, s, j, 2 * h), Column(t, 2 * s, j + s, h);
    forall i | 0 <= i < h ensures Cong(e[i], (c[i] - c[h + i]) * (PowI(w, i) % m), m) {
      ColumnPairs(a, t, s, h, w, m, j, i);
    }
    OddBin(c, e, w, v, l, m, g);
  }

  /** One bin after a pass, from one before it. */
  lemma BinAfter(x: seq<Limb>, a: seq<Limb>, t: seq<Limb>, wk: int, w: int, v: int, l: nat, s: nat, m: int, j: nat, g: nat,
                 j1: nat, f: nat)
    requires Passed(x, a, t, wk, w, v, l, s, m) && j < s && g < Pow2(l - 1)
    requires (j1 == j && f == 2 * g) || (j1 == j + s && f == 2 * g + 1)
    ensures Bin(x, t, wk, v, l - 1, 2 * s, m, j1, g)
  {
    SumAfter(x, a, t, wk, w, v, l, s, m, j, g, j1, f);
    BinOf(x, a, wk, w, l, s, m, j, f);
    BinIndex(j1, j, s, f, g);
    NextBin(x, a, t, wk, w, v, l, s, m, j, g, j1, f);
  }

  lemma BinOf(x: seq<Limb>, a: seq<Limb>, wk: int, w: int, l: nat, s: nat, m: int, j: nat, f: nat)
    requires Partial(x, a, wk, w, l, s, m) && j < s && f < Pow2(l)
    ensures Bin(x, a, wk, w, l, s, m, j, f)
  {
  }

  lemma NextBin(x: seq<Limb>, a: seq<Limb>, t: seq<Limb>, wk: int, w: int, v: int, l: nat, s: nat, m: int, j: nat, g: nat,
                j1: nat, f: nat)
    requires l >= 1 && j1 < 2 * s && Bin(x, a, wk, w, l, s, m, j, f) && Pow2(l - 1) * (2 * s) == |t|
    requires Cong(Sum(Column(a, s, j, Pow2(l)), PowI(w, f), Pow2(l)),
                  Sum(Column(t, 2 * s, j1, Pow2(l - 1)), PowI(v, g), Pow2(l - 1)), m)
    requires j + s * f == j1 + 2 * s * g
    ensures Bin(x, t, wk, v, l - 1, 2 * s, m, j1, g)
  {
    BinFollows(Sum(Column(a, s, j, Pow2(l)), PowI(w, f), Pow2(l)),
               Sum(Column(t, 2 * s, j1, Pow2(l - 1)), PowI(v, g), Pow2(l - 1)), Dft(x, wk, j + s * f), m);
  }

  lemma SumAfter(x: seq<Limb>, a: seq<Limb>, t: seq<Limb>, wk: int, w: int, v: int, l: nat, s: nat, m: int, j: nat, g: nat,
                 j1: nat, f: nat)
    requires Passed(x, a, t, wk, w, v, l, s, m) && j < s && g < Pow2(l - 1)
    requires (j1 == j && f == 2 * g) || (j1 == j + s && f == 2 * g + 1)
    ensures Pow2(l) * s == |a| && Pow2(l - 1) * (2 * s) == |t|
    ensures Cong(Sum(Column(a, s, j, Pow2(l)), PowI(w, f), Pow2(l)),
                 Sum(Column(t, 2 * s, j1, Pow2(l - 1)), PowI(v, g), Pow2(l - 1)), m)
  {
    var h := Pow2(l - 1);
    PassedSizes(l, s, |a|);
    if j1 == j {
      EvenColumns(a, t, s, h, l, w, v, m, j, g);
    } else {
      OddColumns(a, t, s, h, l, w, v, m, j, g);
    }
  }

  lemma BinFollows(before: int, after: int, d: int, m: int)
    requires Cong(before, after, m) && Cong(before, d, m)
    ensures Cong(after, d, m)
  {
    CongSym(before, after, m);
    CongTrans(after, before, d, m);
  }

  lemma BinIndex(j: nat, j0: nat, s: nat, f: nat, g: nat)
    requires if j < s then j0 == j && f == 2 * g else j == j0 + s && f == 2 * g + 1
    ensures j0 + s * f == j + 2 * s * g
  {
    assert s * (2 * g) == 2 * s * g && s * (2 * g + 1) == s * (2 * g) + s;
  }

  /** A pass halves the number of entries that the columns have and doubles the
      number of columns. */
  lemma PassAdvances(x: seq<Limb>, a: seq<Limb>, t: seq<Limb>, wk: int, w: int, v: int, l: nat, s: nat, m: int)
    requires Passed(x, a, t, wk, w, v, l, s, m)
    requires forall i :: 0 <= i < |t| ==> t[i] < 2 * m
    ensures Partial(x, t, wk, v, l - 1, 2 * s, m)
  {
    PassedSizes(l, s, |a|);
    var l1, s1 := l - 1, 2 * s;
    forall j, g | 0 <= j < s1 && 0 <= g < Pow2(l1) ensures Bin(x, t, wk, v, l1, s1, m, j, g) {
      if j < s {
        BinAfter(x, a, t, wk, w, v, l, s, m, j, g, j, 2 * g);
      } else {
        BinAfter(x, a, t, wk, w, v, l, s, m, j - s, g, j, 2 * g + 1);
      }
    }
  }

  /** At the start there is one column, the input. */
  lemma PartialStarts(x: seq<Limb>, w: int, k: nat, m: int)
    requires m > 0 && |x| == Pow2(k) && forall i :: 0 <= i < |x| ==> x[i] < 2 * m
    ensures Partial(x, x, w, w, k, 1, m)
  {
    forall j, f | 0 <= j < 1 && 0 <= f < Pow2(k) ensures Bin(x, x, w, w, k, 1, m, j, f) {
      var c := Column(x, 1, 0, |x|);
      forall i | 0 <= i < |x| ensures Cong(c[i], x[i], m) { CongRefl(x[i], m); }
      CongRefl(PowI(w, f), m);
      CongSum(c, x, PowI(w, f), PowI(w, f), |x|, m);
    }
  }

  /** The last step: columns of two entries, and a root that is -1. */
  lemma LastBins(x: seq<Limb>, a: seq<Limb>, wk: int, w: int, s: nat, m: int, j: nat)
    requires Partial(x, a, wk, w, 1, s, m) && Root(w, 1, m) && j < s
    ensures |a| == 2 * s
    ensures Cong(a[j] as int + a[j + s], Dft(x, wk, j), m) && Cong(a[j] as int - a[j + s], Dft(x, wk, j + s), m)
  {
    assert Pow2(0) == 1 && Pow2(1) == 2;
    var c := Column(a, s, j, 2);
    assert c[0] == a[j] && c[1] == a[j + s];
    assert Bin(x, a, wk, w, 1, s, m, j, 0) && Bin(x, a, wk, w, 1, s, m, j, 1);
    assert PowI(w, 0) == 1 && PowI(w, 1) == w;
    TwoTerms(c, 1);
    TwoTerms(c, w);
    CongRefl(c[0], m);
    CongRefl(c[1], m);
    CongMul(c[1], c[1], w, -1, m);
    CongAdd(c[0], c[0], c[1] * w, c[1] * -1, m);
    CongSym(Sum(c, w, 2), c[0] - c[1], m);
    CongTrans(c[0] - c[1], Sum(c, w, 2), Dft(x, wk, j + s), m);
  }

  lemma TwoTerms(c: seq<int>, z: int)
    requires |c| == 2
    ensures Sum(c, z, 2) == c[0] + c[1] * z
  {
    assert Sum(c, z, 1) == Sum(c, z, 0) + c[0] * PowI(z, 0);
    assert PowI(z, 1) == z;
  }

  // ---------------------------------------------------------------------
  // The loops
  // ---------------------------------------------------------------------

  /** The table of get_trig: the powers of `w`, each with its scaled inverse. */
  ghost predicate Table(trig: seq<Limb>, w: int, n2: nat, m: int) {
    && Modulus(m) && |trig| == 2 * n2
    && forall i :: 0 <= i < n2 ==> Twiddle(trig, w, i, m)
  }

  predicate Twiddle(trig: seq<Limb>, w: int, i: nat, m: int)
    requires Modulus(m) && 2 * i + 1 < |trig|
  {
    trig[2 * i] == PowI(w, i) % m && trig[2 * i + 1] == InitMulModFast2(trig[2 * i], m)
  }

  /** One butterfly. */
  method Butterfly(a0: Limb, a1: Limb, c: Limb, cInv: Limb, m: Limb) returns (b0: Limb, b1: Limb)
    requires Modulus(m) && a0 < 2 * m && a1 < 2 * m && c < m && cInv == InitMulModFast2(c, m)
    ensures b0 < 2 * m && b1 < 2 * m
    ensures Cong(b0, a0 as int + a1, m) && Cong(b1, (a0 as int - a1) * c, m)
  {
    var m2: Limb := 2 * m;
    b0 := AddMod(a0, a1, m2);
    CongBy(b0, a0 as int + a1, if b0 == a0 as int + a1 then 0 else -2, m);
    var d := Wrap(a0 as int - a1 + m2);
    b1 := MulModFast3(d, c, m, cInv);
    CongBy(d, a0 as int - a1, 2, m);
    CongRefl(c, m);
    CongMul(d, a0 as int - a1, c, c, m);
    CongTrans(b1, d * c, (a0 as int - a1) * c, m);
  }

  /** The first `n` butterflies of a row. */
  ghost predicate RowTo(t: seq<Limb>, a: seq<Limb>, p: nat, k: nat, s: nat, half: nat, c: int, m: int, n: nat) {
    forall j :: 0 <= j < n ==> Pair(t, a, p, k, s, half, j, c, m)
  }

  lemma RowStep(t: seq<Limb>, a: seq<Limb>, p: nat, k: nat, s: nat, half: nat, c: int, m: int, n: nat, b0: Limb, b1: Limb)
    requires n < s && p + 2 * s <= |t| && k + s + half <= |a| && RowTo(t, a, p, k, s, half, c, m, n)
    requires b0 < 2 * m && b1 < 2 * m && Cong(b0, a[k + n] as int + a[k + n + half], m)
    requires Cong(b1, (a[k + n] as int - a[k + n + half]) * c, m)
    ensures RowTo(t[p + n := b0][p + s + n := b1], a, p, k, s, half, c, m, n + 1)
  {
    var t1 := t[p + n := b0][p + s + n := b1];
    forall j | 0 <= j < n + 1 ensures Pair(t1, a, p, k, s, half, j, c, m) {
      if j < n { assert Pair(t, a, p, k, s, half, j, c, m); }
    }
  }

  ghost predicate SameOutside(t: seq<Limb>, t1: seq<Limb>, lo: nat, hi: nat) {
    |t| == |t1| && forall i :: 0 <= i < |t| && !(lo <= i < hi) ==> t1[i] == t[i]
  }

  /** The inner loop: the butterflies with one weight. */
  method Block(tabIn: array<Limb>, tabOut: array<Limb>, p: nat, k: nat, s: nat, half: nat, c: Limb, cInv: Limb, m: Limb)
    requires tabIn != tabOut && Modulus(m) && c < m && cInv == InitMulModFast2(c, m)
    requires p + 2 * s <= tabOut.Length && k + s + half <= tabIn.Length
    requires forall i :: 0 <= i < tabIn.Length ==> tabIn[i] < 2 * m
    modifies tabOut
    ensures Row(tabOut[..], tabIn[..], p, k, s, half, c, m)
    ensures SameOutside(old(tabOut[..]), tabOut[..], p, p + 2 * s)
  {
    ghost var a, t0, t := tabIn[..], tabOut[..], tabOut[..];
    var j := 0;
    while j < s
      invariant 0 <= j <= s && tabIn[..] == a && tabOut[..] == t
      invariant RowTo(t, a, p, k, s, half, c, m, j) && SameOutside(t0, t, p, p + 2 * s)
    {
      var b0, b1 := Butterfly(tabIn[k + j], tabIn[k + j + half], c, cInv, m);
      RowStep(t, a, p, k, s, half, c, m, j, b0, b1);
      tabOut[p + j] := b0;
      tabOut[p + s + j] := b1;
      t := t[p + j := b0][p + s + j := b1];
      j := j + 1;
    }
  }

  /** One pass: every block with its weight from the table of `w`. */
  method Pass(tabIn: array<Limb>, tabOut: array<Limb>, nbBlocks: nat, s: nat, half: nat, trig: seq<Limb>, ghost w: int, m: Limb)
    requires tabIn != tabOut && Table(trig, w, nbBlocks, m) && half == nbBlocks * s
    requires tabIn.Length == tabOut.Length == 2 * half
    requires forall i :: 0 <= i < tabIn.Length ==> tabIn[i] < 2 * m
    modifies tabOut
    ensures Rows(tabOut[..], tabIn[..], s, half, w, m, nbBlocks)
  {
    ghost var a, t := tabIn[..], tabOut[..];
    var i, k, p := 0, 0, 0;
    while i < nbBlocks
      invariant 0 <= i <= nbBlocks && k == i * s && p == 2 * (i * s)
      invariant tabIn[..] == a && tabOut[..] == t && Rows(t, a, s, half, w, m, i)
    {
      RowFits(i, s, nbBlocks);
      assert Twiddle(trig, w, i, m);
      Block(tabIn, tabOut, p, k, s, half, trig[2 * i], trig[2 * i + 1], m);
      RowsStep(t, tabOut[..], a, s, half, w, m, i);
      t := tabOut[..];
      k := k + s;
      p := p + 2 * s;
      i := i + 1;
    }
  }

  lemma RowFits(i: nat, s: nat, n: nat)
    requires i < n
    ensures (i + 1) * s == i * s + s && i * s + s <= n * s
  {
    MulMonotone(i + 1, n, s);
  }

  lemma RowsStep(t: seq<Limb>, t1: seq<Limb>, a: seq<Limb>, s: nat, half: nat, w: int, m: int, n: nat)
    requires m > 0 && Rows(t, a, s, half, w, m, n) && SameOutside(t, t1, 2 * (n * s), 2 * (n * s) + 2 * s)
    requires RowAt(t1, a, s, half, w, m, n)
    ensures Rows(t1, a, s, half, w, m, n + 1)
  {
    forall i | 0 <= i < n + 1 ensures RowAt(t1, a, s, half, w, m, i) {
      if i < n { OlderRow(t, t1, a, s, half, w, m, n, i); }
    }
  }

  lemma OlderRow(t: seq<Limb>, t1: seq<Limb>, a: seq<Limb>, s: nat, half: nat, w: int, m: int, n: nat, i: nat)
    requires m > 0 && Rows(t, a, s, half, w, m, n) && SameOutside(t, t1, 2 * (n * s), 2 * (n * s) + 2 * s) && i < n
    ensures RowAt(t1, a, s, half, w, m, i)
  {
    assert RowAt(t, a, s, half, w, m, i);
    RowFits(i, s, n);
    RowKept(t, t1, a, 2 * (i * s), i * s, s, half, PowI(w, i) % m, m, 2 * (n * s), 2 * (n * s) + 2 * s);
  }

  lemma RowKept(t: seq<Limb>, t1: seq<Limb>, a: seq<Limb>, p: nat, k: nat, s: nat, half: nat, c: int, m: int, lo: nat, hi: nat)
    requires Row(t, a, p, k, s, half, c, m) && SameOutside(t, t1, lo, hi) && p + 2 * s <= lo
    ensures Row(t1, a, p, k, s, half, c, m)
  {
    forall j | 0 <= j < s ensures Pair(t1, a, p, k, s, half, j, c, m) {
      assert Pair(t, a, p, k, s, half, j, c, m);
    }
  }

  /** All entries are written by the rows. */
  lemma RowsBounded(t: seq<Limb>, a: seq<Limb>, s: nat, half: nat, w: int, m: int, n: nat)
    requires m > 0 && s > 0 && Rows(t, a, s, half, w, m, n) && |t| == 2 * (n * s)
    ensures forall i :: 0 <= i < |t| ==> t[i] < 2 * m
  {
    forall x | 0 <= x < |t| ensures t[x] < 2 * m {
      RowBounded(t, a, s, half, w, m, n, x);
    }
  }

  lemma {:induction false} RowBounded(t: seq<Limb>, a: seq<Limb>, s: nat, half: nat, w: int, m: int, n: nat, x: nat)
    requires m > 0 && s > 0 && Rows(t, a, s, half, w, m, n) && x < |t| && x < 2 * (n * s)
    ensures t[x] < 2 * m
    decreases n
  {
    if n > 0 {
      var i := n - 1;
      RowFits(i, s, n);
      if x < 2 * (i * s) {
        RowBounded(t, a, s, half, w, m, i, x);
      } else {
        assert RowAt(t, a, s, half, w, m, i);
        var j := x - 2 * (i * s);
        assert Pair(t, a, 2 * (i * s), i * s, s, half, if j < s then j else j - s, PowI(w, i) % m, m);
      }
    }
  }

  /** Entry `i` of the result. */
  ghost predicate Final(t: seq<Limb>, x: seq<Limb>, wk: int, m: int, i: nat) {
    i < |t| && t[i] < 2 * m && Cong(t[i], Dft(x, wk, i), m)
  }

  /** One butterfly without weight. */
  method LastPair(a0: Limb, a1: Limb, m: Limb, ghost d0: int, ghost d1: int) returns (b0: Limb, b1: Limb)
    requires Modulus(m) && a0 < 2 * m && a1 < 2 * m
    requires Cong(a0 as int + a1, d0, m) && Cong(a0 as int - a1, d1, m)
    ensures b0 < 2 * m && b1 < 2 * m && Cong(b0, d0, m) && Cong(b1, d1, m)
  {
    var m2: Limb := 2 * m;
    b0 := AddMod(a0, a1, m2);
    b1 := SubMod(a0, a1, m2);
    CongBy(b0, a0 as int + a1, if b0 == a0 as int + a1 then 0 else -2, m);
    CongBy(b1, a0 as int - a1, if b1 == a0 as int - a1 then 0 else 2, m);
    CongTrans(b0, a0 as int + a1, d0, m);
    CongTrans(b1, a0 as int - a1, d1, m);
  }

  /** The last step has written the pairs before `k`; the others are still there
      if the result replaces the input. */
  ghost predicate Finishing(t: seq<Limb>, a: seq<Limb>, x: seq<Limb>, wk: int, m: int, s: nat, k: nat) {
    && |t| == |a| == 2 * s
    && forall i :: 0 <= i < k || s <= i < s + k ==> Final(t, x, wk, m, i)
  }

  lemma FinishingStep(t: seq<Limb>, a: seq<Limb>, x: seq<Limb>, wk: int, m: int, s: nat, k: nat, b0: Limb, b1: Limb)
    requires Finishing(t, a, x, wk, m, s, k) && k < s && b0 < 2 * m && b1 < 2 * m
    requires Cong(b0, Dft(x, wk, k), m) && Cong(b1, Dft(x, wk, k + s), m)
    ensures Finishing(t[k := b0][k + s := b1], a, x, wk, m, s, k + 1)
  {
    var t1 := t[k := b0][k + s := b1];
    forall i | 0 <= i < k + 1 || s <= i < s + (k + 1) ensures Final(t1, x, wk, m, i) {
      if i < k || s <= i < s + k { assert Final(t, x, wk, m, i); }
    }
  }

  /** The last step, without weights; the result may replace the input. */
  method LastStep(tabIn: array<Limb>, tabOut: array<Limb>, s: nat, m: Limb, ghost x: seq<Limb>, ghost wk: int, ghost w: int)
    requires Modulus(m) && tabIn.Length == tabOut.Length == 2 * s
    requires Partial(x, tabIn[..], wk, w, 1, s, m) && Root(w, 1, m)
    modifies tabOut
    ensures forall t :: 0 <= t < tabOut.Length ==> Final(tabOut[..], x, wk, m, t)
  {
    ghost var a, t := tabIn[..], tabOut[..];
    var k := 0;
    while k < s
      invariant 0 <= k <= s && tabOut[..] == t && Finishing(t, a, x, wk, m, s, k)
      invariant forall i :: k <= i < s || s + k <= i < 2 * s ==> tabIn[i] == a[i]
    {
      LastBins(x, a, wk, w, s, m, k);
      var b0, b1 := LastPair(tabIn[k], tabIn[k + s], m, Dft(x, wk, k), Dft(x, wk, k + s));
      FinishingStep(t, a, x, wk, m, s, k, b0, b1);
      tabOut[k] := b0;
      tabOut[k + s] := b1;
      t := t[k := b0][k + s := b1];
      k := k + 1;
    }
  }

  // ---------------------------------------------------------------------
  // The state
  // ---------------------------------------------------------------------

  /** Entry `k` is a root of order 2^k with its scaled inverse. */
  predicate RootAt(pow: seq<Limb>, inv: seq<Limb>, m: Limb, k: nat)
    requires Modulus(m) && k < |pow| && k < |inv|
  {
    pow[k] < m && inv[k] == InitMulModFast2(pow[k], m) && Root(pow[k], k, m)
  }

  /** Entries `lo` and up are roots, each the square of the next. */
  ghost predicate RootsFrom(pow: seq<Limb>, inv: seq<Limb>, m: Limb, lo: nat) {
    && Modulus(m) && |pow| == |inv|
    && (forall k :: lo <= k < |pow| ==> RootAt(pow, inv, m, k))
    && (forall k :: lo < k < |pow| ==> Cong(pow[k - 1], pow[k] as int * pow[k], m))
  }

  lemma RootsStep(pow: seq<Limb>, inv: seq<Limb>, m: Limb, lo: nat, c: Limb)
    requires RootsFrom(pow, inv, m, lo + 1) && lo < |pow| && c < m && Root(c, lo, m)
    requires lo + 1 < |pow| ==> Cong(c, pow[lo + 1] as int * pow[lo + 1], m)
    ensures RootsFrom(pow[lo := c], inv[lo := InitMulModFast2(c, m)], m, lo)
  {
    var p, i := pow[lo := c], inv[lo := InitMulModFast2(c, m)];
    forall k | lo <= k < |p| ensures RootAt(p, i, m, k) {
      if k > lo { assert RootAt(pow, inv, m, k); }
    }
  }

  /** The loop of ntt_static_init over the orders, from 2^e down. */
  method MakeRoots(m: Limb, proot: Limb, e: nat) returns (pow: seq<Limb>, inv: seq<Limb>)
    requires Modulus(m) && proot < m && Root(proot, e, m)
    ensures |pow| == e + 1 && pow[e] == proot && RootsFrom(pow, inv, m, 1)
  {
    var mInv := InitMulModFast(m);
    pow, inv := seq(e + 1, _ => 0), seq(e + 1, _ => 0);
    var c: Limb := proot;
    var i := 0;
    while i < e
      invariant 0 <= i <= e && |pow| == e + 1 && RootsFrom(pow, inv, m, e - i + 1)
      invariant c < m && (i == 0 ==> c == proot) && (i > 0 ==> pow[e] == proot)
      invariant i < e ==> Root(c, e - i, m)
      invariant i > 0 ==> Cong(c, pow[e - i + 1] as int * pow[e - i + 1], m)
    {
      RootsStep(pow, inv, m, e - i, c);
      pow := pow[e - i := c];
      inv := inv[e - i := InitMulModFast2(c, m)];
      SquareFits(c, m);
      CongMod(c as int * c, m);
      var d := MulModFast(c, c, m, mInv);
      if i + 1 < e { RootSquare(c, d, e - i, m); }
      c := d;
      i := i + 1;
    }
  }

  lemma SquareFits(c: int, m: int)
    requires Modulus(m) && 0 <= c < m
    ensures c * c < 0x2000_0000_0000_0000_0000_0000_0000_0000
  {
    MulMonotone(c, 0x4000_0000_0000_0000, c);
    MulMonotone(c, 0x4000_0000_0000_0000, 0x4000_0000_0000_0000);
  }

  /** The part of BFNTTState for one modulus and one direction: the roots of every
      order, and the tables made so far. */
  class BFNTTState {
    const m: Limb
    const prootPow: seq<Limb>
    const prootPowInv: seq<Limb>
    var trig: map<nat, seq<Limb>>

    /** `prootPow[k]` has order 2^k. */
    ghost predicate Rooted() {
      && Modulus(m) && |prootPow| == |prootPowInv| == NTT_PROOT_2EXP + 1
      && forall k :: 1 <= k <= NTT_PROOT_2EXP ==> RootedAt(k)
    }

    predicate RootedAt(k: nat)
      requires Modulus(m) && |prootPow| == |prootPowInv| == NTT_PROOT_2EXP + 1 && 1 <= k <= NTT_PROOT_2EXP
    {
      RootAt(prootPow, prootPowInv, m, k) && (k >= 2 ==> Cong(prootPow[k - 1], prootPow[k] as int * prootPow[k], m))
    }

    /** The roots that ntt_static_init computes from one of the greatest order. */
    constructor (m: Limb, proot: Limb)
      requires Modulus(m) && proot < m && Root(proot, NTT_PROOT_2EXP, m)
      ensures Valid() && this.m == m && prootPow[NTT_PROOT_2EXP] == proot
    {
      var pow, inv := MakeRoots(m, proot, NTT_PROOT_2EXP);
      this.m := m;
      prootPow := pow;
      prootPowInv := inv;
      trig := map[];
    }

    ghost predicate Valid()
      reads this
    {
      && Rooted()
      && forall k :: k in trig ==> 1 <= k <= NTT_TRIG_K_MAX && Table(trig[k], prootPow[k], Pow2(k - 1), m)
    }

    /** get_trig: makes a table of order 2^k, or returns the one made before. */
    method GetTrig(k: nat) returns (tab: Option<seq<Limb>>)
      requires Valid() && k >= 1
      modifies this
      ensures Valid() && (tab.Some? <==> k <= NTT_TRIG_K_MAX)
      ensures tab.Some? ==> Table(tab.value, prootPow[k], Pow2(k - 1), m)
    {
      if k > NTT_TRIG_K_MAX {
        return None;
      }
      if k in trig {
        return Some(trig[k]);
      }
      assert RootedAt(k);
      var t := MakeTable(prootPow[k], prootPowInv[k], Pow2(k - 1), m);
      trig := trig[k := t];
      return Some(t);
    }

    /** One turn of the loop of ntt_fft, with roots of order 2^l. */
    method OnePass(tabIn: array<Limb>, tabOut: array<Limb>, l: nat, s: nat, strideIn: nat, ghost x: seq<Limb>, ghost wk: int)
      returns (ok: bool)
      requires Valid() && 2 <= l <= NTT_PROOT_2EXP && tabIn != tabOut && s >= 1
      requires tabIn.Length == tabOut.Length == 2 * strideIn && strideIn == Pow2(l - 1) * s
      requires Partial(x, tabIn[..], wk, prootPow[l], l, s, m)
      modifies this, tabOut
      ensures Valid() && (ok <==> l <= NTT_TRIG_K_MAX)
      ensures ok ==> Partial(x, tabOut[..], wk, prootPow[l - 1], l - 1, 2 * s, m)
    {
      var trig := GetTrig(l);
      if trig.None? {
        return false;
      }
      assert RootedAt(l);
      Pass(tabIn, tabOut, Pow2(l - 1), s, strideIn, trig.value, prootPow[l], m);
      RowsBounded(tabOut[..], tabIn[..], s, strideIn, prootPow[l], m, Pow2(l - 1));
      PassAdvances(x, tabIn[..], tabOut[..], wk, prootPow[l], prootPow[l - 1], l, s, m);
      return true;
    }

    /** ntt_fft: the transform of `inBuf` in natural order; `outBuf` may be `inBuf`. */
    method Fft(outBuf: array<Limb>, inBuf: array<Limb>, tmpBuf: array<Limb>, fftLenLog2: nat) returns (ok: bool)
      requires Valid() && 1 <= fftLenLog2 <= NTT_PROOT_2EXP
      requires inBuf != tmpBuf && outBuf != tmpBuf
      requires outBuf.Length == inBuf.Length == tmpBuf.Length == Pow2(fftLenLog2)
      requires forall i :: 0 <= i < inBuf.Length ==> inBuf[i] < 2 * m
      modifies this, outBuf, inBuf, tmpBuf
      ensures Valid() && (fftLenLog2 <= NTT_TRIG_K_MAX ==> ok)
      ensures ok ==> forall t :: 0 <= t < outBuf.Length ==>
        Final(outBuf[..], old(inBuf[..]), prootPow[fftLenLog2], m, t)
    {
      ghost var x, wk := inBuf[..], prootPow[fftLenLog2];
      var n := Pow2(fftLenLog2);
      var nbBlocks, fftPerBlock, strideIn := n, 1, n / 2;
      var tabIn, tabOut := inBuf, tmpBuf;
      var l := fftLenLog2;
      PartialStarts(x, wk, l, m);
      while nbBlocks != 2
        invariant Valid() && 1 <= l <= fftLenLog2 && nbBlocks == Pow2(l) && fftPerBlock >= 1
        invariant (tabIn == inBuf && tabOut == tmpBuf) || (tabIn == tmpBuf && tabOut == inBuf)
        invariant Partial(x, tabIn[..], wk, prootPow[l], l, fftPerBlock, m)
        decreases l
      {
        MoreBlocks(l);
        Stride(l, fftPerBlock, n);
        nbBlocks := nbBlocks / 2;
        ok := OnePass(tabIn, tabOut, l, fftPerBlock, strideIn, x, wk);
        if !ok {
          return;
        }
        fftPerBlock := fftPerBlock * 2;
        l := l - 1;
        tabIn, tabOut := tabOut, tabIn;
      }
      TwoBlocks(l);
      Stride(l, fftPerBlock, n);
      assert Pow2(0) == 1 && RootedAt(1);
      LastStep(tabIn, outBuf, strideIn, m, x, wk, prootPow[1]);
      return true;
    }
  }

  lemma Stride(l: nat, s: nat, n: nat)
    requires l >= 1 && n == Pow2(l) * s
    ensures n / 2 == Pow2(l - 1) * s && n == 2 * (n / 2)
  {
    var h := Pow2(l - 1);
    assert Pow2(l) == 2 * h;
    assert (2 * h) * s == 2 * (h * s);
  }

  lemma MoreBlocks(l: nat)
    requires l >= 1 && Pow2(l) != 2
    ensures l >= 2 && Pow2(l) == 2 * Pow2(l - 1)
  {
  }

  lemma TwoBlocks(l: nat)
    requires l >= 1 && Pow2(l) == 2
    ensures l == 1
  {
  }

  /** The loop of get_trig. */
  method MakeTable(cMul: Limb, cMulInv: Limb, n2: nat, m: Limb) returns (tab: seq<Limb>)
    requires Modulus(m) && cMul < m && cMulInv == InitMulModFast2(cMul, m)
    ensures Table(tab, cMul, n2, m)
  {
    tab := [];
    var c: Limb := 1;
    var i := 0;
    assert PowI(cMul, 0) == 1;
    while i < n2
      invariant 0 <= i <= n2 && c == PowI(cMul, i) % m && Table(tab, cMul, i, m)
    {
      TableStep(tab, cMul, i, m, c);
      tab := tab + [c, InitMulModFast2(c, m)];
      NextPower(cMul, i, c, m);
      c := MulModFast2(c, cMul, m, cMulInv);
      i := i + 1;
    }
  }

  lemma TableStep(tab: seq<Limb>, w: Limb, i: nat, m: Limb, c: Limb)
    requires Table(tab, w, i, m) && c == PowI(w, i) % m && c < m
    ensures Table(tab + [c, InitMulModFast2(c, m)], w, i + 1, m)
  {
    var t := tab + [c, InitMulModFast2(c, m)];
    forall j | 0 <= j < i + 1 ensures Twiddle(t, w, j, m) {
      if j < i { assert Twiddle(tab, w, j, m); }
    }
  }

  lemma NextPower(w: Limb, i: nat, c: Limb, m: Limb)
    requires Modulus(m) && c == PowI(w, i) % m
    ensures c * w % m == PowI(w, i + 1) % m
  {
    CongMod(PowI(w, i), m);
    CongRefl(w, m);
    CongMul(c, PowI(w, i), w, w, m);
    CongMod(c * w, m);
    CongTrans(c * w % m, c * w, PowI(w, i + 1), m);
    ModUnique(c * w % m, PowI(w, i + 1), m);
  }
}
