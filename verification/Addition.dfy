/** bf_add and bf_sub of Sources/SubstrataQuickJS/libbf.c: the exact sum, of which only
    as many limbs are computed as the rounding needs, is rounded as section 4.3 of
    IEEE 754-2019 demands. */
module Addition {

  import opened Limbs
  import opened Bits
  import opened Bitwise
  import opened Rounding
  import opened Arithmetic

  // ---------------------------------------------------------------------
  // Alignment
  // ---------------------------------------------------------------------

  /** Two mantissas as numbers of `tot` limbs; that of `b` lies `d` bits lower. */
  ghost predicate Laid(a: seq<Limb>, b: seq<Limb>, d: nat, tot: nat, p: nat, q: nat) {
    && |a| <= tot && 64 * (tot - |b|) >= d
    && p == Num(Padded(a, tot), 0, tot) < Pow(tot)
    && q == Num(b, 0, |b|) * Pow2(64 * (tot - |b|) - d) < Pow(tot)
  }

  lemma LayOut(a: seq<Limb>, b: seq<Limb>, d: nat, tot: nat) returns (p: nat, q: nat)
    requires |a| <= tot && 64 * (tot - |b|) >= d
    ensures Laid(a, b, d, tot, p, q) && d <= 64 * tot && q < Pow2(64 * tot - d)
  {
    var k := 64 * (tot - |b|) - d;
    p, q := Num(Padded(a, tot), 0, tot), Num(b, 0, |b|) * Pow2(k);
    NumBound(Padded(a, tot), 0, tot);
    NumBound(b, 0, |b|);
    MulStrict(Num(b, 0, |b|), Pow(|b|), Pow2(k));
    LimbPower(|b|);
    Pow2Add(64 * |b|, k);
    LimbPower(tot);
    Pow2Monotone(64 * tot - d, 64 * tot);
  }

  lemma LaidMagnitudes(a: seq<Limb>, b: seq<Limb>, ea: int, eb: int, tot: nat, p: nat, q: nat)
    requires ea >= eb && Laid(a, b, ea - eb, tot, p, q)
    ensures Magnitude(Num(a, 0, |a|), |a|, ea) == Times(p, TwoTo(ea - 64 * tot))
    ensures Magnitude(Num(b, 0, |b|), |b|, eb) == Times(q, TwoTo(ea - 64 * tot))
  {
    var k := 64 * (tot - |b|) - (ea - eb);
    PaddedMagnitude(a, tot, ea);
    TwoToAdd(ea - 64 * tot, k);
    assert ea - 64 * tot + k == eb - 64 * |b|;
    TimesTimes(Num(b, 0, |b|), Pow2(k), TwoTo(ea - 64 * tot));
  }

  lemma WholeWindow(m: nat, a: nat, k: nat, i: nat)
    requires a == m * Pow2(k)
    ensures Window(m, 64 * i - k) == Window(a, 64 * i)
  {
    if 64 * i >= k {
      Pow2Add(k, 64 * i - k);
      DivDiv(a, Pow2(k), Pow2(64 * i - k));
      DivUnique(a, Pow2(k), m, 0);
    } else {
      Pow2Add(k - 64 * i, 64 * i);
      Associative(m, Pow2(k - 64 * i), Pow2(64 * i));
      DivUnique(a, Pow2(64 * i), m * Pow2(k - 64 * i), 0);
    }
  }

  /** A limb of the upper number. */
  lemma UpperLimb(a: seq<Limb>, tot: nat, j: nat)
    requires |a| <= tot && j < tot
    ensures LimbOrZero(a, |a|, |a| - tot + j) == Padded(a, tot)[j] == Window(Num(Padded(a, tot), 0, tot), 64 * j)
  {
    WindowAligned(Padded(a, tot), tot, j);
  }

  // ---------------------------------------------------------------------
  // Cancelled bits
  // ---------------------------------------------------------------------

  /** How far the numbers are apart, seen down to limb `j`. */
  function Difference(p: nat, q: nat, j: nat): int {
    p / Pow(j) - q / Pow(j)
  }

  lemma NextQuotient(p: nat, j: nat)
    ensures p / Pow(j) == 0x1_0000_0000_0000_0000 * (p / Pow(j + 1)) + Window(p, 64 * j)
  {
    LimbPower(j);
    DivDiv(p, Pow(j), 0x1_0000_0000_0000_0000);
    Commute(Pow(j), 0x1_0000_0000_0000_0000);
  }

  /** One limb more to look at. */
  lemma DifferenceBelow(p: nat, q: nat, j: nat)
    ensures Difference(p, q, j) == 0x1_0000_0000_0000_0000 * Difference(p, q, j + 1) + Window(p, 64 * j) - Window(q, 64 * j)
  {
    NextQuotient(p, j);
    NextQuotient(q, j);
  }

  lemma DifferenceSign(p: nat, q: nat, j: nat)
    requires p > q
    ensures Difference(p, q, j) >= 0 && Difference(p, q, 0) == p - q
  {
    DivMonotone(q, p, Pow(j));
    assert Pow(0) == 1;
  }

  lemma DifferenceAtTop(p: nat, q: nat, tot: nat)
    requires p < Pow(tot) && q < Pow(tot)
    ensures Difference(p, q, tot) == 0
  {
    DivSmall(p, Pow(tot));
    DivSmall(q, Pow(tot));
  }

  /** What is seen bounds the whole difference from below. */
  lemma DifferenceBound(p: nat, q: nat, j: nat, x: nat)
    requires Difference(p, q, j) >= 1 + Pow2(x)
    ensures 2 * (p - q) >= Pow2(64 * j + x + 1)
  {
    BitsAt(j, x);
    KeptRest(p, Pow(j));
    KeptRest(q, Pow(j));
    FarApart(p, q, p / Pow(j), q / Pow(j), p % Pow(j), q % Pow(j), Pow(j), Pow2(x));
    assert Pow2(64 * j + x + 1) == 2 * Pow2(64 * j + x);
  }

  lemma BitsAt(j: nat, x: nat)
    ensures Pow2(64 * j + x) == Pow2(x) * Pow(j)
  {
    LimbPower(j);
    Pow2Add(x, 64 * j);
  }

  lemma FarApart(p: int, q: int, pd: int, qd: int, pr: int, qr: int, P: int, w: int)
    requires p == pd * P + pr && q == qd * P + qr && 0 <= pr < P && 0 <= qr < P && pd - qd >= 1 + w
    ensures p - q > w * P
  {
    MulMonotone(qd + 1 + w, pd, P);
    assert (qd + 1 + w) * P == qd * P + P + w * P;
  }

  /** The run of zeros over ones in words of `r` bits; `w2` is the second one inverted. */
  lemma RunLength(w1: Limb, w2: Limb, r: nat)
    requires 1 <= r <= 64 && w1 < Pow2(r) && w2 < Pow2(r)
    ensures var p1 := Min(LeadingZeros(w1), LeadingZeros(w2)) - (64 - r);
      && 0 <= p1 <= r && (p1 == r <==> w1 == 0 && w2 == 0)
      && (p1 < r ==> w1 as int + w2 >= Pow2(r - p1 - 1))
  {
    ZerosBound(w1, r);
    ZerosBound(w2, r);
  }

  function Min(x: int, y: int): int {
    if x < y then x else y
  }

  lemma Inverted(v1: nat, v2: nat, r: nat, d: nat)
    requires d > 0 && v1 / d == v2 / d + 1
    ensures v1 - v2 == 1 + v1 % d + (d - 1 - v2 % d)
  {
    assert v1 == v1 / d * d + v1 % d && v2 == v2 / d * d + v2 % d;
    assert (v2 / d + 1) * d == v2 / d * d + d;
  }

  lemma InvertedLow(v: Limb, r: nat)
    requires r <= 64
    ensures (0xFFFF_FFFF_FFFF_FFFF - v) % Pow2(r) == Pow2(r) - 1 - v % Pow2(r)
  {
    LimbBits();
    Pow2Add(64 - r, r);
    var d, h := Pow2(r), Pow2(64 - r);
    KeptRest(v, d);
    InvertedParts(0xFFFF_FFFF_FFFF_FFFF, v, h, d, v / d, v % d);
    DivUnique(0xFFFF_FFFF_FFFF_FFFF - v, d, h - 1 - v / d, d - 1 - v % d);
  }

  lemma InvertedParts(ones: int, v: int, h: int, d: int, t: int, r: int)
    requires ones == h * d - 1 && v == t * d + r
    ensures ones - v == (h - 1 - t) * d + (d - 1 - r)
  {
    assert (h - 1 - t) * d == h * d - d - t * d;
  }

  /** The first limbs that differ: how many bits of them cancel, and whether more may. */
  method FirstLimbs(v1: Limb, v2: Limb) returns (n: nat)
    requires v1 > v2
    ensures 1 <= n <= 64 && if n == 64 then v1 - v2 == 1 else v1 as int - v2 >= 1 + Pow2(63 - n)
  {
    FirstDifference(v1, v2);
    var p := LeadingZeros(LogicOp1(XOR, v1, v2)) + 1;
    n := p;
    p := 64 - p;
    Inverted(v1, v2, p, Pow2(p));
    if p > 0 {
      var mask := LowMask(p);
      var w1, w2 := LogicOp1(AND, v1, mask), LogicOp1(AND, LogicOp1(XOR, v2, 0xFFFF_FFFF_FFFF_FFFF), mask);
      XorLimb(v2, true);
      MaskedLimb(v1, p);
      MaskedLimb(0xFFFF_FFFF_FFFF_FFFF - v2, p);
      InvertedLow(v2, p);
      RunLength(w1, w2, p);
      var p1 := Min(LeadingZeros(w1), LeadingZeros(w2)) - (64 - p);
      n := n + p1;
    }
  }

  /** The limb of the upper number and the bits of the lower one beside it. */
  method Beside(a: seq<Limb>, b: seq<Limb>, bitOffset: int, bOffset: int, ghost d: nat, ghost tot: nat, ghost p: nat,
                ghost q: nat, ghost j: int) returns (v1: Limb, v2: Limb)
    requires Laid(a, b, d, tot, p, q) && -1 <= j < tot
    requires bitOffset == (|a| - tot + j) * 64 + 63 && bOffset == (|b| - |a|) * 64 - 63 + d
    ensures if j >= 0 then v1 == Window(p, 64 * j) && v2 == Window(q, 64 * j) else v1 == 0 && v2 == 0
  {
    v1 := LimbOrZero(a, |a|, bitOffset / 64);
    v2 := GetBits(b, |b|, bitOffset + bOffset);
    ghost var k: int := 64 * (tot - |b|) - d;
    assert bitOffset + bOffset == 64 * j - k;
    if j >= 0 {
      UpperLimb(a, tot, j);
      WholeWindow(Num(b, 0, |b|), q, k, j);
    } else {
      WindowBelow(b, |b|, k + 64);
    }
  }

  /** The limbs at which the run of zeros over ones ends. */
  method LastLimbs(v1: Limb, v2: Limb) returns (n: nat)
    requires v1 != 0 || v2 != 0xFFFF_FFFF_FFFF_FFFF
    ensures n < 64 && v1 as int + 0xFFFF_FFFF_FFFF_FFFF - v2 >= Pow2(63 - n)
    ensures v2 == 0 ==> n == 0
  {
    var inverted := LogicOp1(XOR, v2, 0xFFFF_FFFF_FFFF_FFFF);
    XorLimb(v2, true);
    WholeRun(v1, inverted);
    n := Min(LeadingZeros(v1), LeadingZeros(inverted));
  }

  lemma WholeRun(w1: Limb, w2: Limb)
    requires w1 != 0 || w2 != 0
    ensures var n := Min(LeadingZeros(w1), LeadingZeros(w2));
      0 <= n < 64 && w1 as int + w2 >= Pow2(63 - n) && (w2 == 0xFFFF_FFFF_FFFF_FFFF ==> n == 0)
  {
    LimbBits();
    RunLength(w1, w2, 64);
  }

  /** The last loop of count_cancelled_bits: zeros over ones, limb by limb. */
  method FollowingLimbs(a: seq<Limb>, b: seq<Limb>, bitOffset0: int, bOffset: int, ghost d: nat, ghost tot: nat,
                        ghost p: nat, ghost q: nat, ghost j0: nat) returns (n: nat)
    requires Laid(a, b, d, tot, p, q) && p > q && j0 < tot && Difference(p, q, j0) == 1
    requires bitOffset0 == (|a| - tot + j0 - 1) * 64 + 63 && bOffset == (|b| - |a|) * 64 - 63 + d
    ensures n <= 64 * j0 && 2 * (p - q) >= Pow2(64 * j0 - n)
  {
    var bitOffset := bitOffset0;
    ghost var j: int := j0 - 1;
    n := 0;
    var v1, v2 := Beside(a, b, bitOffset, bOffset, d, tot, p, q, j);
    while v1 == 0 && v2 == 0xFFFF_FFFF_FFFF_FFFF
      invariant -1 <= j < j0 && bitOffset == (|a| - tot + j) * 64 + 63 && n == 64 * (j0 - 1 - j)
      invariant Difference(p, q, j + 1) == 1
      invariant if j >= 0 then v1 == Window(p, 64 * j) && v2 == Window(q, 64 * j) else v1 == 0 && v2 == 0
      decreases j
    {
      DifferenceBelow(p, q, j);
      n, bitOffset, j := n + 64, bitOffset - 64, j - 1;
      v1, v2 := Beside(a, b, bitOffset, bOffset, d, tot, p, q, j);
    }
    var p1 := LastLimbs(v1, v2);
    n := n + p1;
    if j >= 0 {
      DifferenceBelow(p, q, j);
      DifferenceBound(p, q, j, 63 - p1);
      assert 64 * j0 - n == 64 * j + (63 - p1) + 1;
    } else {
      DifferenceSign(p, q, 0);
      assert n == 64 * j0 && Pow2(0) == 1;
    }
  }

  /** count_cancelled_bits: at most this many bits of the difference are lost at the top. */
  method CountCancelledBits(a: seq<Limb>, b: seq<Limb>, d: nat, ghost tot: nat, ghost p: nat, ghost q: nat) returns (n: nat)
    requires Laid(a, b, d, tot, p, q) && p > q
    ensures n <= 64 * tot && 2 * (p - q) >= Pow2(64 * tot - n)
  {
    var bitOffset: int := |a| * 64 - 1;
    var bOffset := (|b| - |a|) * 64 - 63 + d;
    ghost var j: int := tot - 1;
    n := 0;
    assert Pow(0) == 1;
    DifferenceAtTop(p, q, tot);
    var v1, v2 := Beside(a, b, bitOffset, bOffset, d, tot, p, q, j);
    while v1 == v2
      invariant 0 <= j < tot && bitOffset == (|a| - tot + j) * 64 + 63 && n == 64 * (tot - 1 - j)
      invariant Difference(p, q, j + 1) == 0 && v1 == Window(p, 64 * j) && v2 == Window(q, 64 * j)
      decreases j
    {
      DifferenceBelow(p, q, j);
      DifferenceSign(p, q, j);
      n, bitOffset, j := n + 64, bitOffset - 64, j - 1;
      v1, v2 := Beside(a, b, bitOffset, bOffset, d, tot, p, q, j);
    }
    DifferenceBelow(p, q, j);
    DifferenceSign(p, q, j);
    var c := FirstLimbs(v1, v2);
    n := n + c;
    if c != 64 {
      DifferenceBound(p, q, j, 63 - c);
      return;
    }
    var more := FollowingLimbs(a, b, bitOffset - 64, bOffset, d, tot, p, q, j);
    n := n + more;
  }

  // ---------------------------------------------------------------------
  // The limbs of the sum
  // ---------------------------------------------------------------------

  /** The first addend: the limbs of `a` with zero limbs below. */
  ghost predicate First(s: seq<Limb>, a: seq<Limb>, tot: nat) {
    |s| == tot >= |a| && forall i :: 0 <= i < tot ==> s[i] == LimbOrZero(a, |a|, |a| - tot + i)
  }

  /** The second addend: the bits of `b`, moved up by `k`, and inverted if `neg`. */
  ghost predicate Second(s: seq<Limb>, b: seq<Limb>, tot: nat, k: int, neg: bool) {
    |s| == tot && forall i :: 0 <= i < tot ==> s[i] == LogicOp1(XOR, Window(Num(b, 0, |b|), 64 * i - k), MaskOf(neg))
  }

  /** The addends, and what they are as numbers. */
  lemma Addends(a: seq<Limb>, b: seq<Limb>, d: nat, tot: nat, p: nat, q: nat, neg: bool)
    returns (s1: seq<Limb>, s2: seq<Limb>)
    requires Laid(a, b, d, tot, p, q)
    ensures First(s1, a, tot) && Second(s2, b, tot, 64 * (tot - |b|) - d, neg)
    ensures Num(s1, 0, tot) == p && Num(s2, 0, tot) == if neg then Pow(tot) - 1 - q else q
  {
    var k := 64 * (tot - |b|) - d;
    s1 := Padded(a, tot);
    s2 := seq(tot, i requires 0 <= i < tot => LogicOp1(XOR, Window(q, 64 * i), MaskOf(neg)));
    forall i | 0 <= i < tot ensures s2[i] == LogicOp1(XOR, Window(Num(b, 0, |b|), 64 * i - k), MaskOf(neg)) {
      WholeWindow(Num(b, 0, |b|), q, k, i);
    }
    AddendNum(s2, q, neg, tot);
    DivSmall(q, Pow(tot));
  }

  lemma {:induction false} AddendNum(s: seq<Limb>, q: nat, neg: bool, n: nat)
    requires n <= |s| && forall i :: 0 <= i < |s| ==> s[i] == LogicOp1(XOR, Window(q, 64 * i), MaskOf(neg))
    ensures Num(s, 0, n) == if neg then Pow(n) - 1 - q % Pow(n) else q % Pow(n)
  {
    if n > 0 {
      AddendNum(s, q, neg, n - 1);
      XorLimb(Window(q, 64 * (n - 1)), neg);
      NextWindow(q, n - 1);
      InvertedDigit(Window(q, 64 * (n - 1)), q % Pow(n - 1), Pow(n - 1));
    }
  }

  /** One limb more of a number. */
  lemma NextWindow(q: nat, n: nat)
    ensures q % Pow(n + 1) == q % Pow(n) + Window(q, 64 * n) * Pow(n)
  {
    LimbPower(n);
    DivDiv(q, Pow(n), 0x1_0000_0000_0000_0000);
  }

  lemma InvertedDigit(x: int, low: int, p: int)
    ensures (p - 1 - low) + (0xFFFF_FFFF_FFFF_FFFF - x) * p == 0x1_0000_0000_0000_0000 * p - 1 - (low + x * p)
  {
  }

  method AddLimb(v1: Limb, v2: Limb, carry: Limb) returns (d: Limb, carry1: Limb)
    requires carry <= 1
    ensures carry1 <= 1 && d + carry1 * 0x1_0000_0000_0000_0000 == v1 + v2 + carry
  {
    var u := Wrap(v1 + v2);
    carry1 := if u < v1 then 1 else 0;
    ghost var k1 := carry1;
    d := Wrap(u + carry);
    carry1 := if d < carry || carry1 == 1 then 1 else 0;
    AddDigit(v1, v2, carry, u, k1, d, carry1);
  }

  /** Subtracting is adding the inverted limbs and one. */
  function FirstCarry(isSub: bool): Limb {
    if isSub then 1 else 0
  }

  /** The `k` lowest limbs of the sum have been looked at: the carry out of them, and
      whether they are all zero. */
  ghost predicate Below(s1: seq<Limb>, s2: seq<Limb>, isSub: bool, k: nat, carry: Limb, nz: bool) {
    && k <= |s1| == |s2|
    && var low := Num(s1, 0, k) + Num(s2, 0, k) + FirstCarry(isSub);
       carry == low / Pow(k) && (nz <==> low % Pow(k) != 0)
  }

  lemma BelowStep(s1: seq<Limb>, s2: seq<Limb>, isSub: bool, k: nat, carry: Limb, nz: bool, u: Limb, carry1: Limb)
    requires Below(s1, s2, isSub, k, carry, nz) && k < |s1|
    requires u + carry1 * 0x1_0000_0000_0000_0000 == s1[k] + s2[k] + carry
    ensures Below(s1, s2, isSub, k + 1, carry1, nz || u != 0)
  {
    var low := Num(s1, 0, k) + Num(s2, 0, k) + FirstCarry(isSub);
    var R := low % Pow(k);
    KeptRest(low, Pow(k));
    ColumnOnTop(low, carry, R, s1[k], s2[k], u, carry1, Pow(k));
    DigitOnTop(u, R, Pow(k));
    DivUnique(low + s1[k] * Pow(k) + s2[k] * Pow(k), Pow(k + 1), carry1, u * Pow(k) + R);
    NonZeroSum(u, Pow(k), R);
  }

  lemma ColumnOnTop(low: int, carry: int, R: int, x: int, y: int, u: int, carry1: int, p: int)
    requires low == carry * p + R && u + carry1 * 0x1_0000_0000_0000_0000 == x + y + carry
    ensures low + x * p + y * p == carry1 * (0x1_0000_0000_0000_0000 * p) + (u * p + R)
  {
    assert (u + carry1 * 0x1_0000_0000_0000_0000) * p == u * p + carry1 * (0x1_0000_0000_0000_0000 * p);
    assert (x + y + carry) * p == x * p + y * p + carry * p;
  }

  lemma DigitOnTop(u: Limb, R: int, p: int)
    requires 0 <= R < p
    ensures 0 <= u * p + R < 0x1_0000_0000_0000_0000 * p
  {
    MulMonotone(u + 1, 0x1_0000_0000_0000_0000, p);
    assert (u + 1) * p == u * p + p;
    MulMonotone(0, u, p);
  }

  /** Between the mantissas nothing changes. */
  lemma {:induction false} BelowGap(s1: seq<Limb>, s2: seq<Limb>, isSub: bool, k: nat, n: nat, carry: Limb, nz: bool)
    requires Below(s1, s2, isSub, k, carry, nz) && k <= n <= |s1| && carry <= 1
    requires if isSub then carry == 1 || nz else carry == 0
    requires forall i :: k <= i < n ==> s1[i] == 0 && s2[i] == MaskOf(isSub)
    ensures Below(s1, s2, isSub, n, carry, nz)
    decreases n - k
  {
    if k < n {
      BelowStep(s1, s2, isSub, k, carry, nz, if isSub && carry == 0 then 0xFFFF_FFFF_FFFF_FFFF else 0, carry);
      BelowGap(s1, s2, isSub, k + 1, n, carry, nz);
    }
  }

  /** Where `b` has no bits. */
  lemma NoBits(b: seq<Limb>, pos: int)
    requires pos + 64 <= 0 || pos >= 64 * |b|
    ensures Window(Num(b, 0, |b|), pos) == 0
  {
    if pos >= 64 * |b| { WindowBeyond(b, |b|, pos); } else { WindowBelow(b, |b|, -pos); }
  }

  lemma MaskOfZero(isSub: bool)
    ensures LogicOp1(XOR, 0, MaskOf(isSub)) == MaskOf(isSub)
  {
    XorLimb(0, isSub);
  }

  /** What one round of the first loop reads. */
  method SkippedPair(a: seq<Limb>, b: seq<Limb>, ap: int, bp: int, isSub: bool) returns (v1: Limb, v2: Limb, inside: bool)
    requires ap < |a|
    ensures v1 == LimbOrZero(a, |a|, ap) && v2 == LogicOp1(XOR, Window(Num(b, 0, |b|), bp), MaskOf(isSub))
    ensures !inside ==> ap < 0 && (bp + 64 <= 0 || bp >= |b| * 64)
  {
    inside := false;
    v1, v2 := 0, 0;
    if 0 <= ap < |a| {
      v1, inside := a[ap], true;
    }
    if bp + 64 > 0 && bp < |b| * 64 {
      v2 := GetBits(b, |b|, bp);
      inside := true;
    } else {
      NoBits(b, bp);
    }
    v2 := LogicOp1(XOR, v2, MaskOf(isSub));
  }

  /** Outside both mantissas the limbs are zero up to where one of them begins. */
  lemma GapZeros(s1: seq<Limb>, s2: seq<Limb>, a: seq<Limb>, b: seq<Limb>, tot: nat, k: int, isSub: bool, j: nat, n: nat)
    requires First(s1, a, tot) && Second(s2, b, tot, k, isSub) && n <= tot - |a|
    requires 64 * j - k >= |b| * 64 || 64 * n - k <= 0
    ensures forall i :: j <= i < n ==> s1[i] == 0 && s2[i] == MaskOf(isSub)
  {
    forall i | j <= i < n
      ensures s1[i] == 0 && s2[i] == MaskOf(isSub)
    {
      NoBits(b, 64 * i - k);
      MaskOfZero(isSub);
    }
  }

  lemma PassGap(s1: seq<Limb>, s2: seq<Limb>, a: seq<Limb>, b: seq<Limb>, k: int, isSub: bool, j: nat, n: nat, carry: Limb,
                nz: bool)
    requires First(s1, a, |s1|) && Second(s2, b, |s1|, k, isSub) && j < n <= |s1| - |a|
    requires 64 * j - k >= |b| * 64 || 64 * n - k <= 0
    requires Below(s1, s2, isSub, j + 1, carry, nz) && carry <= 1 && if isSub then carry == 1 || nz else carry == 0
    ensures Below(s1, s2, isSub, n, carry, nz)
  {
    GapZeros(s1, s2, a, b, |s1|, k, isSub, j, n);
    BelowGap(s1, s2, isSub, j + 1, n, carry, nz);
  }

  /** Where the first loop goes from outside both mantissas. */
  function AfterGap(i: int, ap: int, bp: int, aOffset: int, bBitOffset: int): int {
    var i1 := if ap < 0 then Min(0, -aOffset) else 0;
    if bp + 64 <= 0 then Min(i1, -bBitOffset / 64) else i1
  }

  /** One round of the first loop, which passes over the space between the mantissas. */
  method SkipStep(a: seq<Limb>, b: seq<Limb>, aOffset: int, bBitOffset: int, i0: int, isSub: bool, carry0: Limb, nz0: bool,
                  ghost rLen: nat, ghost k: int, ghost s1: seq<Limb>, ghost s2: seq<Limb>)
    returns (i: int, carry: Limb, nz: bool)
    requires First(s1, a, |s1|) && Second(s2, b, |s1|, k, isSub) && rLen - |s1| <= i0 < 0 && carry0 <= 1
    requires aOffset == |a| - rLen && bBitOffset == 64 * (|s1| - rLen) - k
    requires Below(s1, s2, isSub, i0 + |s1| - rLen, carry0, nz0)
    ensures i0 < i <= 0 && carry <= 1 && Below(s1, s2, isSub, i + |s1| - rLen, carry, nz)
  {
    ghost var j := i0 + |s1| - rLen;
    var ap, bp := aOffset + i0, bBitOffset + i0 * 64;
    var v1, v2, inside := SkippedPair(a, b, ap, bp, isSub);
    assert v1 == s1[j] && v2 == s2[j] && (!inside ==> v1 == 0 && v2 == MaskOf(isSub)) by {
      if !inside { NoBits(b, bp); MaskOfZero(isSub); }
    }
    i := if inside then i0 + 1 else AfterGap(i0, ap, bp, aOffset, bBitOffset);
    var u;
    u, carry := AddLimb(v1, v2, carry0);
    nz := nz0 || u != 0;
    BelowStep(s1, s2, isSub, j, carry0, nz0, u, carry);
    if !inside {
      PassGap(s1, s2, a, b, k, isSub, j, i + |s1| - rLen, carry, nz);
    }
  }

  /** The first loop of bf_add_internal: the carry out of the limbs that are not kept,
      and whether they are all zero. */
  method SkippedLimbs(a: seq<Limb>, b: seq<Limb>, rLen: nat, totLen: nat, d: nat, isSub: bool, ghost s1: seq<Limb>,
                      ghost s2: seq<Limb>) returns (carry: Limb, nz: bool)
    requires First(s1, a, totLen) && Second(s2, b, totLen, 64 * (totLen - |b|) - d, isSub) && rLen <= totLen
    ensures carry <= 1 && Below(s1, s2, isSub, totLen - rLen, carry, nz)
  {
    var aOffset, bBitOffset := |a| - rLen, (|b| - rLen) * 64 + d;
    carry, nz := FirstCarry(isSub), false;
    var i := rLen - totLen;
    assert Pow(0) == 1;
    while i < 0
      invariant rLen - totLen <= i <= 0 && carry <= 1 && Below(s1, s2, isSub, i + totLen - rLen, carry, nz)
      decreases -i
    {
      i, carry, nz := SkipStep(a, b, aOffset, bBitOffset, i, isSub, carry, nz, rLen, 64 * (totLen - |b|) - d, s1, s2);
    }
  }

  /** The `i` lowest limbs of `t` with `carry` above them are the sum of those of `s1`
      and `s2` from `skip` on, and `c0`. */
  ghost predicate Summing(t: seq<Limb>, s1: seq<Limb>, s2: seq<Limb>, skip: nat, i: nat, carry: nat, c0: nat) {
    && i <= |t| && skip + |t| == |s1| == |s2|
    && Num(t, 0, i) + carry * Pow(i) == Num(s1, skip, i) + Num(s2, skip, i) + c0
  }

  lemma SummingStep(t: seq<Limb>, s1: seq<Limb>, s2: seq<Limb>, skip: nat, i: nat, carry: Limb, c0: nat, u: Limb, carry1: Limb)
    requires Summing(t, s1, s2, skip, i, carry, c0) && i < |t|
    requires u + carry1 * 0x1_0000_0000_0000_0000 == s1[skip + i] + s2[skip + i] + carry
    ensures Summing(t[i := u], s1, s2, skip, i + 1, carry1, c0)
  {
    Column(t, t[i := u], 0, i, carry1, carry, 1, s1, skip, 1, s2, skip, c0);
  }

  method KeptPair(a: seq<Limb>, b: seq<Limb>, ap: int, bp: int, isSub: bool, ghost tot: nat, ghost k: int, ghost j: nat,
                  ghost s1: seq<Limb>, ghost s2: seq<Limb>) returns (v1: Limb, v2: Limb)
    requires First(s1, a, tot) && Second(s2, b, tot, k, isSub) && j < tot && ap == |a| - tot + j && bp == 64 * j - k
    ensures v1 == s1[j] && v2 == s2[j]
  {
    v1 := LimbOrZero(a, |a|, ap);
    v2 := GetBits(b, |b|, bp);
    v2 := LogicOp1(XOR, v2, MaskOf(isSub));
  }

  /** The second loop: the limbs that are kept. */
  method KeptLimbs(a: seq<Limb>, b: seq<Limb>, rLen: nat, d: nat, isSub: bool, carry0: Limb, ghost tot: nat,
                   ghost s1: seq<Limb>, ghost s2: seq<Limb>) returns (t: seq<Limb>, carry: Limb)
    requires First(s1, a, tot) && Second(s2, b, tot, 64 * (tot - |b|) - d, isSub) && rLen <= tot && carry0 <= 1
    ensures |t| == rLen && carry <= 1 && Summing(t, s1, s2, tot - rLen, rLen, carry, carry0)
  {
    var aOffset, bBitOffset := |a| - rLen, (|b| - rLen) * 64 + d;
    t, carry := seq(rLen, _ => 0), carry0;
    var i := 0;
    while i < rLen
      invariant 0 <= i <= rLen == |t| && carry <= 1 && Summing(t, s1, s2, tot - rLen, i, carry, carry0)
    {
      var v1, v2 := KeptPair(a, b, aOffset + i, bBitOffset + i * 64, isSub, tot, 64 * (tot - |b|) - d, tot - rLen + i, s1, s2);
      var u, carry1 := AddLimb(v1, v2, carry);
      SummingStep(t, s1, s2, tot - rLen, i, carry, carry0, u, carry1);
      t, carry := t[i := u], carry1;
      i := i + 1;
    }
  }

  /** Both loops together: `t` with the carry are the limbs of the sum without the lowest
      ones, which leave `R`. */
  lemma WholeSum(s1: seq<Limb>, s2: seq<Limb>, isSub: bool, p: nat, q: nat, tot: nat, rLen: nat, carry0: Limb, nz: bool,
                 t: seq<Limb>, carry: Limb) returns (R: nat)
    requires rLen <= tot == |s1| == |s2| && |t| == rLen && carry <= 1 && (isSub ==> p >= q)
    requires p == Num(s1, 0, tot) && Num(s2, 0, tot) == if isSub then Pow(tot) - 1 - q else q
    requires Below(s1, s2, isSub, tot - rLen, carry0, nz)
    requires Summing(t, s1, s2, tot - rLen, rLen, carry, carry0)
    ensures R < Pow(tot - rLen) && nz == (R != 0)
    ensures if isSub then p - q == Num(t, 0, rLen) * Pow(tot - rLen) + R
            else p + q == (Num(t, 0, rLen) + carry * Pow(rLen)) * Pow(tot - rLen) + R
  {
    var skip := tot - rLen;
    R := Remainder(s1, s2, isSub, tot, rLen, carry0, nz, t, carry);
    PowAdd(rLen, skip);
    NumBound(t, 0, rLen);
    if isSub {
      CarryOfDifference(p - q, Num(t, 0, rLen), carry, R, Pow(rLen), Pow(skip));
    }
  }

  lemma Remainder(s1: seq<Limb>, s2: seq<Limb>, isSub: bool, tot: nat, rLen: nat, carry0: Limb, nz: bool, t: seq<Limb>,
                  carry: Limb) returns (R: nat)
    requires rLen <= tot == |s1| == |s2| && |t| == rLen
    requires Below(s1, s2, isSub, tot - rLen, carry0, nz) && Summing(t, s1, s2, tot - rLen, rLen, carry, carry0)
    ensures R < Pow(tot - rLen) && nz == (R != 0)
    ensures Num(s1, 0, tot) + Num(s2, 0, tot) + FirstCarry(isSub)
         == (Num(t, 0, rLen) + carry * Pow(rLen)) * Pow(tot - rLen) + R
  {
    var skip := tot - rLen;
    var low := Num(s1, 0, skip) + Num(s2, 0, skip) + FirstCarry(isSub);
    R := low % Pow(skip);
    KeptRest(low, Pow(skip));
    NumSplit(s1, 0, skip, rLen);
    NumSplit(s2, 0, skip, rLen);
    OnePart(low, carry0, R, Num(s1, skip, rLen), Num(s2, skip, rLen), Pow(skip));
  }

  lemma OnePart(low: int, carry0: int, R: int, x: int, y: int, p: int)
    requires low == carry0 * p + R
    ensures low + x * p + y * p == (x + y + carry0) * p + R
  {
  }

  /** A difference that is not negative has a carry. */
  lemma CarryOfDifference(n: nat, t: nat, carry: int, R: nat, P: int, p: int)
    requires t < P && R < p && 0 <= carry <= 1 && n + P * p == (t + carry * P) * p + R
    ensures n == t * p + R
  {
    MulMonotone(t + 1, P, p);
    assert (t + 1) * p == t * p + p;
    assert carry == 1 ==> (t + carry * P) * p == t * p + P * p;
  }

  // ---------------------------------------------------------------------
  // Enough bits
  // ---------------------------------------------------------------------

  /** How many bits the sum loses at the top, at most. */
  method Cancelled(a: seq<Limb>, b: seq<Limb>, d: nat, isSub: bool, ghost tot: nat, ghost p: nat, ghost q: nat) returns (c: nat)
    requires NormalForm(a) && Laid(a, b, d, tot, p, q) && d <= 64 * tot && q < Pow2(64 * tot - d) && (isSub ==> p > q)
    ensures c <= 64 * tot && 2 * (if isSub then p - q else p + q) >= Pow2(64 * tot - c)
  {
    TopBit(Padded(a, tot), tot);
    assert Pow2(64 * tot) == 2 * Pow2(64 * tot - 1);
    if isSub {
      if d <= 1 {
        c := CountCancelledBits(a, b, d, tot, p, q);
      } else {
        c := 1;
        Pow2Monotone(64 * tot - d, 64 * tot - 2);
      }
    } else {
      c := 0;
    }
  }

  /** What is kept has enough bits for the rounding. */
  lemma EnoughBits(n: nat, Q: nat, R: nat, rLen: nat, skip: nat, c: nat, prec: nat)
    requires n == Q * Pow(skip) + R && R < Pow(skip) && 64 * rLen >= c + prec + 2
    requires 2 * n >= Pow2(64 * (rLen + skip) - c)
    ensures Q >= Pow2(prec + 1)
  {
    var x := 64 * rLen - c;
    BitsAt(skip, x);
    assert Pow2(x) == 2 * Pow2(x - 1);
    Associative(2, Pow2(x - 1), Pow(skip));
    Pow2Monotone(prec + 1, x - 1);
    assert (Q + 1) * Pow(skip) == Q * Pow(skip) + Pow(skip);
    if Q < Pow2(x - 1) {
      MulMonotone(Q + 1, Pow2(x - 1), Pow(skip));
    }
  }

  lemma OddCarry(x: nat, carry: nat, n: nat)
    requires n >= 1
    ensures Odd(x) + carry * Pow(n) == Odd(x + carry * Pow(n))
  {
    var h := 0x8000_0000_0000_0000 * Pow(n - 1);
    assert Pow(n) == 2 * h;
    Associative(carry, 2, h);
    EvenAdded(x, carry * h);
    assert carry * Pow(n) == 2 * (carry * h);
  }

  /** The length of the exact sum. */
  function SumLength(la: nat, lb: nat, d: nat): (l: nat)
    ensures l >= la && 64 * (l - lb) >= d
  {
    var lower := lb + (d + 63) / 64;
    if la > lower then la else lower
  }

  /** Both loops. */
  method BothLoops(a: seq<Limb>, b: seq<Limb>, d: nat, isSub: bool, rLen: nat, totLen: nat, ghost p: nat, ghost q: nat)
    returns (t: seq<Limb>, carry: Limb, nz: bool, ghost Q: nat, ghost R: nat)
    requires Laid(a, b, d, totLen, p, q) && rLen <= totLen && (isSub ==> p >= q)
    ensures |t| == rLen && carry <= 1 && R < Pow(totLen - rLen) && nz == (R != 0)
    ensures Q == Num(t, 0, rLen) + if isSub then 0 else carry * Pow(rLen)
    ensures (if isSub then p - q else p + q) == Q * Pow(totLen - rLen) + R
  {
    ghost var s1, s2 := Addends(a, b, d, totLen, p, q, isSub);
    var carry0;
    carry0, nz := SkippedLimbs(a, b, rLen, totLen, d, isSub, s1, s2);
    t, carry := KeptLimbs(a, b, rLen, d, isSub, carry0, totLen, s1, s2);
    R := WholeSum(s1, s2, isSub, p, q, totLen, rLen, carry0, nz, t, carry);
    Q := Num(t, 0, rLen) + if isSub then 0 else carry * Pow(rLen);
  }

  /** The lowest bit stands for all limbs that are not kept. */
  method SetLowest(t0: seq<Limb>, nz: bool) returns (t: seq<Limb>)
    requires t0 != []
    ensures |t| == |t0| && Num(t, 0, |t|) == if nz then Odd(Num(t0, 0, |t0|)) else Num(t0, 0, |t0|)
  {
    OddLimb(t0);
    t := if nz then t0[0 := Odd(t0[0])] else t0;
  }

  /** The limbs before normalising: the highest `rLen` of the sum, with the lowest bit set
      if the others are not all zero. */
  method SumLimbs(a: seq<Limb>, b: seq<Limb>, d: nat, isSub: bool, prec: nat, ghost p: nat, ghost q: nat, ghost tot: nat)
    returns (t: seq<Limb>, carry: Limb, ghost Q: nat, ghost R: nat, ghost m: nat)
    requires NormalForm(a) && prec >= 1 && (isSub ==> p > q)
    requires tot == SumLength(|a|, |b|, d) && Laid(a, b, d, tot, p, q) && d <= 64 * tot && q < Pow2(64 * tot - d)
    ensures 1 <= |t| <= tot && R < Pow(tot - |t|) && (|t| < tot ==> Q >= Pow2(prec + 1))
    ensures (if isSub then p - q else p + q) == Q * Pow(tot - |t|) + R
    ensures carry <= 1 && m == (if R == 0 then Q else Odd(Q))
    ensures m == Num(t, 0, |t|) + if isSub then 0 else carry * Pow(|t|)
  {
    var totLen := SumLength(|a|, |b|, d);
    var c := Cancelled(a, b, d, isSub, totLen, p, q);
    var precl := (c + prec + 2 + 63) / 64;
    var rLen := if precl < totLen then precl else totLen;
    var nz;
    t, carry, nz, Q, R := BothLoops(a, b, d, isSub, rLen, totLen, p, q);
    if rLen < totLen {
      EnoughBits(if isSub then p - q else p + q, Q, R, rLen, totLen - rLen, c, prec);
    }
    OddCarry(Num(t, 0, rLen), carry, rLen);
    m := if R == 0 then Q else Odd(Q);
    t := SetLowest(t, nz);
  }

  // ---------------------------------------------------------------------
  // Rounding
  // ---------------------------------------------------------------------

  lemma SumBetween(n: nat, Q: nat, R: nat, skip: nat, lu: int)
    requires n == Q * Pow(skip) + R && R < Pow(skip)
    ensures var X, u := Times(n, TwoTo(lu - 64 * skip)), TwoTo(lu);
      if R == 0 then X == Times(Q, u) else Times(Q, u) < X < Times(Q + 1, u)
  {
    var t := TwoTo(lu - 64 * skip);
    TwoToAdd(lu - 64 * skip, 64 * skip);
    LimbPower(skip);
    TimesTimes(Q, Pow(skip), t);
    TimesTimes(Q + 1, Pow(skip), t);
    assert (Q + 1) * Pow(skip) == Q * Pow(skip) + Pow(skip);
    ScaleCompare(Q * Pow(skip), n, t);
    ScaleCompare(n, (Q + 1) * Pow(skip), t);
  }

  lemma SumOrDifference(p: nat, q: nat, t: real, isSub: bool)
    requires isSub ==> p > q
    ensures if isSub then Times(p - q, t) == Times(p, t) - Times(q, t) else Times(p + q, t) == Times(p, t) + Times(q, t)
  {
    TimesAdd(p, q, t);
    if isSub { TimesAdd(p - q, q, t); }
  }

  /** The number that is normalised, with the carry as another limb. */
  lemma WithCarry(t: seq<Limb>, carry: bool, m: nat, expn: int)
    requires m == Num(t, 0, |t|) + if carry then Pow(|t|) else 0
    ensures var tab, e := if carry then t + [1] else t, if carry then expn + 64 else expn;
      Num(tab, 0, |tab|) == m && Magnitude(m, |tab|, e) == Times(m, TwoTo(expn - 64 * |t|))
  {
    if carry { NumSame(t, t + [1], 0, |t|); }
  }

  ghost function MagnitudeOf(a: BF): real
    reads a
  {
    Magnitude(Num(a.tab, 0, |a.tab|), |a.tab|, a.expn)
  }

  /** The sum or the difference of two magnitudes before it is rounded: `X` is the exact
      one, `m` the mantissa in units 2^lu. */
  method SumParts(a: seq<Limb>, ea: int, b: seq<Limb>, eb: int, isSub: bool, prec: nat)
    returns (t: seq<Limb>, carry: Limb, ghost X: real, ghost Q: nat, ghost R: nat, ghost m: nat, ghost lu: int)
    requires NormalForm(a) && prec >= 1 && ea >= eb
    requires isSub ==> Magnitude(Num(a, 0, |a|), |a|, ea) > Magnitude(Num(b, 0, |b|), |b|, eb)
    ensures var A, B := Magnitude(Num(a, 0, |a|), |a|, ea), Magnitude(Num(b, 0, |b|), |b|, eb);
      X == if isSub then A - B else A + B
    ensures m == (if R == 0 then Q else Odd(Q)) && (R != 0 ==> Q >= Pow2(prec + 1))
    ensures var u := TwoTo(lu); if R == 0 then X == Times(Q, u) else Times(Q, u) < X < Times(Q + 1, u)
    ensures carry <= 1 && m == Num(t, 0, |t|) + (if isSub then 0 else carry * Pow(|t|)) && lu == ea - 64 * |t|
  {
    var d := ea - eb;
    ghost var tot := SumLength(|a|, |b|, d);
    ghost var p, q := LayOut(a, b, d, tot);
    LaidMagnitudes(a, b, ea, eb, tot, p, q);
    ScaleCompare(q, p, TwoTo(ea - 64 * tot));
    SumOrDifference(p, q, TwoTo(ea - 64 * tot), isSub);
    t, carry, Q, R, m := SumLimbs(a, b, d, isSub, prec, p, q, tot);
    lu := ea - 64 * |t|;
    assert lu - 64 * (tot - |t|) == ea - 64 * tot;
    X := Times(if isSub then p - q else p + q, TwoTo(ea - 64 * tot));
    SumBetween(if isSub then p - q else p + q, Q, R, tot - |t|, lu);
  }

  /** The last branch of bf_add_internal: two magnitudes other than zero, the first of
      which is not smaller, nor equal in a subtraction. */
  method AddMagnitudes(a: BF, b: BF, aSign: bool, isSub: bool, prec: nat, flags: Flags, ghost x: real)
    returns (r: BF, ret: Status, ghost y: real, ghost e: int, ghost ey: int)
    requires NormalForm(a.tab) && a.expn >= b.expn && prec >= 1 && Demands(prec, 0, flags) && !flags.radpnt
    requires isSub ==> MagnitudeOf(a) > MagnitudeOf(b)
    requires x == SignedReal(aSign, if isSub then MagnitudeOf(a) - MagnitudeOf(b) else MagnitudeOf(a) + MagnitudeOf(b)) != 0.0
    ensures fresh(r) && r.sign == aSign && Correct(r, x, prec, flags, ret, y, e, ey)
  {
    ghost var X, Q, R, m, lu;
    var t, carry;
    t, carry, X, Q, R, m, lu := SumParts(a.tab, a.expn, b.tab, b.expn, isSub, prec);
    WithCarry(t, !isSub && carry != 0, m, a.expn);
    assert Times(0, TwoTo(lu)) == 0.0;
    r := new BF();
    r.sign, r.expn, r.tab := aSign, a.expn, t;
    if !isSub && carry != 0 {
      r.expn, r.tab := r.expn + 64, t + [1];
    }
    ret, y, e, ey := r.NormalizeAndRound(prec, flags);
    StickyCorrect(r, aSign, X, Q, R, m, lu, prec, flags, ret, y, e, ey);
  }

  /** The exact sum, or the difference if `bNeg`. */
  ghost function SumValue(a: BF, b: BF, bNeg: bool): real
    reads a, b
  {
    Value(a.sign, a.expn, a.tab) + SignedReal(bNeg, Value(b.sign, b.expn, b.tab))
  }

  lemma FiniteMagnitude(a: BF)
    requires Finite(a)
    ensures MagnitudeOf(a) >= 0.0 && (MagnitudeOf(a) == 0.0 <==> |a.tab| == 0)
  {
    if |a.tab| != 0 {
      TopBit(a.tab, |a.tab|);
      FullMagnitude(Num(a.tab, 0, |a.tab|), |a.tab|, a.expn);
    }
  }

  /** bf_add_internal from where the operand with the greater magnitude comes first. */
  method AddOrdered(a: BF, b: BF, aSign: bool, isSub: bool, equal: bool, prec: nat, flags: Flags, ghost x: real)
    returns (r: BF, ret: Status, ghost y: real, ghost e: int, ghost ey: int)
    requires Finite(a) && Finite(b) && prec >= 1 && Demands(prec, 0, flags) && !flags.radpnt
    requires MagnitudeOf(a) >= MagnitudeOf(b) && equal == (MagnitudeOf(a) == MagnitudeOf(b))
    requires x == SignedReal(aSign, if isSub then MagnitudeOf(a) - MagnitudeOf(b) else MagnitudeOf(a) + MagnitudeOf(b))
    ensures fresh(r)
    ensures x == 0.0 ==> r.IsZero() && ret == Status(false, false, false) && r.sign == if isSub then flags.rnd == RNDD else aSign
    ensures x != 0.0 ==> Correct(r, x, prec, flags, ret, y, e, ey) && r.sign == (x < 0.0)
  {
    LowerExponent(a.expn, a.tab, b.expn, b.tab);
    FiniteMagnitude(a);
    FiniteMagnitude(b);
    y, e, ey := 0.0, 0, 0;
    if equal && isSub {
      r := new BF();
      r.sign := flags.rnd == RNDD;
      ret := Status(false, false, false);
    } else if |a.tab| == 0 || |b.tab| == 0 {
      r, ret, y, e, ey := CopyRounded(a, aSign, prec, flags);
    } else {
      r, ret, y, e, ey := AddMagnitudes(a, b, aSign, isSub, prec, flags, x);
    }
  }

  /** The branch in which the smaller operand is zero. */
  method CopyRounded(a: BF, aSign: bool, prec: nat, flags: Flags)
    returns (r: BF, ret: Status, ghost y: real, ghost e: int, ghost ey: int)
    requires Finite(a) && prec >= 1 && Demands(prec, 0, flags)
    ensures fresh(r) && r.sign == aSign
    ensures |a.tab| == 0 ==> r.IsZero() && ret == Status(false, false, false)
    ensures |a.tab| != 0 ==> Correct(r, SignedReal(aSign, MagnitudeOf(a)), prec, flags, ret, y, e, ey)
  {
    if |a.tab| != 0 { NotZero(a.tab); }
    r := new BF();
    r.sign, r.expn, r.tab := aSign, a.expn, a.tab;
    ret, y, e, ey := r.NormalizeAndRound(prec, flags);
  }

  /** bf_add_internal for finite numbers: the sum, correctly rounded. A sum of zero is
      negative if both operands are, and if they cancel while rounding down. */
  method AddInternal(a: BF, b: BF, prec: nat, flags: Flags, bNeg: bool, ghost x: real)
    returns (r: BF, ret: Status, ghost y: real, ghost e: int, ghost ey: int)
    requires Finite(a) && Finite(b) && prec >= 1 && Demands(prec, 0, flags) && !flags.radpnt
    requires x == SumValue(a, b, bNeg)
    ensures fresh(r)
    ensures x == 0.0 ==> r.IsZero() && ret == Status(false, false, false)
    ensures x == 0.0 ==> r.sign == if a.IsZero() && a.sign == (b.sign != bNeg) then a.sign else flags.rnd == RNDD
    ensures x != 0.0 ==> Correct(r, x, prec, flags, ret, y, e, ey) && r.sign == (x < 0.0)
  {
    var aSign, bSign := a.sign, b.sign != bNeg;
    var isSub := aSign != bSign;
    var c := Cmpu(a, b);
    var big, small := a, b;
    if c < 0 {
      big, small, aSign := b, a, bSign;
    }
    FiniteMagnitude(a);
    FiniteMagnitude(b);
    r, ret, y, e, ey := AddOrdered(big, small, aSign, isSub, c == 0, prec, flags, x);
  }

  /** bf_add */
  method Add(a: BF, b: BF, prec: nat, flags: Flags)
    returns (r: BF, ret: Status, ghost x: real, ghost y: real, ghost e: int, ghost ey: int)
    requires Finite(a) && Finite(b) && prec >= 1 && Demands(prec, 0, flags) && !flags.radpnt
    ensures x == Value(a.sign, a.expn, a.tab) + Value(b.sign, b.expn, b.tab) && fresh(r)
    ensures x == 0.0 ==> r.IsZero() && ret == Status(false, false, false)
    ensures x == 0.0 ==> r.sign == if a.IsZero() && a.sign == b.sign then a.sign else flags.rnd == RNDD
    ensures x != 0.0 ==> Correct(r, x, prec, flags, ret, y, e, ey) && r.sign == (x < 0.0)
  {
    x := SumValue(a, b, false);
    r, ret, y, e, ey := AddInternal(a, b, prec, flags, false, x);
  }

  /** bf_sub */
  method Sub(a: BF, b: BF, prec: nat, flags: Flags)
    returns (r: BF, ret: Status, ghost x: real, ghost y: real, ghost e: int, ghost ey: int)
    requires Finite(a) && Finite(b) && prec >= 1 && Demands(prec, 0, flags) && !flags.radpnt
    ensures x == Value(a.sign, a.expn, a.tab) - Value(b.sign, b.expn, b.tab) && fresh(r)
    ensures x == 0.0 ==> r.IsZero() && ret == Status(false, false, false)
    ensures x == 0.0 ==> r.sign == if a.IsZero() && a.sign != b.sign then a.sign else flags.rnd == RNDD
    ensures x != 0.0 ==> Correct(r, x, prec, flags, ret, y, e, ey) && r.sign == (x < 0.0)
  {
    x := SumValue(a, b, true);
    r, ret, y, e, ey := AddInternal(a, b, prec, flags, true, x);
  }
}
