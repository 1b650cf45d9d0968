/** Natural numbers stored as little-endian arrays of 64-bit limbs, and the
    carry loops of Sources/SubstrataQuickJS/libbf.c that work on them in place.

    A C pointer into a limb array is an array with an offset. Unsigned
    arithmetic that wraps is written out with `Wrap` (64 bits) and `Wrap2`
    (128 bits). */
module Limbs {

  type Limb = x: int | 0 <= x < 0x1_0000_0000_0000_0000

  /** The value a 64-bit register holds after an operation whose exact result is `x`. */
  function Wrap(x: int): Limb { x % 0x1_0000_0000_0000_0000 }

  /** The value a 128-bit register holds after an operation whose exact result is `x`. */
  function Wrap2(x: int): int { x % 0x1_0000_0000_0000_0000_0000_0000_0000_0000 }

  // ---------------------------------------------------------------------
  // The number in a window of limbs
  // ---------------------------------------------------------------------

  /** The limb base 2^64 to the power `n`. */
  function Pow(n: nat): (r: nat)
    ensures r > 0
  {
    if n == 0 then 1 else 0x1_0000_0000_0000_0000 * Pow(n - 1)
  }

  /** The number in the `n` limbs of `s` that start at `off`, least significant first. */
  function Num(s: seq<Limb>, off: nat, n: nat): nat
    requires off + n <= |s|
  {
    if n == 0 then 0 else Num(s, off, n - 1) + s[off + n - 1] * Pow(n - 1)
  }

  lemma Commute(x: int, y: int)
    ensures x * y == y * x
  {
  }

  lemma Associative(x: int, y: int, z: int)
    ensures x * (y * z) == (x * y) * z
  {
  }

  lemma NextMultiple(q: int, d: int)
    ensures (q + 1) * d == q * d + d
  {
  }

  lemma MulMonotone(x: int, y: int, z: int)
    requires x <= y && 0 <= z
    ensures x * z <= y * z
  {
  }

  lemma MulStrict(x: int, y: int, z: int)
    requires x < y && 0 < z
    ensures x * z < y * z
  {
  }

  /** Quotient and remainder by `d` are unique. */
  lemma QuotientUnique(q1: int, r1: int, q2: int, r2: int, d: int)
    requires 0 <= r1 < d && 0 <= r2 < d
    requires r1 + q1 * d == r2 + q2 * d
    ensures q1 == q2 && r1 == r2
  {
    assert (q1 + 1) * d == q1 * d + d && (q2 + 1) * d == q2 * d + d;
    if q1 < q2 {
      MulMonotone(q1 + 1, q2, d);
    } else if q2 < q1 {
      MulMonotone(q2 + 1, q1, d);
    }
  }

  lemma {:induction false} PowAdd(m: nat, n: nat)
    ensures Pow(m + n) == Pow(m) * Pow(n)
  {
    if m > 0 {
      PowAdd(m - 1, n);
      assert (0x1_0000_0000_0000_0000 * Pow(m - 1)) * Pow(n) == 0x1_0000_0000_0000_0000 * (Pow(m - 1) * Pow(n));
    }
  }

  lemma {:induction false} PowMonotone(m: nat, n: nat)
    requires m <= n
    ensures Pow(m) <= Pow(n)
    ensures m < n ==> 0x1_0000_0000_0000_0000 * Pow(m) <= Pow(n)
    decreases n
  {
    if m < n { PowMonotone(m, n - 1); }
  }

  lemma {:induction false} NumSame(s: seq<Limb>, t: seq<Limb>, off: nat, n: nat)
    requires off + n <= |s| && off + n <= |t|
    requires forall j :: off <= j < off + n ==> s[j] == t[j]
    ensures Num(s, off, n) == Num(t, off, n)
  {
    if n > 0 { NumSame(s, t, off, n - 1); }
  }

  lemma {:induction false} NumMoved(s: seq<Limb>, so: nat, t: seq<Limb>, to: nat, n: nat)
    requires so + n <= |s| && to + n <= |t|
    requires forall j :: so <= j < so + n ==> s[j] == t[j - so + to]
    ensures Num(s, so, n) == Num(t, to, n)
  {
    if n > 0 { NumMoved(s, so, t, to, n - 1); }
  }

  lemma {:induction false} NumZero(s: seq<Limb>, off: nat, n: nat)
    requires off + n <= |s|
    requires forall j :: off <= j < off + n ==> s[j] == 0
    ensures Num(s, off, n) == 0
  {
    if n > 0 { NumZero(s, off, n - 1); }
  }

  lemma {:induction false} NumBound(s: seq<Limb>, off: nat, n: nat)
    requires off + n <= |s|
    ensures Num(s, off, n) < Pow(n)
  {
    if n > 0 {
      NumBound(s, off, n - 1);
      var x: int, p := s[off + n - 1], Pow(n - 1);
      MulMonotone(x + 1, 0x1_0000_0000_0000_0000, p);
      assert x * p + p == (x + 1) * p;
    }
  }

  lemma Regroup(v: int, w: int, x: int, p: int, q: int)
    ensures v + w * p + x * (p * q) == v + (w + x * q) * p
  {
    assert x * (p * q) == (x * q) * p;
  }

  /** A window is its lower part plus its upper part shifted. */
  lemma {:induction false} NumSplit(s: seq<Limb>, off: nat, m: nat, n: nat)
    requires off + m + n <= |s|
    ensures Num(s, off, m + n) == Num(s, off, m) + Num(s, off + m, n) * Pow(m)
  {
    if n > 0 {
      NumSplit(s, off, m, n - 1);
      PowAdd(m, n - 1);
      Regroup(Num(s, off, m), Num(s, off + m, n - 1), s[off + m + n - 1], Pow(m), Pow(n - 1));
    }
  }

  lemma NumCons(s: seq<Limb>, off: nat, n: nat)
    requires off + n + 1 <= |s|
    ensures Num(s, off, n + 1) == s[off] + 0x1_0000_0000_0000_0000 * Num(s, off + 1, n)
  {
    NumSplit(s, off, 1, n);
    assert Num(s, off, 1) == Num(s, off, 0) + s[off] * Pow(0);
    assert Pow(1) == 0x1_0000_0000_0000_0000 * Pow(0);
  }

  // ---------------------------------------------------------------------
  // One column of a carry loop
  // ---------------------------------------------------------------------

  lemma ColumnArithmetic(o: int, x: int, k': int, k: int, c1: int, v1: int, a: int,
                         c2: int, v2: int, b: int, c0: int, p: int)
    requires o + k * p == c1 * v1 + c2 * v2 + c0
    requires x + k' * 0x1_0000_0000_0000_0000 == c1 * a + c2 * b + k
    ensures (o + x * p) + k' * (0x1_0000_0000_0000_0000 * p)
         == c1 * (v1 + a * p) + c2 * (v2 + b * p) + c0
  {
    assert (x + k' * 0x1_0000_0000_0000_0000) * p == x * p + k' * (0x1_0000_0000_0000_0000 * p);
    assert c1 * (v1 + a * p) == c1 * v1 + (c1 * a) * p;
    assert c2 * (v2 + b * p) == c2 * v2 + (c2 * b) * p;
    assert (c1 * a + c2 * b + k) * p == (c1 * a) * p + (c2 * b) * p + k * p;
  }

  /** One column of a carry loop that computes `c1 * s1 + c2 * s2 + c0` limb by
      limb: if the columns below balance with carry `k`, and this one balances
      with carry `k` in and `k'` out, then all of them together balance. */
  lemma Column(before: seq<Limb>, after: seq<Limb>, ro: nat, i: nat, k': int, k: int,
               c1: int, s1: seq<Limb>, o1: nat, c2: int, s2: seq<Limb>, o2: nat, c0: int)
    requires ro + i < |before| == |after| && o1 + i < |s1| && o2 + i < |s2|
    requires after == before[ro + i := after[ro + i]]
    requires Num(before, ro, i) + k * Pow(i) == c1 * Num(s1, o1, i) + c2 * Num(s2, o2, i) + c0
    requires after[ro + i] + k' * 0x1_0000_0000_0000_0000 == c1 * s1[o1 + i] + c2 * s2[o2 + i] + k
    ensures Num(after, ro, i + 1) + k' * Pow(i + 1)
         == c1 * Num(s1, o1, i + 1) + c2 * Num(s2, o2, i + 1) + c0
  {
    NumSame(before, after, ro, i);
    ColumnArithmetic(Num(before, ro, i), after[ro + i], k', k, c1, Num(s1, o1, i), s1[o1 + i],
                     c2, Num(s2, o2, i), s2[o2 + i], c0, Pow(i));
  }

  /** One column of a borrow loop that computes `s1 - c2 * s2 - c0`. */
  lemma BorrowColumn(before: seq<Limb>, after: seq<Limb>, ro: nat, i: nat, k': int, k: int,
                     s1: seq<Limb>, o1: nat, c2: int, s2: seq<Limb>, o2: nat, c0: int)
    requires ro + i < |before| == |after| && o1 + i < |s1| && o2 + i < |s2|
    requires after == before[ro + i := after[ro + i]]
    requires Num(before, ro, i) + c2 * Num(s2, o2, i) + c0 == Num(s1, o1, i) + k * Pow(i)
    requires after[ro + i] + c2 * s2[o2 + i] + k == s1[o1 + i] + k' * 0x1_0000_0000_0000_0000
    ensures Num(after, ro, i + 1) + c2 * Num(s2, o2, i + 1) + c0
         == Num(s1, o1, i + 1) + k' * Pow(i + 1)
  {
    NumSame(before, after, ro, i);
    ColumnArithmetic(Num(s1, o1, i), s1[o1 + i], k', k, 1, Num(before, ro, i), after[ro + i],
                     c2, Num(s2, o2, i), s2[o2 + i], c0, Pow(i));
  }

  lemma RestUnchanged(s: seq<Limb>, t: seq<Limb>, off: nat, i: nat, n: nat)
    requires i <= n && off + n <= |s| == |t|
    requires forall j :: off + i <= j < off + n ==> s[j] == t[j]
    ensures Num(t, off, n) - Num(t, off, i) == Num(s, off, n) - Num(s, off, i)
  {
    NumSplit(s, off, i, n - i);
    NumSplit(t, off, i, n - i);
    NumSame(s, t, off + i, n - i);
  }

  /** A carry loop may stop early once the carry is gone. */
  lemma EarlyStop(s: seq<Limb>, t: seq<Limb>, off: nat, i: nat, n: nat, k: int, d: int)
    requires i <= n && off + n <= |s| == |t|
    requires forall j :: off + i <= j < off + n ==> s[j] == t[j]
    requires i == n || k == 0
    requires Num(t, off, i) + k * Pow(i) == Num(s, off, i) + d
    ensures Num(t, off, n) + k * Pow(n) == Num(s, off, n) + d
  {
    RestUnchanged(s, t, off, i, n);
    if i < n {
      NoCarry(k, Pow(i));
      NoCarry(k, Pow(n));
    }
  }

  lemma NoCarry(k: int, p: int)
    requires k == 0
    ensures k * p == 0
  {
  }

  /** The two wrapping additions of mp_add give a digit and a carry. */
  lemma AddDigit(v: Limb, w: Limb, k: Limb, a: Limb, k1: Limb, r: Limb, k': Limb)
    requires k <= 1
    requires a == Wrap(v + w) && k1 == (if a < v then 1 else 0)
    requires r == Wrap(a + k) && k' == (if r < k || k1 == 1 then 1 else 0)
    ensures r + k' * 0x1_0000_0000_0000_0000 == v + w + k
  {
  }

  /** The two wrapping subtractions of mp_sub give a digit and a borrow. */
  lemma SubDigit(v: Limb, w: Limb, k: Limb, a: Limb, k1: Limb, r: Limb, k': Limb)
    requires k <= 1
    requires a == Wrap(v - w) && k1 == (if a > v then 1 else 0)
    requires r == Wrap(a - k) && k' == (if r > a || k1 == 1 then 1 else 0)
    ensures r + w + k == v + k' * 0x1_0000_0000_0000_0000
  {
  }

  lemma BorrowDigit(v: Limb, k: Limb, a: Limb, k': Limb)
    requires a == Wrap(v - k) && k' == (if a > v then 1 else 0)
    ensures a + k == v + k' * 0x1_0000_0000_0000_0000
  {
  }

  lemma ProductBound(x: Limb, b: Limb)
    ensures 0 <= x * b <= 0xFFFF_FFFF_FFFF_FFFF * 0xFFFF_FFFF_FFFF_FFFF
  {
    MulMonotone(x, 0xFFFF_FFFF_FFFF_FFFF, b);
    MulMonotone(0, x, b);
  }

  lemma HalvesOf(t: int)
    requires 0 <= t < 0x1_0000_0000_0000_0000_0000_0000_0000_0000
    ensures t % 0x1_0000_0000_0000_0000 + (t / 0x1_0000_0000_0000_0000) * 0x1_0000_0000_0000_0000 == t
    ensures 0 <= t / 0x1_0000_0000_0000_0000 < 0x1_0000_0000_0000_0000
  {
  }

  /** Low and high half of a product plus two limbs, which cannot wrap 128 bits. */
  lemma MulDigit(x: Limb, b: Limb, l: Limb, y: Limb, t: int)
    requires t == x * b + l + y
    ensures t % 0x1_0000_0000_0000_0000 + (t / 0x1_0000_0000_0000_0000) * 0x1_0000_0000_0000_0000 == t
    ensures 0 <= t / 0x1_0000_0000_0000_0000 < 0x1_0000_0000_0000_0000
  {
    ProductBound(x, b);
    HalvesOf(t);
  }

  lemma BorrowOf(d: int, t: int, l': Limb)
    requires -(0xFFFF_FFFF_FFFF_FFFF * 0xFFFF_FFFF_FFFF_FFFF + 0xFFFF_FFFF_FFFF_FFFF) <= d
    requires d < 0x1_0000_0000_0000_0000
    requires t == Wrap2(d)
    requires l' == Wrap(-(t / 0x1_0000_0000_0000_0000))
    ensures t % 0x1_0000_0000_0000_0000 - l' * 0x1_0000_0000_0000_0000 == d
  {
    var h := t / 0x1_0000_0000_0000_0000;
    if d >= 0 {
      assert t == d && h == 0;
    } else {
      assert t == d + 0x1_0000_0000_0000_0000_0000_0000_0000_0000;
      assert 0 < h < 0x1_0000_0000_0000_0000;
      assert l' == 0x1_0000_0000_0000_0000 - h;
    }
  }

  /** In mp_sub_mul1 the exact difference may be negative; the negated high
      half of its 128-bit image is the borrow. */
  lemma SubMulDigit(v: Limb, x: Limb, b: Limb, l: Limb, t: int, l': Limb)
    requires t == Wrap2(v - x * b - l)
    requires l' == Wrap(-(t / 0x1_0000_0000_0000_0000))
    ensures t % 0x1_0000_0000_0000_0000 + b * x + l == v + l' * 0x1_0000_0000_0000_0000
  {
    ProductBound(x, b);
    BorrowOf(v - x * b - l, t, l');
  }

  // ---------------------------------------------------------------------
  // The carry loops
  // ---------------------------------------------------------------------

  /** Two windows of `n` limbs either coincide or do not meet. */
  ghost predicate NoPartialOverlap(a: array<Limb>, ao: nat, b: array<Limb>, bo: nat, n: nat) {
    a != b || ao == bo || ao + n <= bo || bo + n <= ao
  }

  method MpAdd(res: array<Limb>, ro: nat, op1: array<Limb>, o1: nat, op2: array<Limb>, o2: nat,
               n: nat, carry: Limb)
    returns (k: Limb)
    requires ro + n <= res.Length && o1 + n <= op1.Length && o2 + n <= op2.Length
    requires NoPartialOverlap(res, ro, op1, o1, n) && NoPartialOverlap(res, ro, op2, o2, n)
    requires carry <= 1
    modifies res
    ensures k <= 1
    ensures Num(res[..], ro, n) + k * Pow(n)
         == old(Num(op1[..], o1, n)) + old(Num(op2[..], o2, n)) + carry
    ensures forall j :: 0 <= j < res.Length && !(ro <= j < ro + n) ==> res[j] == old(res[j])
  {
    ghost var s1: seq<Limb>, s2: seq<Limb> := op1[..], op2[..];
    k := carry;
    var i := 0;
    while i < n
      invariant i <= n && k <= 1
      invariant forall j :: o1 + i <= j < o1 + n ==> op1[j] == s1[j]
      invariant forall j :: o2 + i <= j < o2 + n ==> op2[j] == s2[j]
      invariant forall j :: 0 <= j < res.Length && !(ro <= j < ro + i) ==> res[j] == old(res[j])
      invariant Num(res[..], ro, i) + k * Pow(i)
             == 1 * Num(s1, o1, i) + 1 * Num(s2, o2, i) + carry
    {
      var v, w, k0 := op1[o1 + i], op2[o2 + i], k;
      var a := Wrap(v + w);
      var k1: Limb := if a < v then 1 else 0;
      var r := Wrap(a + k);
      k := if r < k || k1 == 1 then 1 else 0;
      AddDigit(v, w, k0, a, k1, r, k);
      ghost var before: seq<Limb> := res[..];
      res[ro + i] := r;
      Column(before, res[..], ro, i, k, k0, 1, s1, o1, 1, s2, o2, carry);
      i := i + 1;
    }
  }

  method MpAddUi(tab: array<Limb>, off: nat, b: Limb, n: nat) returns (k: Limb)
    requires off + n <= tab.Length
    modifies tab
    ensures n > 0 ==> k <= 1
    ensures Num(tab[..], off, n) + k * Pow(n) == old(Num(tab[..], off, n)) + b
    ensures forall j :: 0 <= j < tab.Length && !(off <= j < off + n) ==> tab[j] == old(tab[j])
  {
    ghost var s: seq<Limb> := tab[..];
    k := b;
    var i := 0;
    while i < n
      invariant i <= n && (i > 0 ==> k <= 1)
      invariant forall j :: 0 <= j < tab.Length && !(off <= j < off + i) ==> tab[j] == s[j]
      invariant Num(tab[..], off, i) + k * Pow(i) == 1 * Num(s, off, i) + 0 * Num(s, off, i) + b
    {
      if k == 0 { break; }
      var k0 := k;
      var a := Wrap(tab[off + i] + k);
      k := if a < k then 1 else 0;
      ghost var before: seq<Limb> := tab[..];
      tab[off + i] := a;
      Column(before, tab[..], off, i, k, k0, 1, s, off, 0, s, off, b);
      i := i + 1;
    }
    EarlyStop(s, tab[..], off, i, n, k, b);
  }

  method MpSub(res: array<Limb>, ro: nat, op1: array<Limb>, o1: nat, op2: array<Limb>, o2: nat,
               n: nat, carry: Limb)
    returns (k: Limb)
    requires ro + n <= res.Length && o1 + n <= op1.Length && o2 + n <= op2.Length
    requires NoPartialOverlap(res, ro, op1, o1, n) && NoPartialOverlap(res, ro, op2, o2, n)
    requires carry <= 1
    modifies res
    ensures k <= 1
    ensures Num(res[..], ro, n) + old(Num(op2[..], o2, n)) + carry
         == old(Num(op1[..], o1, n)) + k * Pow(n)
    ensures forall j :: 0 <= j < res.Length && !(ro <= j < ro + n) ==> res[j] == old(res[j])
  {
    ghost var s1: seq<Limb>, s2: seq<Limb> := op1[..], op2[..];
    k := carry;
    var i := 0;
    while i < n
      invariant i <= n && k <= 1
      invariant forall j :: o1 + i <= j < o1 + n ==> op1[j] == s1[j]
      invariant forall j :: o2 + i <= j < o2 + n ==> op2[j] == s2[j]
      invariant forall j :: 0 <= j < res.Length && !(ro <= j < ro + i) ==> res[j] == old(res[j])
      invariant Num(res[..], ro, i) + 1 * Num(s2, o2, i) + carry == Num(s1, o1, i) + k * Pow(i)
    {
      var v, w, k0 := op1[o1 + i], op2[o2 + i], k;
      var a := Wrap(v - w);
      var k1: Limb := if a > v then 1 else 0;
      var r := Wrap(a - k);
      k := if r > a || k1 == 1 then 1 else 0;
      SubDigit(v, w, k0, a, k1, r, k);
      ghost var before: seq<Limb> := res[..];
      res[ro + i] := r;
      BorrowColumn(before, res[..], ro, i, k, k0, s1, o1, 1, s2, o2, carry);
      i := i + 1;
    }
  }

  /** res = 0 - op2 - carry. */
  method MpNeg(res: array<Limb>, ro: nat, op2: array<Limb>, o2: nat, n: nat, carry: Limb)
    returns (k: Limb)
    requires ro + n <= res.Length && o2 + n <= op2.Length
    requires NoPartialOverlap(res, ro, op2, o2, n)
    requires carry <= 1
    modifies res
    ensures k <= 1
    ensures Num(res[..], ro, n) + old(Num(op2[..], o2, n)) + carry == k * Pow(n)
    ensures forall j :: 0 <= j < res.Length && !(ro <= j < ro + n) ==> res[j] == old(res[j])
  {
    ghost var s2: seq<Limb> := op2[..];
    ghost var s1: seq<Limb> := seq(n, _ => 0);
    k := carry;
    var i := 0;
    while i < n
      invariant i <= n && k <= 1
      invariant forall j :: o2 + i <= j < o2 + n ==> op2[j] == s2[j]
      invariant forall j :: 0 <= j < res.Length && !(ro <= j < ro + i) ==> res[j] == old(res[j])
      invariant Num(res[..], ro, i) + 1 * Num(s2, o2, i) + carry == Num(s1, 0, i) + k * Pow(i)
    {
      var v: Limb, w, k0 := 0, op2[o2 + i], k;
      var a := Wrap(v - w);
      var k1: Limb := if a > v then 1 else 0;
      var r := Wrap(a - k);
      k := if r > a || k1 == 1 then 1 else 0;
      SubDigit(v, w, k0, a, k1, r, k);
      ghost var before: seq<Limb> := res[..];
      res[ro + i] := r;
      BorrowColumn(before, res[..], ro, i, k, k0, s1, 0, 1, s2, o2, carry);
      i := i + 1;
    }
    NumZero(s1, 0, n);
  }

  method MpSubUi(tab: array<Limb>, off: nat, b: Limb, n: nat) returns (k: Limb)
    requires off + n <= tab.Length
    modifies tab
    ensures n > 0 ==> k <= 1
    ensures Num(tab[..], off, n) + b == old(Num(tab[..], off, n)) + k * Pow(n)
    ensures forall j :: 0 <= j < tab.Length && !(off <= j < off + n) ==> tab[j] == old(tab[j])
  {
    ghost var s: seq<Limb> := tab[..];
    k := b;
    var i := 0;
    while i < n
      invariant i <= n && (i > 0 ==> k <= 1)
      invariant forall j :: 0 <= j < tab.Length && !(off <= j < off + i) ==> tab[j] == s[j]
      invariant Num(tab[..], off, i) + 0 * Num(s, off, i) + b == Num(s, off, i) + k * Pow(i)
    {
      var v, k0 := tab[off + i], k;
      var a := Wrap(v - k);
      k := if a > v then 1 else 0;
      BorrowDigit(v, k0, a, k);
      ghost var before: seq<Limb> := tab[..];
      tab[off + i] := a;
      BorrowColumn(before, tab[..], off, i, k, k0, s, off, 0, s, off, b);
      i := i + 1;
      if k == 0 { break; }
    }
    EarlyStop(tab[..], s, off, i, n, k, b);
  }

  /** tabr = taba * b + l; returns the high carry. */
  method MpMul1(tabr: array<Limb>, ro: nat, taba: array<Limb>, ao: nat, n: nat, b: Limb, l0: Limb)
    returns (l: Limb)
    requires ro + n <= tabr.Length && ao + n <= taba.Length
    requires NoPartialOverlap(tabr, ro, taba, ao, n)
    modifies tabr
    ensures Num(tabr[..], ro, n) + l * Pow(n) == b * old(Num(taba[..], ao, n)) + l0
    ensures forall j :: 0 <= j < tabr.Length && !(ro <= j < ro + n) ==> tabr[j] == old(tabr[j])
  {
    ghost var s: seq<Limb> := taba[..];
    l := l0;
    var i := 0;
    while i < n
      invariant i <= n
      invariant forall j :: ao + i <= j < ao + n ==> taba[j] == s[j]
      invariant forall j :: 0 <= j < tabr.Length && !(ro <= j < ro + i) ==> tabr[j] == old(tabr[j])
      invariant Num(tabr[..], ro, i) + l * Pow(i) == b * Num(s, ao, i) + 0 * Num(s, ao, i) + l0
    {
      var t: int, k0 := taba[ao + i] * b + l, l;
      MulDigit(taba[ao + i], b, l, 0, t);
      l := t / 0x1_0000_0000_0000_0000;
      ghost var before: seq<Limb> := tabr[..];
      tabr[ro + i] := t % 0x1_0000_0000_0000_0000;
      Column(before, tabr[..], ro, i, l, k0, b, s, ao, 0, s, ao, l0);
      i := i + 1;
    }
  }

  /** tabr += taba * b; returns the high limb. */
  method MpAddMul1(tabr: array<Limb>, ro: nat, taba: array<Limb>, ao: nat, n: nat, b: Limb)
    returns (l: Limb)
    requires ro + n <= tabr.Length && ao + n <= taba.Length
    requires NoPartialOverlap(tabr, ro, taba, ao, n)
    modifies tabr
    ensures Num(tabr[..], ro, n) + l * Pow(n)
         == old(Num(tabr[..], ro, n)) + b * old(Num(taba[..], ao, n))
    ensures forall j :: 0 <= j < tabr.Length && !(ro <= j < ro + n) ==> tabr[j] == old(tabr[j])
  {
    ghost var s: seq<Limb>, r: seq<Limb> := taba[..], tabr[..];
    l := 0;
    var i := 0;
    while i < n
      invariant i <= n
      invariant forall j :: ao + i <= j < ao + n ==> taba[j] == s[j]
      invariant forall j :: 0 <= j < tabr.Length && !(ro <= j < ro + i) ==> tabr[j] == r[j]
      invariant Num(tabr[..], ro, i) + l * Pow(i) == b * Num(s, ao, i) + 1 * Num(r, ro, i) + 0
    {
      var t: int, k0 := taba[ao + i] * b + l + tabr[ro + i], l;
      MulDigit(taba[ao + i], b, l, tabr[ro + i], t);
      l := t / 0x1_0000_0000_0000_0000;
      ghost var before: seq<Limb> := tabr[..];
      tabr[ro + i] := t % 0x1_0000_0000_0000_0000;
      Column(before, tabr[..], ro, i, l, k0, b, s, ao, 1, r, ro, 0);
      i := i + 1;
    }
  }

  /** tabr -= taba * b; returns the limb to subtract from the next higher limb. */
  method MpSubMul1(tabr: array<Limb>, ro: nat, taba: array<Limb>, ao: nat, n: nat, b: Limb)
    returns (l: Limb)
    requires ro + n <= tabr.Length && ao + n <= taba.Length
    requires NoPartialOverlap(tabr, ro, taba, ao, n)
    modifies tabr
    ensures Num(tabr[..], ro, n) + b * old(Num(taba[..], ao, n))
         == old(Num(tabr[..], ro, n)) + l * Pow(n)
    ensures forall j :: 0 <= j < tabr.Length && !(ro <= j < ro + n) ==> tabr[j] == old(tabr[j])
  {
    ghost var s: seq<Limb>, r: seq<Limb> := taba[..], tabr[..];
    l := 0;
    var i := 0;
    while i < n
      invariant i <= n
      invariant forall j :: ao + i <= j < ao + n ==> taba[j] == s[j]
      invariant forall j :: 0 <= j < tabr.Length && !(ro <= j < ro + i) ==> tabr[j] == r[j]
      invariant Num(tabr[..], ro, i) + b * Num(s, ao, i) + 0 == Num(r, ro, i) + l * Pow(i)
    {
      var v, x, k0 := tabr[ro + i], taba[ao + i], l;
      var t := Wrap2(v - x * b - l);
      l := Wrap(-(t / 0x1_0000_0000_0000_0000));
      SubMulDigit(v, x, b, k0, t, l);
      ghost var before: seq<Limb> := tabr[..];
      tabr[ro + i] := t % 0x1_0000_0000_0000_0000;
      BorrowColumn(before, tabr[..], ro, i, l, k0, r, ro, b, s, ao, 0);
      i := i + 1;
    }
  }

  lemma ProductStep(lo: int, r: int, q: int, a: int, b1: int, bi: int, p: int)
    requires lo + q * p == a * b1 && r == q + bi * a
    ensures lo + r * p == a * (b1 + bi * p)
  {
    assert (q + bi * a) * p == q * p + a * (bi * p);
  }

  /** One row of the schoolbook product. */
  lemma ProductRow(before: seq<Limb>, after: seq<Limb>, ro: nat, n1: nat, a: nat,
                   s2: seq<Limb>, o2: nat, i: nat)
    requires ro + n1 + i + 1 <= |before| == |after| && o2 + i < |s2|
    requires forall j :: ro <= j < ro + i ==> after[j] == before[j]
    requires Num(before, ro, i + n1) == a * Num(s2, o2, i)
    requires Num(after, ro + i, n1 + 1) == Num(before, ro + i, n1) + s2[o2 + i] * a
    ensures Num(after, ro, i + 1 + n1) == a * Num(s2, o2, i + 1)
  {
    NumSplit(before, ro, i, n1);
    NumSame(before, after, ro, i);
    NumSplit(after, ro, i, n1 + 1);
    ProductStep(Num(before, ro, i), Num(after, ro + i, n1 + 1), Num(before, ro + i, n1), a,
                Num(s2, o2, i), s2[o2 + i], Pow(i));
  }

  /** result = op1 * op2, schoolbook method. */
  method MpMulBasecase(result: array<Limb>, ro: nat, op1: array<Limb>, o1: nat, n1: nat,
                       op2: array<Limb>, o2: nat, n2: nat)
    requires ro + n1 + n2 <= result.Length && o1 + n1 <= op1.Length && o2 + n2 <= op2.Length
    requires n2 >= 1 && result != op1 && result != op2
    modifies result
    ensures Num(result[..], ro, n1 + n2) == Num(op1[..], o1, n1) * Num(op2[..], o2, n2)
    ensures forall j :: 0 <= j < result.Length && !(ro <= j < ro + n1 + n2) ==> result[j] == old(result[j])
  {
    ghost var s1: seq<Limb>, s2: seq<Limb> := op1[..], op2[..];
    var h := MpMul1(result, ro, op1, o1, n1, op2[o2], 0);
    ghost var r0: seq<Limb> := result[..];
    result[ro + n1] := h;
    NumSame(r0, result[..], ro, n1);
    OneLimb(s2, o2);
    var i := 1;
    while i < n2
      invariant 1 <= i <= n2
      invariant forall j :: 0 <= j < result.Length && !(ro <= j < ro + i + n1) ==> result[j] == old(result[j])
      invariant Num(result[..], ro, i + n1) == Num(s1, o1, n1) * Num(s2, o2, i)
    {
      ghost var before: seq<Limb> := result[..];
      var r := MpAddMul1(result, ro + i, op1, o1, n1, op2[o2 + i]);
      ghost var r1: seq<Limb> := result[..];
      result[ro + i + n1] := r;
      NumSame(r1, result[..], ro + i, n1);
      ProductRow(before, result[..], ro, n1, Num(s1, o1, n1), s2, o2, i);
      i := i + 1;
    }
  }

  lemma OneLimb(s: seq<Limb>, off: nat)
    requires off < |s|
    ensures Num(s, off, 1) == s[off]
  {
    assert Num(s, off, 1) == Num(s, off, 0) + s[off] * Pow(0);
  }

  /** The copy loops: dst = src. */
  method CopyLimbs(dst: array<Limb>, dof: nat, src: array<Limb>, sof: nat, n: nat)
    requires dof + n <= dst.Length && sof + n <= src.Length && dst != src
    modifies dst
    ensures Num(dst[..], dof, n) == Num(src[..], sof, n)
    ensures forall j :: dof <= j < dof + n ==> dst[j] == src[j - dof + sof]
    ensures forall j :: 0 <= j < dst.Length && !(dof <= j < dof + n) ==> dst[j] == old(dst[j])
  {
    var i := 0;
    while i < n
      invariant 0 <= i <= n
      invariant forall j :: dof <= j < dof + i ==> dst[j] == src[j - dof + sof]
      invariant forall j :: 0 <= j < dst.Length && !(dof <= j < dof + i) ==> dst[j] == old(dst[j])
    {
      dst[dof + i] := src[sof + i];
      i := i + 1;
    }
    NumMoved(dst[..], dof, src[..], sof, n);
  }

  /** -1, 0 or 1 as the window of `taba` is below, equal to or above that of `tabb`. */
  method MpCmp(taba: array<Limb>, ao: nat, tabb: array<Limb>, bo: nat, n: nat) returns (c: int)
    requires ao + n <= taba.Length && bo + n <= tabb.Length
    ensures c == -1 || c == 0 || c == 1
    ensures c < 0 <==> Num(taba[..], ao, n) < Num(tabb[..], bo, n)
    ensures c > 0 <==> Num(taba[..], ao, n) > Num(tabb[..], bo, n)
  {
    ghost var s: seq<Limb>, t: seq<Limb> := taba[..], tabb[..];
    var i: int := n - 1;
    while i >= 0
      invariant -1 <= i < n
      invariant Num(s, ao, n) - Num(s, ao, i + 1) == Num(t, bo, n) - Num(t, bo, i + 1)
    {
      if taba[ao + i] != tabb[bo + i] {
        TopLimbDecides(s, ao, t, bo, i);
        TopLimbDecides(t, bo, s, ao, i);
        return if taba[ao + i] < tabb[bo + i] then -1 else 1;
      }
      i := i - 1;
    }
    return 0;
  }

  lemma TopLimbDecides(s: seq<Limb>, so: nat, t: seq<Limb>, to: nat, i: nat)
    requires so + i < |s| && to + i < |t|
    ensures s[so + i] < t[to + i] ==> Num(s, so, i + 1) < Num(t, to, i + 1)
  {
    NumBound(s, so, i);
    if s[so + i] < t[to + i] {
      var x: int, y: int := s[so + i], t[to + i];
      MulMonotone(x + 1, y, Pow(i));
      assert (x + 1) * Pow(i) == x * Pow(i) + Pow(i);
    }
  }

  /** Is some limb of the window not zero? */
  method MpScanNz(tab: array<Limb>, off: nat, n: nat) returns (nz: bool)
    requires off + n <= tab.Length
    ensures nz <==> Num(tab[..], off, n) != 0
  {
    var i := 0;
    while i < n
      invariant i <= n && Num(tab[..], off, i) == 0
    {
      if tab[off + i] != 0 {
        MulMonotone(1, tab[off + i], Pow(i));
        NumSplit(tab[..], off, i + 1, n - (i + 1));
        MulMonotone(0, Num(tab[..], off + i + 1, n - (i + 1)), Pow(i + 1));
        return true;
      }
      i := i + 1;
    }
    return false;
  }

  // ---------------------------------------------------------------------
  // Shifts
  // ---------------------------------------------------------------------

  function Pow2(n: nat): (r: nat)
    ensures r > 0
  {
    if n == 0 then 1 else 2 * Pow2(n - 1)
  }

  lemma {:induction false} Pow2Add(m: nat, n: nat)
    ensures Pow2(m + n) == Pow2(m) * Pow2(n)
  {
    if m > 0 {
      Pow2Add(m - 1, n);
      assert (2 * Pow2(m - 1)) * Pow2(n) == 2 * (Pow2(m - 1) * Pow2(n));
    }
  }

  lemma LimbBits()
    ensures Pow2(64) == 0x1_0000_0000_0000_0000
  {
    assert Pow2(8) == 256;
    Pow2Add(8, 8);
    Pow2Add(16, 16);
    Pow2Add(32, 32);
  }

  /** One limb of a right shift by D = 2^shift, with E = 2^(64-shift). */
  lemma ShiftDigit(a: Limb, l: Limb, x: int, D: nat, E: nat)
    requires 0 < D && D * E == 0x1_0000_0000_0000_0000
    requires x == a / D + Wrap(l * E)
    ensures 0 <= x < 0x1_0000_0000_0000_0000
    ensures x * D + a % D == (l % D) * 0x1_0000_0000_0000_0000 + a
  {
    var lq, lr := l / D, l % D;
    assert l == lq * D + lr;
    assert l * E == lq * (D * E) + lr * E;
    MulMonotone(lr + 1, D, E);
    assert (lr + 1) * E == lr * E + E;
    MulMonotone(0, lr, E);
    WrapMultiple(lq, lr * E);
    var aq := a / D;
    assert a == aq * D + a % D;
    if aq >= E {
      MulMonotone(E, aq, D);
    }
    assert (aq + lr * E) * D == aq * D + lr * (D * E);
  }

  lemma WrapMultiple(q: int, r: int)
    requires 0 <= r < 0x1_0000_0000_0000_0000
    ensures Wrap(q * 0x1_0000_0000_0000_0000 + r) == r
  {
  }

  lemma ShiftStep(x: int, q: int, D: int, a: int, lr: int, s: int, h: int, p: int)
    requires D > 0
    requires x * D + a % D == lr * 0x1_0000_0000_0000_0000 + a
    requires q * D + lr == s + h * p
    ensures (x + 0x1_0000_0000_0000_0000 * q) * D + a % D
         == (a + 0x1_0000_0000_0000_0000 * s) + h * (0x1_0000_0000_0000_0000 * p)
  {
    assert (x + 0x1_0000_0000_0000_0000 * q) * D == x * D + 0x1_0000_0000_0000_0000 * (q * D);
    assert h * (0x1_0000_0000_0000_0000 * p) == 0x1_0000_0000_0000_0000 * (h * p);
  }

  /** The `m` limbs of `r` at `ro` are those of `s` at `to` shifted right, with
      `l` the limb below them and `h` the bits shifted in. */
  ghost predicate Shifted(r: seq<Limb>, ro: nat, s: seq<Limb>, to: nat, m: nat, D: nat, l: nat, h: nat)
    requires ro + m <= |r| && to + m <= |s| && D > 0
  {
    Num(r, ro, m) * D + l % D == Num(s, to, m) + h * Pow(m)
  }

  /** One limb of mp_shr, which works downwards from the top. */
  lemma ShiftRow(before: seq<Limb>, after: seq<Limb>, ro: nat, s: seq<Limb>, to: nat, m: nat,
                 D: nat, l: Limb, h: nat)
    requires ro + m + 1 <= |before| == |after| && to + m + 1 <= |s| && 0 < D
    requires forall j :: ro + 1 <= j < ro + 1 + m ==> after[j] == before[j]
    requires after[ro] * D + s[to] % D == (l % D) * 0x1_0000_0000_0000_0000 + s[to]
    requires Shifted(before, ro + 1, s, to + 1, m, D, l, h)
    ensures Shifted(after, ro, s, to, m + 1, D, s[to], h)
  {
    NumSame(before, after, ro + 1, m);
    NumCons(after, ro, m);
    NumCons(s, to, m);
    ShiftStep(after[ro], Num(after, ro + 1, m), D, s[to], l % D, Num(s, to + 1, m), h, Pow(m));
  }

  lemma ModFits(x: nat, d: nat)
    requires d > 0
    ensures 0 <= x % d <= x && x % d < d
  {
    if x >= d {
    } else {
      assert x / d == 0;
    }
  }

  /** One limb shifted right, with the bits of `l` entering from above. The two
      halves have no bit in common, so the source's `|` is an addition. */
  method ShrLimb(a: Limb, l: Limb, shift: nat) returns (x: Limb)
    requires 1 <= shift < 64
    ensures x * Pow2(shift) + a % Pow2(shift) == (l % Pow2(shift)) * 0x1_0000_0000_0000_0000 + a
  {
    LimbBits();
    Pow2Add(shift, 64 - shift);
    var D, E := Pow2(shift), Pow2(64 - shift);
    ShiftDigit(a, l, a / D + Wrap(l * E), D, E);
    x := a / D + Wrap(l * E);
  }

  /** tab_r = (tab + high * B^n) >> shift without its bits above B^n; returns
      the bits shifted out. */
  method MpShr(tabr: array<Limb>, ro: nat, tab: array<Limb>, to: nat, n: nat, shift: nat, high: Limb)
    returns (r: Limb)
    requires ro + n <= tabr.Length && to + n <= tab.Length && 1 <= shift < 64
    requires NoPartialOverlap(tabr, ro, tab, to, n)
    modifies tabr
    ensures r < Pow2(shift)
    ensures Num(tabr[..], ro, n) * Pow2(shift) + r
         == old(Num(tab[..], to, n)) + (high % Pow2(shift)) * Pow(n)
    ensures forall j :: 0 <= j < tabr.Length && !(ro <= j < ro + n) ==> tabr[j] == old(tabr[j])
  {
    ghost var s: seq<Limb> := tab[..];
    var l: Limb := high;
    var i := n;
    while i > 0
      invariant 0 <= i <= n
      invariant forall j :: to <= j < to + i ==> tab[j] == s[j]
      invariant forall j :: 0 <= j < tabr.Length && !(ro + i <= j < ro + n) ==> tabr[j] == old(tabr[j])
      invariant Shifted(tabr[..], ro + i, s, to + i, n - i, Pow2(shift), l, high % Pow2(shift))
    {
      i := i - 1;
      var a: Limb := tab[to + i];
      var x := ShrLimb(a, l, shift);
      ghost var before: seq<Limb> := tabr[..];
      tabr[ro + i] := x;
      ShiftRow(before, tabr[..], ro + i, s, to + i, n - i - 1, Pow2(shift), l, high % Pow2(shift));
      l := a;
    }
    ModFits(l, Pow2(shift));
    r := l % Pow2(shift);
  }
}
