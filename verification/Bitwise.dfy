/** Bitwise operations of the machine on limbs, and counting leading zeros, as
    Sources/SubstrataQuickJS/libbf.c uses them. */
module Bitwise {

  import opened Limbs
  import opened Bits
  import opened Rounding

  datatype Op = OR | XOR | AND

  predicate Apply(op: Op, a: bool, b: bool) {
    match op
    case OR => a || b
    case XOR => a != b
    case AND => a && b
  }

  // ---------------------------------------------------------------------
  // Operations
  // ---------------------------------------------------------------------

  /** The machine's bitwise operation on the `n` lowest bits. */
  function OpBits(op: Op, a: nat, b: nat, n: nat): (r: nat)
    ensures r < Pow2(n)
  {
    if n == 0 then 0
    else OpBits(op, a, b, n - 1) + if Apply(op, Bit(a, n - 1), Bit(b, n - 1)) then Pow2(n - 1) else 0
  }

  lemma {:induction false} OpBit(op: Op, a: nat, b: nat, n: nat, i: nat)
    requires i < n
    ensures Bit(OpBits(op, a, b, n), i) == Apply(op, Bit(a, i), Bit(b, i))
  {
    var low, top := OpBits(op, a, b, n - 1), Apply(op, Bit(a, n - 1), Bit(b, n - 1));
    if i == n - 1 {
      BitOnTop(low, top, Pow2(i));
    } else {
      OpBit(op, a, b, n - 1, i);
      HigherBit(low, if top then 1 else 0, i, n - 1);
    }
  }

  lemma BitOnTop(low: nat, top: bool, p: nat)
    requires low < p
    ensures (low + if top then p else 0) / p % 2 == 1 <==> top
  {
    DivUnique(low + if top then p else 0, p, if top then 1 else 0, low);
  }

  lemma HigherBit(x: nat, h: nat, i: nat, n: nat)
    requires i < n
    ensures Bit(x + h * Pow2(n), i) == Bit(x, i)
  {
    Pow2Add(i, n - i);
    Parity(x, h, Pow2(i), Pow2(n - 1 - i));
  }

  /** bf_logic_op1 */
  function LogicOp1(op: Op, a: Limb, b: Limb): Limb {
    LimbBits();
    OpBits(op, a, b, 64)
  }

  /** A mask of 64 equal bits. */
  function MaskOf(s: bool): Limb {
    if s then 0xFFFF_FFFF_FFFF_FFFF else 0
  }

  lemma MaskBit(s: bool, i: nat)
    requires i < 64
    ensures Bit(MaskOf(s), i) == s
  {
    if s {
      LimbParts(i);
      OddQuotient(Pow2(63 - i), Pow2(i), 0xFFFF_FFFF_FFFF_FFFF);
    } else {
      DivSmall(0, Pow2(i));
    }
  }

  /** Exclusive or with a mask of equal bits. */
  lemma {:induction false} XorMask(v: Limb, s: bool, n: nat)
    requires n <= 64
    ensures OpBits(XOR, v, MaskOf(s), n) == if s then Pow2(n) - 1 - v % Pow2(n) else v % Pow2(n)
  {
    if n > 0 {
      XorMask(v, s, n - 1);
      MaskBit(s, n - 1);
      OneBitMore(v, n - 1);
    }
  }

  lemma OneBitMore(v: nat, n: nat)
    ensures v % Pow2(n + 1) == v % Pow2(n) + if Bit(v, n) then Pow2(n) else 0
  {
    DivDiv(v, Pow2(n), 2);
  }

  lemma XorLimb(v: Limb, s: bool)
    ensures LogicOp1(XOR, v, MaskOf(s)) == if s then 0xFFFF_FFFF_FFFF_FFFF - v else v
  {
    XorMask(v, s, 64);
    LimbBits();
  }

  // ---------------------------------------------------------------------
  // Leading zeros
  // ---------------------------------------------------------------------

  lemma ClzBound(a: Limb)
    requires a != 0
    ensures a < Pow2(64 - Clz(a))
  {
    var s := Clz(a);
    LimbBits();
    Pow2Add(64 - s, s);
    if a >= Pow2(64 - s) { MulMonotone(Pow2(64 - s), a, Pow2(s)); }
  }

  /** clz */
  function LeadingZeros(a: Limb): (s: nat)
    ensures s <= 64
  {
    if a == 0 then 64 else Clz(a)
  }

  /** The leading zeros of a word of `r` bits. */
  lemma ZerosBound(w: Limb, r: nat)
    requires r <= 64 && w < Pow2(r)
    ensures LeadingZeros(w) >= 64 - r
    ensures w != 0 ==> LeadingZeros(w) < 64 && w >= Pow2(63 - LeadingZeros(w))
  {
    if w != 0 {
      var s := Clz(w);
      HalfLimb();
      Pow2Add(63 - s, s);
      if w < Pow2(63 - s) { MulStrict(w, Pow2(63 - s), Pow2(s)); }
      if s < 64 - r { Pow2Monotone(r, 63 - s); }
    }
  }

  // ---------------------------------------------------------------------
  // Differences
  // ---------------------------------------------------------------------

  /** Equal bits from `k` on. */
  lemma {:induction false} SameAbove(v1: Limb, v2: Limb, k: nat)
    requires k <= 64 && LogicOp1(XOR, v1, v2) < Pow2(k)
    ensures v1 / Pow2(k) == v2 / Pow2(k)
    decreases 64 - k
  {
    LimbBits();
    if k == 64 {
      DivSmall(v1, Pow2(64));
      DivSmall(v2, Pow2(64));
    } else {
      Pow2Monotone(k, k + 1);
      SameAbove(v1, v2, k + 1);
      OpBit(XOR, v1, v2, 64, k);
      DivSmall(LogicOp1(XOR, v1, v2), Pow2(k));
      NextBit(v1, k);
      NextBit(v2, k);
    }
  }

  lemma NextBit(v: nat, k: nat)
    ensures v / Pow2(k) == 2 * (v / Pow2(k + 1)) + if Bit(v, k) then 1 else 0
  {
    DivDiv(v, Pow2(k), 2);
    Commute(Pow2(k), 2);
  }

  /** The highest different bit is set in the greater word only. */
  lemma FirstDifference(v1: Limb, v2: Limb)
    requires v1 > v2
    ensures LogicOp1(XOR, v1, v2) != 0
    ensures var r := 63 - Clz(LogicOp1(XOR, v1, v2)); v1 / Pow2(r) == v2 / Pow2(r) + 1
  {
    var x := LogicOp1(XOR, v1, v2);
    Different(v1, v2);
    ClzBound(x);
    LimbBits();
    ZerosBound(x, 64);
    DifferentAt(v1, v2, x, 63 - Clz(x));
  }

  lemma Different(v1: Limb, v2: Limb)
    requires v1 != v2
    ensures LogicOp1(XOR, v1, v2) != 0
  {
    assert Pow2(0) == 1;
    if LogicOp1(XOR, v1, v2) == 0 { SameAbove(v1, v2, 0); }
  }

  lemma DifferentAt(v1: Limb, v2: Limb, x: Limb, r: nat)
    requires v1 > v2 && x == LogicOp1(XOR, v1, v2) && r < 64 && Pow2(r) <= x < Pow2(r + 1)
    ensures v1 / Pow2(r) == v2 / Pow2(r) + 1
  {
    SameAbove(v1, v2, r + 1);
    OpBit(XOR, v1, v2, 64, r);
    DivUnique(x, Pow2(r), 1, x - Pow2(r));
    NextBit(v1, r);
    NextBit(v2, r);
    DivMonotone(v2, v1, Pow2(r));
  }

  lemma DivMonotone(x: nat, y: nat, d: nat)
    requires x <= y && d > 0
    ensures x / d <= y / d
  {
    if x / d > y / d { MulMonotone(y / d + 1, x / d, d); }
  }

  /** limb_mask(0, r - 1) */
  function LowMask(r: nat): (m: Limb)
    requires r <= 64
    ensures m == Pow2(r) - 1
  {
    LimbBits();
    Pow2Monotone(r, 64);
    Pow2(r) - 1
  }

  lemma OddQuotient(h: nat, p: nat, x: int)
    requires p > 0 && x == p * (2 * h) - 1
    ensures x / p % 2 == 1
  {
    assert (2 * h - 1) * p == p * (2 * h) - p;
    DivUnique(x, p, 2 * h - 1, p - 1);
  }

  lemma MaskBits(r: nat, i: nat)
    ensures Bit(Pow2(r) - 1, i) == (i < r)
  {
    if i < r {
      var h := Pow2(r - 1 - i);
      Pow2Add(i, r - i);
      OddQuotient(h, Pow2(i), Pow2(r) - 1);
    } else {
      Pow2Monotone(r, i);
      DivSmall(Pow2(r) - 1, Pow2(i));
    }
  }

  lemma {:induction false} AndMask(v: nat, r: nat, n: nat)
    ensures OpBits(AND, v, Pow2(r) - 1, n) == v % Pow2(if n < r then n else r)
  {
    if n > 0 {
      AndMask(v, r, n - 1);
      MaskBits(r, n - 1);
      OneBitMore(v, n - 1);
    }
  }

  /** The lowest bits of a limb. */
  lemma MaskedLimb(v: Limb, r: nat)
    requires r <= 64
    ensures LogicOp1(AND, v, LowMask(r)) == v % Pow2(r)
  {
    AndMask(v, r, 64);
  }
}
