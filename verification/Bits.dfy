/** Single bits of numbers kept in limbs, as the helpers get_bit, limb_mask and
    scan_bit_nz of Sources/SubstrataQuickJS/libbf.c see them. */
module Bits {

  import opened Limbs

  /** Is bit `pos` of `m` set? There are no bits at negative positions. */
  predicate Bit(m: nat, pos: int) {
    pos >= 0 && m / Pow2(pos) % 2 == 1
  }

  lemma {:induction false} LimbPower(i: nat)
    ensures Pow(i) == Pow2(64 * i)
  {
    if i > 0 {
      LimbPower(i - 1);
      LimbBits();
      Pow2Add(64, 64 * (i - 1));
    }
  }

  lemma Pow2Monotone(m: nat, n: nat)
    requires m <= n
    ensures Pow2(m) <= Pow2(n)
    ensures m < n ==> 2 * Pow2(m) <= Pow2(n)
    decreases n
  {
    if m < n { Pow2Monotone(m, n - 1); }
  }

  // ---------------------------------------------------------------------
  // Division facts
  // ---------------------------------------------------------------------

  lemma DivUnique(m: int, d: int, q: int, r: int)
    requires d > 0 && m == q * d + r && 0 <= r < d
    ensures m / d == q && m % d == r
  {
    QuotientUnique(m / d, m % d, q, r, d);
  }

  lemma DivSmall(m: int, d: int)
    requires 0 <= m < d
    ensures m / d == 0 && m % d == m
  {
  }

  lemma DivDiv(m: nat, p: nat, s: nat)
    requires p > 0 && s > 0
    ensures p * s > 0 && m / (p * s) == m / p / s
    ensures m % (p * s) == (m / p % s) * p + m % p
  {
    var q := m / p;
    var r := m % p;
    var t := q / s;
    var u := q % s;
    assert m == q * p + r && q == t * s + u;
    assert m == t * (p * s) + (u * p + r) by {
      assert q * p == (t * s) * p + u * p;
      assert (t * s) * p == t * (p * s);
    }
    MulMonotone(u + 1, s, p);
    assert (u + 1) * p == u * p + p;
    MulMonotone(0, u, p);
    MulStrict(0, p, s);
    DivUnique(m, p * s, t, u * p + r);
  }

  lemma DivSum(h: nat, x: nat, s: nat, t: nat)
    requires s > 0
    ensures (x + h * (s * t)) / s == x / s + h * t
    ensures (x + h * (s * t)) % s == x % s
  {
    assert h * (s * t) == (h * t) * s;
    assert (x / s + h * t) * s == (x / s) * s + (h * t) * s;
    DivUnique(x + h * (s * t), s, x / s + h * t, x % s);
  }

  // ---------------------------------------------------------------------
  // Bits in a window of limbs
  // ---------------------------------------------------------------------

  /** The number without its `i` lowest limbs. */
  lemma UpperLimbs(s: seq<Limb>, off: nat, i: nat, n: nat)
    requires off + n <= |s| && i <= n
    ensures Num(s, off, n) / Pow(i) == Num(s, off + i, n - i)
    ensures Num(s, off, n) % Pow(i) == Num(s, off, i)
  {
    NumSplit(s, off, i, n - i);
    NumBound(s, off, i);
    DivUnique(Num(s, off, n), Pow(i), Num(s, off + i, n - i), Num(s, off, i));
  }

  lemma Position(i: nat, p: nat)
    requires p < 64
    ensures Pow2(64 * i + p) == Pow(i) * Pow2(p)
  {
    LimbPower(i);
    Pow2Add(64 * i, p);
  }

  /** A bit of the number is a bit of the limb it lies in. */
  lemma BitOfLimb(s: seq<Limb>, n: nat, i: nat, p: nat)
    requires i < n <= |s| && p < 64
    ensures Bit(Num(s, 0, n), 64 * i + p) <==> s[i] / Pow2(p) % 2 == 1
  {
    var m, x: nat, h := Num(s, 0, n), s[i], Num(s, i + 1, n - i - 1);
    Position(i, p);
    DivDiv(m, Pow(i), Pow2(p));
    UpperLimbs(s, 0, i, n);
    NumCons(s, i, n - i - 1);
    LimbParts(p);
    assert x + 0x1_0000_0000_0000_0000 * h == x + h * (Pow2(p) * (2 * Pow2(63 - p)));
    Parity(x, h, Pow2(p), Pow2(63 - p));
  }

  lemma LimbParts(p: nat)
    requires p < 64
    ensures Pow2(p) * (2 * Pow2(63 - p)) == 0x1_0000_0000_0000_0000
  {
    LimbBits();
    Pow2Add(p, 64 - p);
  }

  lemma Parity(x: nat, h: nat, s: nat, t: nat)
    requires s > 0
    ensures (x + h * (s * (2 * t))) / s % 2 == x / s % 2
  {
    DivSum(h, x, s, 2 * t);
    EvenAdded(x / s, h * t);
    assert h * (2 * t) == 2 * (h * t);
  }

  lemma EvenAdded(x: nat, y: nat)
    ensures (x + 2 * y) % 2 == x % 2
  {
  }

  lemma BitBeyond(m: nat, n: nat, pos: nat)
    requires m < Pow(n) && pos >= 64 * n
    ensures !Bit(m, pos)
  {
    LimbPower(n);
    Pow2Monotone(64 * n, pos);
    DivSmall(m, Pow2(pos));
  }

  /** get_bit */
  method GetBit(tab: seq<Limb>, len: nat, pos: int) returns (b: bool)
    requires len <= |tab|
    ensures b == Bit(Num(tab, 0, len), pos)
  {
    var i := pos / 64;
    if i < 0 || i >= len {
      NumBound(tab, 0, len);
      if pos >= 0 { BitBeyond(Num(tab, 0, len), len, pos); }
      return false;
    }
    BitOfLimb(tab, len, i, pos % 64);
    return tab[i] / Pow2(pos % 64) % 2 == 1;
  }

  /** The bits of the number below a position: some low bits of one limb, and the
      limbs below it. */
  lemma LowBits(s: seq<Limb>, n: nat, i: nat, p: nat)
    requires i < n <= |s| && p <= 64
    ensures Num(s, 0, n) % Pow2(64 * i + p) == (s[i] % Pow2(p)) * Pow(i) + Num(s, 0, i)
  {
    var m, x: nat, h := Num(s, 0, n), s[i], Num(s, i + 1, n - i - 1);
    LimbPower(i);
    Pow2Add(64 * i, p);
    DivDiv(m, Pow(i), Pow2(p));
    UpperLimbs(s, 0, i, n);
    NumCons(s, i, n - i - 1);
    LimbBits();
    Pow2Add(p, 64 - p);
    DivSum(h, x, Pow2(p), Pow2(64 - p));
  }

  lemma NonZeroSum(x: nat, p: nat, y: nat)
    requires p > 0
    ensures x * p + y == 0 <==> x == 0 && y == 0
  {
    if x > 0 { MulMonotone(1, x, p); }
  }

  /** scan_bit_nz: is some bit from 0 to `bitPos` set? */
  method ScanBitNz(tab: seq<Limb>, len: nat, bitPos: int) returns (nz: bool)
    requires len <= |tab| && bitPos < 64 * len
    ensures nz <==> bitPos >= 0 && Num(tab, 0, len) % Pow2(bitPos + 1) != 0
  {
    var pos := bitPos / 64;
    if pos < 0 {
      return false;
    }
    var p := bitPos % 64 + 1;
    LowBits(tab, len, pos, p);
    var low := tab[pos] % Pow2(p);
    NonZeroSum(low, Pow(pos), Num(tab, 0, pos));
    if low != 0 {
      return true;
    }
    var i := pos - 1;
    while i >= 0
      invariant -1 <= i < pos
      invariant Num(tab, 0, pos) == 0 <==> Num(tab, 0, i + 1) == 0
    {
      NonZeroSum(tab[i], Pow(i), Num(tab, 0, i));
      if tab[i] != 0 {
        return true;
      }
      i := i - 1;
    }
    return false;
  }

  // ---------------------------------------------------------------------
  // Sixty-four bits at any position
  // ---------------------------------------------------------------------

  /** The 64 bits of `n` from position `pos` on; below position 0 there are zeros. */
  function Window(n: nat, pos: int): Limb {
    if pos >= 0 then Wrap(n / Pow2(pos)) else Wrap(n * Pow2(-pos))
  }

  /** Two neighbouring limbs give 64 bits across their boundary. */
  lemma AcrossLimbs(a0: Limb, a1: Limb, rest: nat, x: int, D: nat, E: nat)
    requires 0 < D && D * E == 0x1_0000_0000_0000_0000 && x == a0 / D + Wrap(a1 * E)
    ensures 0 <= x < 0x1_0000_0000_0000_0000
    ensures Wrap((a0 + 0x1_0000_0000_0000_0000 * (a1 + 0x1_0000_0000_0000_0000 * rest)) / D) == x
  {
    ShiftDigit(a0, a1, x, D, E);
    var q, r: nat := a1 / D, a0 % D;
    var h := a0 as int + 0x1_0000_0000_0000_0000 * (a1 as int + 0x1_0000_0000_0000_0000 * rest);
    AcrossQuotient(a0, a1, rest, x, D, E, q, r);
    DivUnique(h, D, x + 0x1_0000_0000_0000_0000 * (q + E * rest), r);
    WrapMultiple(q + E * rest, x);
  }

  lemma AcrossQuotient(a0: int, a1: int, rest: int, x: int, D: int, E: int, q: int, r: int)
    requires D > 0 && D * E == 0x1_0000_0000_0000_0000 && q == a1 / D && r == a0 % D
    requires x * D + r == (a1 % D) * 0x1_0000_0000_0000_0000 + a0
    ensures a0 + 0x1_0000_0000_0000_0000 * (a1 + 0x1_0000_0000_0000_0000 * rest)
         == (x + 0x1_0000_0000_0000_0000 * (q + E * rest)) * D + r
  {
    var B := 0x1_0000_0000_0000_0000;
    assert a1 == q * D + a1 % D;
    assert (E * rest) * D == (D * E) * rest;
    assert (x + B * (q + E * rest)) * D == x * D + B * (q * D + (E * rest) * D);
  }

  function LimbOrZero(tab: seq<Limb>, len: nat, i: int): Limb
    requires len <= |tab|
  {
    if 0 <= i < len then tab[i] else 0
  }

  lemma WindowSplit(m: nat, i: nat, p: nat)
    requires p < 64
    ensures Window(m, 64 * i + p) == Wrap(m / Pow(i) / Pow2(p))
  {
    Position(i, p);
    DivDiv(m, Pow(i), Pow2(p));
  }

  /** The limbs from `i` on: two of them, and the rest. */
  lemma TwoAndRest(s: seq<Limb>, n: nat, i: nat) returns (rest: nat)
    requires i < n <= |s|
    ensures Num(s, 0, n) / Pow(i)
         == s[i] as int + 0x1_0000_0000_0000_0000 * (LimbOrZero(s, n, i + 1) as int + 0x1_0000_0000_0000_0000 * rest)
  {
    UpperLimbs(s, 0, i, n);
    NumCons(s, i, n - i - 1);
    if i + 1 < n {
      NumCons(s, i + 1, n - i - 2);
      rest := Num(s, i + 2, n - i - 2);
    } else {
      rest := 0;
    }
  }

  lemma WindowAbove(s: seq<Limb>, n: nat, i: nat, p: nat)
    requires i < n <= |s| && 0 < p < 64
    ensures var x := s[i] / Pow2(p) + Wrap(LimbOrZero(s, n, i + 1) * Pow2(64 - p));
      0 <= x < 0x1_0000_0000_0000_0000 && x == Window(Num(s, 0, n), 64 * i + p)
  {
    WindowSplit(Num(s, 0, n), i, p);
    var rest := TwoAndRest(s, n, i);
    LimbBits();
    Pow2Add(p, 64 - p);
    var a1 := LimbOrZero(s, n, i + 1);
    AcrossLimbs(s[i], a1, rest, s[i] / Pow2(p) + Wrap(a1 * Pow2(64 - p)), Pow2(p), Pow2(64 - p));
  }

  lemma WindowAligned(s: seq<Limb>, n: nat, i: nat)
    requires n <= |s|
    ensures Window(Num(s, 0, n), 64 * i) == LimbOrZero(s, n, i)
  {
    LimbPower(i);
    if i < n {
      UpperLimbs(s, 0, i, n);
      NumCons(s, i, n - i - 1);
      WrapLow(s[i], Num(s, i + 1, n - i - 1));
    } else {
      NumBound(s, 0, n);
      PowMonotone(n, i);
      DivSmall(Num(s, 0, n), Pow(i));
    }
  }

  lemma WrapLow(x: Limb, h: int)
    ensures Wrap(x as int + 0x1_0000_0000_0000_0000 * h) == x
  {
    WrapMultiple(h, x);
  }

  lemma WindowBeyond(s: seq<Limb>, n: nat, pos: nat)
    requires n <= |s| && pos >= 64 * n
    ensures Window(Num(s, 0, n), pos) == 0
  {
    NumBound(s, 0, n);
    LimbPower(n);
    Pow2Monotone(64 * n, pos);
    DivSmall(Num(s, 0, n), Pow2(pos));
  }

  lemma WindowBelow(s: seq<Limb>, n: nat, k: nat)
    requires n <= |s| && k > 0
    ensures Window(Num(s, 0, n), -(k as int)) == if n > 0 && k < 64 then Wrap(s[0] * Pow2(k)) else 0
  {
    if n > 0 {
      NumCons(s, 0, n - 1);
      if k < 64 {
        ShiftedIn(s[0], Num(s, 1, n - 1), Pow2(k));
      } else {
        LimbBits();
        Pow2Add(64, k - 64);
        ShiftedOut(Num(s, 0, n), Pow2(k - 64));
      }
    }
  }

  lemma ShiftedIn(x: int, h: int, p: int)
    ensures Wrap((x + 0x1_0000_0000_0000_0000 * h) * p) == Wrap(x * p)
  {
    assert (x + 0x1_0000_0000_0000_0000 * h) * p == x * p + (h * p) * 0x1_0000_0000_0000_0000;
    WrapAdds(x * p, h * p);
  }

  lemma ShiftedOut(m: int, p: int)
    ensures Wrap(m * (0x1_0000_0000_0000_0000 * p)) == 0
  {
    assert m * (0x1_0000_0000_0000_0000 * p) == (m * p) * 0x1_0000_0000_0000_0000 + 0;
    WrapMultiple(m * p, 0);
  }

  lemma WrapAdds(x: int, q: int)
    ensures Wrap(x + q * 0x1_0000_0000_0000_0000) == Wrap(x)
  {
  }

  lemma WindowAcross(tab: seq<Limb>, len: nat, i: int, p: nat)
    requires len <= |tab| && 0 < p < 64
    ensures LimbOrZero(tab, len, i) / Pow2(p) + Wrap(LimbOrZero(tab, len, i + 1) * Pow2(64 - p))
         == Window(Num(tab, 0, len), 64 * i + p)
  {
    if 0 <= i < len {
      WindowAbove(tab, len, i, p);
    } else if i >= 0 {
      WindowBeyond(tab, len, 64 * i + p);
    } else {
      WindowBelow(tab, len, -(64 * i + p));
    }
  }

  /** get_bits; the limb index is unsigned, so that one below zero is out of
      range and its successor is zero. */
  method GetBits(tab: seq<Limb>, len: nat, pos: int) returns (v: Limb)
    requires len <= |tab|
    ensures v == Window(Num(tab, 0, len), pos)
  {
    var i, p := pos / 64, pos % 64;
    var a0 := LimbOrZero(tab, len, i);
    if p == 0 {
      if i >= 0 { WindowAligned(tab, len, i); } else { WindowBelow(tab, len, -pos); }
      return a0;
    }
    i := i + 1;
    var a1 := LimbOrZero(tab, len, i);
    WindowAcross(tab, len, i - 1, p);
    v := a0 / Pow2(p) + Wrap(a1 * Pow2(64 - p));
  }
}
