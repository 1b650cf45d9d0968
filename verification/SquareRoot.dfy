/** Integer square root with remainder (mp_sqrtrem1, mp_sqrtrem2 and
    mp_sqrtrem_rec of Sources/SubstrataQuickJS/libbf.c): a table for 16 bits,
    then the same doubling step for 32, 64 and 128 bits and for limb arrays. */
module SquareRoot {
  import opened Limbs
  import opened Division
  import opened Reciprocal

  predicate IsFloorRoot(t: int, n: int) {
    0 <= t && t * t <= n < (t + 1) * (t + 1)
  }

  /** `s` is the square root of `a` rounded down and `r` the remainder. */
  ghost predicate IsSqrt(a: int, s: int, r: int) {
    a == s * s + r && 0 <= r <= 2 * s
  }

  /** The two conditions of IsSqrt determine the root. */
  lemma SqrtIsFloor(a: int, s: int, r: int)
    requires IsSqrt(a, s, r) && 0 <= s
    ensures IsFloorRoot(s, a)
  {
  }

  // ---------------------------------------------------------------------
  // The doubling step
  // ---------------------------------------------------------------------

  /** From the root `s1` and remainder `r1` of the upper half to the root
      `s1 * L + q` of the whole, whose remainder may be negative; then it is
      above minus twice the root, so that lowering the root once is enough. The
      quotient `q` may reach `L` itself. */
  lemma DoublingStep(hi: int, s1: int, r1: int, L: int, n1: int, n0: int, q: int, u: int)
    requires IsSqrt(hi, s1, r1) && 0 < L <= 2 * s1
    requires 0 <= n1 < L && 0 <= n0 < L && 0 <= q
    requires r1 * L + n1 == 2 * s1 * q + u && 0 <= u < 2 * s1
    ensures q <= L
    ensures hi * (L * L) + n1 * L + n0 == (s1 * L + q) * (s1 * L + q) + (u * L + n0 - q * q)
    ensures -(L * L) <= u * L + n0 - q * q <= 2 * (s1 * L + q)
    ensures u * L + n0 - q * q < 0 ==>
      0 <= u * L + n0 - q * q + 2 * (s1 * L + q) - 1 <= 2 * (s1 * L + q - 1)
  {
    DoublingQuotient(s1, r1, L, n1, q, u);
    DoublingIdentity(s1, r1, L, n1, n0, q, u);
    DoublingBounds(s1 * L, u * L, q * q, L * L, s1, L, n0, q, u);
  }

  lemma DoublingBounds(p: int, v: int, qq: int, ll: int, s1: int, L: int, n0: int, q: int, u: int)
    requires p == s1 * L && v == u * L && qq == q * q && ll == L * L
    requires 0 < L <= 2 * s1 && 0 <= n0 < L && 0 <= q <= L && 0 <= u < 2 * s1
    ensures -ll <= v + n0 - qq <= 2 * (p + q)
    ensures v + n0 - qq < 0 ==> 0 <= v + n0 - qq + 2 * (p + q) - 1
  {
    MulMonotone(0, u, L);
    MulMonotone(u, 2 * s1 - 1, L);
    assert (2 * s1 - 1) * L == 2 * p - L;
    MulMonotone(L, 2 * s1, L);
    assert (2 * s1) * L == 2 * p;
    MulMonotone(q, L, q);
    MulMonotone(q, L, L);
    MulMonotone(0, q, q);
    if q == 0 { assert qq == 0; }
  }

  lemma DoublingQuotient(s1: int, r1: int, L: int, n1: int, q: int, u: int)
    requires 0 <= r1 <= 2 * s1 && 0 < L <= 2 * s1 && 0 <= n1 < L && 0 <= u
    requires r1 * L + n1 == 2 * s1 * q + u
    ensures q <= L
  {
    MulMonotone(r1, 2 * s1, L);
    if q >= L + 1 { MulMonotone(L + 1, q, 2 * s1); }
  }

  lemma DoublingIdentity(s1: int, r1: int, L: int, n1: int, n0: int, q: int, u: int)
    requires r1 * L + n1 == 2 * s1 * q + u
    ensures (s1 * s1 + r1) * (L * L) + n1 * L + n0 == (s1 * L + q) * (s1 * L + q) + (u * L + n0 - q * q)
  {
    assert (r1 * L + n1) * L == r1 * (L * L) + n1 * L;
    assert (2 * s1 * q + u) * L == 2 * ((s1 * L) * q) + u * L;
    assert (s1 * s1) * (L * L) == (s1 * L) * (s1 * L);
    assert (s1 * L + q) * (s1 * L + q) == (s1 * L) * (s1 * L) + 2 * ((s1 * L) * q) + q * q;
  }

  // ---------------------------------------------------------------------
  // One limb
  // ---------------------------------------------------------------------

  // The table of the roots of 64 * 256, 65 * 256, ..., 255 * 256, in rows of 16.

  function SqrtRow0(j: nat): (t: nat)
    requires j < 16
    ensures IsFloorRoot(t, 256 * (64 + j))
  {
    [128, 128, 129, 130, 131, 132, 133, 134, 135, 136, 137, 138, 139, 140, 141, 142][j]
  }

  function SqrtRow1(j: nat): (t: nat)
    requires j < 16
    ensures IsFloorRoot(t, 256 * (80 + j))
  {
    [143, 144, 144, 145, 146, 147, 148, 149, 150, 150, 151, 152, 153, 154, 155, 155][j]
  }

  function SqrtRow2(j: nat): (t: nat)
    requires j < 16
    ensures IsFloorRoot(t, 256 * (96 + j))
  {
    [156, 157, 158, 159, 160, 160, 161, 162, 163, 163, 164, 165, 166, 167, 167, 168][j]
  }

  function SqrtRow3(j: nat): (t: nat)
    requires j < 16
    ensures IsFloorRoot(t, 256 * (112 + j))
  {
    [169, 170, 170, 171, 172, 173, 173, 174, 175, 176, 176, 177, 178, 178, 179, 180][j]
  }

  function SqrtRow4(j: nat): (t: nat)
    requires j < 16
    ensures IsFloorRoot(t, 256 * (128 + j))
  {
    [181, 181, 182, 183, 183, 184, 185, 185, 186, 187, 187, 188, 189, 189, 190, 191][j]
  }

  function SqrtRow5(j: nat): (t: nat)
    requires j < 16
    ensures IsFloorRoot(t, 256 * (144 + j))
  {
    [192, 192, 193, 193, 194, 195, 195, 196, 197, 197, 198, 199, 199, 200, 201, 201][j]
  }

  function SqrtRow6(j: nat): (t: nat)
    requires j < 16
    ensures IsFloorRoot(t, 256 * (160 + j))
  {
    [202, 203, 203, 204, 204, 205, 206, 206, 207, 208, 208, 209, 209, 210, 211, 211][j]
  }

  function SqrtRow7(j: nat): (t: nat)
    requires j < 16
    ensures IsFloorRoot(t, 256 * (176 + j))
  {
    [212, 212, 213, 214, 214, 215, 215, 216, 217, 217, 218, 218, 219, 219, 220, 221][j]
  }

  function SqrtRow8(j: nat): (t: nat)
    requires j < 16
    ensures IsFloorRoot(t, 256 * (192 + j))
  {
    [221, 222, 222, 223, 224, 224, 225, 225, 226, 226, 227, 227, 228, 229, 229, 230][j]
  }

  function SqrtRow9(j: nat): (t: nat)
    requires j < 16
    ensures IsFloorRoot(t, 256 * (208 + j))
  {
    [230, 231, 231, 232, 232, 233, 234, 234, 235, 235, 236, 236, 237, 237, 238, 238][j]
  }

  function SqrtRow10(j: nat): (t: nat)
    requires j < 16
    ensures IsFloorRoot(t, 256 * (224 + j))
  {
    [239, 240, 240, 241, 241, 242, 242, 243, 243, 244, 244, 245, 245, 246, 246, 247][j]
  }

  function SqrtRow11(j: nat): (t: nat)
    requires j < 16
    ensures IsFloorRoot(t, 256 * (240 + j))
  {
    [247, 248, 248, 249, 249, 250, 250, 251, 251, 252, 252, 253, 253, 254, 254, 255][j]
  }

  /** sqrt_table */
  function SqrtTable(k: nat): (t: nat)
    requires k < 192
    ensures IsFloorRoot(t, 256 * (64 + k))
  {
    if k < 16 then SqrtRow0(k - 0)
    else if k < 32 then SqrtRow1(k - 16)
    else if k < 48 then SqrtRow2(k - 32)
    else if k < 64 then SqrtRow3(k - 48)
    else if k < 80 then SqrtRow4(k - 64)
    else if k < 96 then SqrtRow5(k - 80)
    else if k < 112 then SqrtRow6(k - 96)
    else if k < 128 then SqrtRow7(k - 112)
    else if k < 144 then SqrtRow8(k - 128)
    else if k < 160 then SqrtRow9(k - 144)
    else if k < 176 then SqrtRow10(k - 160)
    else SqrtRow11(k - 176)
  }

  method SqrtLookup(k: nat) returns (t: nat)
    requires k < 192
    ensures IsFloorRoot(t, 256 * (64 + k))
  {
    t := SqrtTable(k);
  }

  /** The 16-bit root: the table entry is exact or one too small. */
  method SqrtStart(a16: nat) returns (s: nat, r: nat)
    requires 0x4000 <= a16 < 0x1_0000
    ensures IsSqrt(a16, s, r) && 128 <= s < 256
  {
    s := SqrtLookup(a16 / 256 - 64);
    RootNearby(s, 256 * (a16 / 256), a16);
    r := a16 - s * s;
    if r > 2 * s {
      r := r - (2 * s + 1);
      s := s + 1;
    }
    RootRange(s, a16);
  }

  lemma RootNearby(s: nat, n: nat, a: nat)
    requires IsFloorRoot(s, n) && n <= a < n + 256 && 0x4000 <= n
    ensures s * s <= a < (s + 2) * (s + 2)
  {
    if s < 127 { MulMonotone(s + 1, 127, s + 1); MulMonotone(s + 1, 127, 127); }
    assert (s + 2) * (s + 2) == (s + 1) * (s + 1) + 2 * s + 3;
  }

  lemma RootRange(s: nat, a: nat)
    requires s * s <= a < (s + 1) * (s + 1) && 0x4000 <= a < 0x1_0000
    ensures 128 <= s < 256
  {
    if s < 128 { MulMonotone(s + 1, 128, s + 1); MulMonotone(s + 1, 128, 128); }
    if s >= 256 { MulMonotone(256, s, s); MulMonotone(256, s, 256); }
  }

  /** One refinement of mp_sqrtrem1, doubling the number of bits. `L` is 2^8 or
      2^16, and `n1` and `n0` are the next digits of the number. */
  method SqrtRefine(s1: nat, r1: nat, n1: nat, n0: nat, L: nat, ghost hi: nat) returns (s: nat, r: nat)
    requires IsSqrt(hi, s1, r1) && 0 < L <= 2 * s1 && L <= 0x1_0000 && s1 < L
    requires n1 < L && n0 < L
    ensures IsSqrt(hi * (L * L) + n1 * L + n0, s, r)
  {
    var num := r1 * L + n1;
    QuotientOf(num, 2 * s1);
    var q, u := num / (2 * s1), num % (2 * s1);
    DoublingStep(hi, s1, r1, L, n1, n0, q, u);
    s := s1 * L + q;
    RefineFits(s1, q, L);
    ghost var t: int := u * L + n0 - q * q;
    SignedWrap(t, 2 * s - 1);
    var w: int := Wrap(u * L + n0 - q * q);
    if w >= 0x8000_0000_0000_0000 {
      s := s - 1;
      w := Wrap(w + 2 * s + 1);
      assert s * s + 2 * s + 1 == (s + 1) * (s + 1);
    }
    r := w;
  }

  /** A small negative number shows in the top bit of its 64-bit image. */
  lemma SignedWrap(t: int, x: int)
    requires -0x1_0000_0000 <= t < 0x4_0000_0000
    ensures Wrap(t) >= 0x8000_0000_0000_0000 <==> t < 0
    ensures t >= 0 ==> Wrap(t) == t
    ensures 0 <= t + x < 0x1_0000_0000_0000_0000 ==> Wrap(Wrap(t) + x) == t + x
  {
  }

  lemma RefineFits(s1: nat, q: nat, L: nat)
    requires L <= 0x1_0000 && s1 < L && q <= L
    ensures L * L <= 0x1_0000_0000 && s1 * L + q <= L * L
  {
    MulMonotone(L, 0x1_0000, L);
    MulMonotone(s1 + 1, L, L);
  }

  lemma QuotientOf(n: nat, d: nat)
    requires d > 0
    ensures n == d * (n / d) + n % d && 0 <= n / d && 0 <= n % d < d
  {
  }
  lemma RootOf32(s: nat, r: nat, a: nat)
    requires IsSqrt(a, s, r) && 0x4000_0000 <= a < 0x1_0000_0000
    ensures 0x8000 <= s < 0x1_0000
  {
    if s < 0x8000 { MulMonotone(s + 1, 0x8000, s + 1); MulMonotone(s + 1, 0x8000, 0x8000); }
    if s >= 0x1_0000 { MulMonotone(0x1_0000, s, s); MulMonotone(0x1_0000, s, 0x1_0000); }
  }

  lemma RootOf64(s: nat, r: nat, a: nat)
    requires IsSqrt(a, s, r) && 0x4000_0000_0000_0000 <= a < 0x1_0000_0000_0000_0000
    ensures 0x8000_0000 <= s < 0x1_0000_0000 && r < 0x2_0000_0000
  {
    if s < 0x8000_0000 { MulMonotone(s + 1, 0x8000_0000, s + 1); MulMonotone(s + 1, 0x8000_0000, 0x8000_0000); }
    if s >= 0x1_0000_0000 { MulMonotone(0x1_0000_0000, s, s); MulMonotone(0x1_0000_0000, s, 0x1_0000_0000); }
  }

  lemma TwoDigits(x: nat, L: nat)
    requires L > 0
    ensures x == x / L / L * (L * L) + x / L % L * L + x % L
  {
    QuotientOf(x, L);
    QuotientOf(x / L, L);
    assert x == L * (L * (x / L / L) + x / L % L) + x % L;
  }

  /** Root and remainder of one limb whose top two bits are not both zero. */
  method MpSqrtrem1(a: Limb) returns (s: Limb, r: Limb)
    requires a >= 0x4000_0000_0000_0000
    ensures IsSqrt(a, s, r)
    ensures 0x8000_0000 <= s < 0x1_0000_0000
  {
    // 16 bits to 8 bits, 32 to 16, 64 to 32
    var w: nat := a / 0x1_0000_0000;
    TwoDigits(w, 0x100);
    TwoDigits(a, 0x1_0000);
    assert a / 0x1_0000 / 0x1_0000 == w;
    var s1, r1 := SqrtStart(w / 0x100 / 0x100);
    var s2, r2 := SqrtRefine(s1, r1, w / 0x100 % 0x100, w % 0x100, 0x100, w / 0x100 / 0x100);
    RootOf32(s2, r2, w);
    var s3, r3 := SqrtRefine(s2, r2, a / 0x1_0000 % 0x1_0000, a % 0x1_0000, 0x1_0000, w);
    RootOf64(s3, r3, a);
    s, r := s3, r3;
  }

  // ---------------------------------------------------------------------
  // Two limbs
  // ---------------------------------------------------------------------

  /** The remainder left in a limb window with `rh` above it. */
  ghost predicate SqrtLimbs(a: nat, tabs: seq<Limb>, so: nat, taba: seq<Limb>, ao: nat, n: nat, rh: Limb)
    requires so + n <= |tabs| && ao + n <= |taba|
  {
    rh <= 1 && IsSqrt(a, Num(tabs, so, n), Num(taba, ao, n) + rh * Pow(n))
  }

  lemma SignedWrap2(t: int, x: int)
    requires -0x1_0000_0000_0000_0000 <= t < 0x4_0000_0000_0000_0000
    ensures Wrap2(t) >= 0x8000_0000_0000_0000_0000_0000_0000_0000 <==> t < 0
    ensures t >= 0 ==> Wrap2(t) == t
    ensures 0 <= t + x < 0x4_0000_0000_0000_0000 ==> Wrap2(Wrap2(t) + x) == t + x
  {
  }

  /** The shortcut for q = 2^32 and the plain product agree: neither wraps. */
  lemma SquareLimb(q: nat)
    requires q <= 0x1_0000_0000
    ensures q >= 0x1_0000_0000 ==> q * q == 0x1_0000_0000_0000_0000
    ensures q < 0x1_0000_0000 ==> Wrap(q * q) == q * q
  {
    if q < 0x1_0000_0000 {
      MulMonotone(q, 0xFFFF_FFFF, q);
      MulMonotone(q, 0xFFFF_FFFF, 0xFFFF_FFFF);
      MulMonotone(0, q, q);
    }
  }

  /** The root of 128 bits is below 2^64, so lowering a root that wrapped to
      zero gives the right one. */
  lemma RootBelow(s: nat, r: int, a: nat, b: nat)
    requires a == s * s + r && a < b * b && s <= b
    ensures s == b ==> r < 0
  {
  }

  method MpSqrtrem2(tabs: array<Limb>, so: nat, taba: array<Limb>, ao: nat) returns (rh: Limb)
    requires so < tabs.Length && ao + 2 <= taba.Length && tabs != taba
    requires taba[ao + 1] >= 0x4000_0000_0000_0000
    modifies tabs, taba
    ensures SqrtLimbs(old(Num(taba[..], ao, 2)), tabs[..], so, taba[..], ao, 1, rh)
    ensures forall j :: 0 <= j < tabs.Length && j != so ==> tabs[j] == old(tabs[j])
    ensures forall j :: 0 <= j < taba.Length && j != ao ==> taba[j] == old(taba[j])
  {
    var a0: Limb, a1: Limb := taba[ao], taba[ao + 1];
    TwoLimbNum(taba[..], ao);
    var s, r := Sqrt128(a0, a1);
    tabs[so] := s;
    taba[ao] := r % 0x1_0000_0000_0000_0000;
    rh := r / 0x1_0000_0000_0000_0000;
    OneLimb(tabs[..], so);
    OneLimb(taba[..], ao);
    assert Pow(1) == 0x1_0000_0000_0000_0000 * Pow(0);
  }

  lemma TwoLimbNum(s: seq<Limb>, off: nat)
    requires off + 2 <= |s|
    ensures Num(s, off, 2) == s[off] + 0x1_0000_0000_0000_0000 * s[off + 1] as int
  {
    NumCons(s, off, 1);
    OneLimb(s, off + 1);
  }

  /** The doubling step for 128 bits: exact root estimate `sx` and remainder `t`. */
  lemma Step128(a0: Limb, a1: Limb, s1: nat, r1: nat, q: nat, u: nat) returns (sx: nat, t: int)
    requires IsSqrt(a1, s1, r1) && 0x8000_0000 <= s1 < 0x1_0000_0000
    requires r1 * 0x1_0000_0000 + a0 / 0x1_0000_0000 == 2 * s1 * q + u && u < 2 * s1
    ensures sx == s1 * 0x1_0000_0000 + q && t == u * 0x1_0000_0000 + a0 % 0x1_0000_0000 - q * q
    ensures a0 + a1 as int * 0x1_0000_0000_0000_0000 == sx * sx + t
    ensures q <= 0x1_0000_0000 && sx <= 0x1_0000_0000_0000_0000
    ensures sx == 0x1_0000_0000_0000_0000 ==> t < 0
    ensures -0x1_0000_0000_0000_0000 <= t <= 2 * sx
    ensures t < 0 ==> 0 <= t + 2 * sx - 1 <= 2 * (sx - 1)
  {
    DoublingStep(a1, s1, r1, 0x1_0000_0000, a0 / 0x1_0000_0000, a0 % 0x1_0000_0000, q, u);
    sx, t := s1 * 0x1_0000_0000 + q, u * 0x1_0000_0000 + a0 % 0x1_0000_0000 - q * q;
    RootBelow(sx, t, a0 + a1 as int * 0x1_0000_0000_0000_0000, 0x1_0000_0000_0000_0000);
  }

  /** The arithmetic of mp_sqrtrem2 on a 128-bit number. */
  method Sqrt128(a0: Limb, a1: Limb) returns (s: Limb, r: nat)
    requires a1 >= 0x4000_0000_0000_0000
    ensures IsSqrt(a0 + a1 as int * 0x1_0000_0000_0000_0000, s, r) && r < 0x2_0000_0000_0000_0000
  {
    var s1, r1 := MpSqrtrem1(a1);
    var num: nat := r1 * 0x1_0000_0000 + a0 / 0x1_0000_0000;
    QuotientOf(num, 2 * s1);
    var q: nat, u: nat := num / (2 * s1), num % (2 * s1);
    ghost var sx, t := Step128(a0, a1, s1, r1, q, u);
    SquareLimb(q);
    var square := if q / 0x1_0000_0000 != 0 then 0x1_0000_0000_0000_0000 else Wrap(q * q);
    s, r := RootOrLower(a0 + a1 as int * 0x1_0000_0000_0000_0000, Wrap(s1 * 0x1_0000_0000 + q),
                        Wrap2(u * 0x1_0000_0000 + a0 % 0x1_0000_0000 - square), sx, t);
  }

  /** The end of mp_sqrtrem2: a negative remainder lowers the root once. `s0`
      and `r0` are the register images of the estimate `sx` and its remainder. */
  method RootOrLower(ghost a: nat, s0: Limb, r0: nat, ghost sx: nat, ghost t: int) returns (s: Limb, r: nat)
    requires a == sx * sx + t && s0 == Wrap(sx) && r0 == Wrap2(t)
    requires sx <= 0x1_0000_0000_0000_0000 && (sx == 0x1_0000_0000_0000_0000 ==> t < 0)
    requires -0x1_0000_0000_0000_0000 <= t <= 2 * sx
    requires t < 0 ==> 0 <= t + 2 * sx - 1 <= 2 * (sx - 1)
    ensures IsSqrt(a, s, r) && r < 0x2_0000_0000_0000_0000
  {
    SignedWrap2(t, 2 * sx - 1);
    s, r := s0, r0;
    if r >= 0x8000_0000_0000_0000_0000_0000_0000_0000 {
      LoweredRoot(a, sx, t);
      PreviousRoot(sx);
      s := Wrap(s as int - 1);
      r := Wrap2(r + (2 * s + 1));
    } else {
      PreviousRoot(sx + 1);
    }
  }

  lemma PreviousRoot(sx: int)
    requires 1 <= sx <= 0x1_0000_0000_0000_0000
    ensures Wrap(Wrap(sx) as int - 1) == sx - 1 && Wrap(sx - 1) == sx - 1
  {
  }

  lemma LoweredRoot(a: int, s: int, t: int)
    requires a == s * s + t && 0 <= t + 2 * s - 1 <= 2 * (s - 1)
    ensures IsSqrt(a, s - 1, t + 2 * s - 1)
  {
    assert s * s == (s - 1) * (s - 1) + 2 * s - 1;
  }

  // ---------------------------------------------------------------------
  // Limb arrays
  // ---------------------------------------------------------------------

  /** The division by the root `s1` itself, as mp_sqrtrem_rec does it first. */
  ghost predicate DividedOnce(r1: nat, al: nat, L: nat, s1: nat, Q: nat, u: nat) {
    r1 * L + al == Q * s1 + u && u < s1
  }

  /** The division by twice the root, as the doubling step needs it. */
  ghost predicate DividedBack(r1: nat, al: nat, L: nat, s1: nat, q: nat, u: nat) {
    r1 * L + al == 2 * s1 * q + u && u < 2 * s1
  }

  lemma RestoreTop(r1: nat, r1': nat, al: nat, L: nat, s1: nat, qh0: nat, qlow: nat, top: nat, u0: nat)
    requires r1' + qh0 * s1 == r1 && al + r1' * L == (qlow + top * L) * s1 + u0 && u0 < s1
    ensures DividedOnce(r1, al, L, s1, qlow + (qh0 + top) * L, u0)
  {
    assert (r1' + qh0 * s1) * L == r1' * L + (qh0 * L) * s1;
    assert (qlow + (qh0 + top) * L) * s1 == (qlow + top * L) * s1 + (qh0 * L) * s1;
  }

  lemma SplitHalf(t: nat, L: nat, qlow: nat, half: nat, ql: nat)
    requires half * 2 + ql == qlow + (t % 2) * L
    ensures qlow + t * L == 2 * (half + (t / 2) * L) + ql
  {
    assert t == 2 * (t / 2) + t % 2;
    assert (2 * (t / 2) + t % 2) * L == 2 * ((t / 2) * L) + (t % 2) * L;
  }

  /** Dividing by the root instead of twice the root: the quotient is halved and
      its odd half goes back into the remainder. */
  lemma HalvedQuotient(r1: nat, al: nat, L: nat, s1: nat, Q: nat, u0: nat, q: nat, ql: nat)
    requires DividedOnce(r1, al, L, s1, Q, u0) && Q == 2 * q + ql && ql <= 1
    ensures DividedBack(r1, al, L, s1, q, u0 + ql * s1)
  {
    assert (2 * q + ql) * s1 == 2 * s1 * q + ql * s1;
    if ql == 0 { NoCarry(ql, s1); } else { assert ql * s1 == s1; }
  }

  /** If the remainder of the upper half overflows its limbs, subtracts the root. */
  method DropTop(taba: array<Limb>, off: nat, tabs: array<Limb>, so: nat, h: nat, qh: Limb)
    requires off + h <= taba.Length && so + h <= tabs.Length && taba != tabs && qh <= 1
    requires Num(taba[..], off, h) + qh * Pow(h) <= 2 * Num(tabs[..], so, h)
    modifies taba
    ensures Num(taba[..], off, h) + qh * Num(tabs[..], so, h) == old(Num(taba[..], off, h)) + qh * Pow(h)
    ensures forall j :: 0 <= j < taba.Length && !(off <= j < off + h) ==> taba[j] == old(taba[j])
  {
    NumBound(tabs[..], so, h);
    if qh != 0 {
      var k := MpSub(taba, off, taba, off, tabs, so, h, 0);
      NumBound(taba[..], off, h);
      if k != 1 { NoCarry(k, Pow(h)); }
    } else {
      NoCarry(qh, Pow(h));
      NoCarry(qh, Num(tabs[..], so, h));
    }
  }

  /** The division of mp_sqrtrem_rec: quotient by the root itself. */
  method SqrtQuotient(tabs: array<Limb>, so: nat, taba: array<Limb>, ao: nat, l: nat, h: nat,
                      tmp: array<Limb>, qh0: Limb)
    requires 1 <= l <= h && so + l + h <= tabs.Length && ao + 2 * l + h <= taba.Length && l < tmp.Length
    requires tabs != taba && tabs != tmp && taba != tmp
    requires Normalised(tabs[..], so + l, h) && qh0 <= 1
    requires Num(taba[..], ao + 2 * l, h) + qh0 * Pow(h) <= 2 * Num(tabs[..], so + l, h)
    modifies taba, tmp
    ensures tmp[l] <= 1
    ensures DividedOnce(old(Num(taba[..], ao + 2 * l, h)) + qh0 * Pow(h), old(Num(taba[..], ao + l, l)), Pow(l),
                        Num(tabs[..], so + l, h), Num(tmp[..], 0, l) + (qh0 as int + tmp[l]) * Pow(l),
                        Num(taba[..], ao + l, h))
    ensures forall j :: 0 <= j < taba.Length && !(ao + l <= j < ao + 2 * l + h) ==> taba[j] == old(taba[j])
  {
    ghost var a0: seq<Limb> := taba[..];
    DropTop(taba, ao + 2 * l, tabs, so + l, h, qh0);
    ghost var a1: seq<Limb> := taba[..];
    MpDivnorm(tmp, 0, taba, ao + l, l + h, tabs, so + l, h);
    QuotientLimbs(a0, a1, ao, l, h, tmp[..], Num(tabs[..], so + l, h), qh0, Num(taba[..], ao + l, h));
  }

  lemma QuotientLimbs(a0: seq<Limb>, a1: seq<Limb>, ao: nat, l: nat, h: nat, tmp: seq<Limb>, s1: nat, qh0: Limb, u: nat)
    requires ao + 2 * l + h <= |a0| == |a1| && l < |tmp|
    requires forall j :: ao + l <= j < ao + 2 * l ==> a1[j] == a0[j]
    requires Num(a1, ao + 2 * l, h) + qh0 * s1 == Num(a0, ao + 2 * l, h) + qh0 * Pow(h)
    requires Num(a1, ao + l, l + h) == Num(tmp, 0, l + 1) * s1 + u && u < s1
    ensures DividedOnce(Num(a0, ao + 2 * l, h) + qh0 * Pow(h), Num(a0, ao + l, l), Pow(l), s1,
                        Num(tmp, 0, l) + (qh0 as int + tmp[l]) * Pow(l), u)
  {
    NumSame(a0, a1, ao + l, l);
    NumSplit(a1, ao + l, l, h);
    TopLimb(tmp, 0, l);
    MulMonotone(0, qh0, Pow(h));
    RestoreTop(Num(a0, ao + 2 * l, h) + qh0 * Pow(h), Num(a1, ao + 2 * l, h), Num(a0, ao + l, l), Pow(l),
               s1, qh0, Num(tmp, 0, l), tmp[l], u);
  }

  /** Halves the quotient: its low limbs go below the root, its top limb is
      returned, and an odd quotient puts one root back into the remainder. */
  method SqrtHalve(tabs: array<Limb>, so: nat, taba: array<Limb>, o: nat, l: nat, h: nat,
                   tmp: array<Limb>, t: Limb, ghost r1: nat, ghost al: nat)
    returns (qh: Limb, rh: Limb)
    requires 1 <= l <= h && so + l + h <= tabs.Length && o + h <= taba.Length && l < tmp.Length
    requires tabs != taba && tabs != tmp && taba != tmp && t <= 2
    requires DividedOnce(r1, al, Pow(l), Num(tabs[..], so + l, h), Num(tmp[..], 0, l) + t * Pow(l), Num(taba[..], o, h))
    modifies tabs, taba
    ensures qh <= 1 && rh <= 1
    ensures DividedBack(r1, al, Pow(l), Num(tabs[..], so + l, h), Num(tabs[..], so, l) + qh * Pow(l),
                        Num(taba[..], o, h) + rh * Pow(h))
    ensures forall j :: 0 <= j < tabs.Length && !(so <= j < so + l) ==> tabs[j] == old(tabs[j])
    ensures forall j :: 0 <= j < taba.Length && !(o <= j < o + h) ==> taba[j] == old(taba[j])
  {
    ghost var t0: seq<Limb>, u0 := tabs[..], Num(taba[..], o, h);
    ghost var s1 := Num(t0, so + l, h);
    CopyLimbs(tabs, so, tmp, 0, l);
    var ql := MpShr(tabs, so, tabs, so, l, 1, t % 2);
    qh := t / 2;
    assert Pow2(1) == 2;
    NumSame(t0, tabs[..], so + l, h);
    SplitHalf(t, Pow(l), Num(tmp[..], 0, l), Num(tabs[..], so, l), ql);
    HalvedQuotient(r1, al, Pow(l), s1, Num(tmp[..], 0, l) + t * Pow(l), u0, Num(tabs[..], so, l) + qh * Pow(l), ql);
    rh := 0;
    if ql != 0 {
      rh := MpAdd(taba, o, taba, o, tabs, so + l, h, 0);
    } else {
      NoCarry(rh, Pow(h));
      NoCarry(ql, s1);
    }
  }

  lemma JoinWindows(t': nat, r': nat, t: nat, r: nat, qq: nat, c: nat, k: nat, p: nat, pm: nat)
    requires t' + qq == t + c * p && r' + c == r + k * pm
    ensures (t' + r' * p) + qq == (t + r * p) + k * (p * pm)
  {
    assert (r' + c) * p == (r + k * pm) * p;
    assert (k * pm) * p == k * (p * pm);
  }

  /** The borrow `c` that subtracting the square of the quotient leaves for limb
      2 * l: a quotient of B^l, flagged by `qh`, only needs the borrow. */
  method SquareLow(tabs: array<Limb>, so: nat, taba: array<Limb>, ao: nat, l: nat, n: nat, qh: Limb)
    returns (c: Limb)
    requires 1 <= l && 2 * l <= n && so + l <= tabs.Length && ao + n + 2 * l <= taba.Length && tabs != taba
    requires qh <= 1 && (qh == 1 ==> Num(tabs[..], so, l) == 0)
    modifies taba
    ensures c <= 1
    ensures var q := Num(tabs[..], so, l) + qh * Pow(l);
      Num(taba[..], ao, 2 * l) + q * q == old(Num(taba[..], ao, 2 * l)) + c * Pow(2 * l)
    ensures forall j :: ao + 2 * l <= j < ao + n ==> taba[j] == old(taba[j])
    ensures forall j :: 0 <= j < taba.Length && !(ao <= j < ao + n + 2 * l) ==> taba[j] == old(taba[j])
  {
    if qh != 0 {
      c := qh;
      PowAdd(l, l);
    } else {
      NoCarry(qh, Pow(l));
      ghost var a0: seq<Limb> := taba[..];
      MpMulBasecase(taba, ao + n, tabs, so, l, tabs, so, l);
      NumSame(a0, taba[..], ao, 2 * l);
      c := MpSub(taba, ao, taba, ao, taba, ao + n, 2 * l, 0);
    }
  }

  /** Subtracts the square of the quotient from the `n` low limbs. */
  method SubtractSquare(tabs: array<Limb>, so: nat, taba: array<Limb>, ao: nat, l: nat, h: nat, qh: Limb)
    returns (k: Limb)
    requires 1 <= l <= h <= l + 1 && so + l <= tabs.Length && ao + 2 * (l + h) <= taba.Length && tabs != taba
    requires qh <= 1 && (qh == 1 ==> Num(tabs[..], so, l) == 0)
    modifies taba
    ensures k <= 1
    ensures var q := Num(tabs[..], so, l) + qh * Pow(l);
      Num(taba[..], ao, l + h) + q * q == old(Num(taba[..], ao, l + h)) + k * Pow(l + h)
    ensures forall j :: 0 <= j < taba.Length && !(ao <= j < ao + 2 * (l + h)) ==> taba[j] == old(taba[j])
  {
    ghost var a0: seq<Limb>, q := taba[..], Num(tabs[..], so, l) + qh * Pow(l);
    var n, m := l + h, h - l;
    var c := SquareLow(tabs, so, taba, ao, l, n, qh);
    ghost var a2: seq<Limb> := taba[..];
    k := MpSubUi(taba, ao + 2 * l, c, m);
    SquareWindows(a0, a2, taba[..], ao, l, m, q * q, c, k);
  }

  lemma SquareWindows(a0: seq<Limb>, a2: seq<Limb>, a3: seq<Limb>, ao: nat, l: nat, m: nat, qq: nat, c: Limb, k: Limb)
    requires ao + 2 * l + m <= |a0| == |a2| == |a3|
    requires Num(a2, ao, 2 * l) + qq == Num(a0, ao, 2 * l) + c * Pow(2 * l)
    requires forall j :: ao + 2 * l <= j < ao + 2 * l + m ==> a2[j] == a0[j]
    requires forall j :: ao <= j < ao + 2 * l ==> a3[j] == a2[j]
    requires Num(a3, ao + 2 * l, m) + c == Num(a2, ao + 2 * l, m) + k * Pow(m)
    ensures Num(a3, ao, 2 * l + m) + qq == Num(a0, ao, 2 * l + m) + k * Pow(2 * l + m)
  {
    NumSame(a2, a3, ao, 2 * l);
    NumSame(a0, a2, ao + 2 * l, m);
    NumSplit(a0, ao, 2 * l, m);
    NumSplit(a3, ao, 2 * l, m);
    PowAdd(2 * l, m);
    JoinWindows(Num(a3, ao, 2 * l), Num(a3, ao + 2 * l, m), Num(a0, ao, 2 * l),
                Num(a0, ao + 2 * l, m), qq, c, k, Pow(2 * l), Pow(m));
  }

  /** Adds the top of the quotient to the root, possibly wrapping to zero. */
  method AddQuotientTop(tabs: array<Limb>, so: nat, l: nat, h: nat, qh: Limb) returns (ghost k: nat)
    requires 1 <= h && so + l + h <= tabs.Length && qh <= 1
    modifies tabs
    ensures k <= 1
    ensures Num(tabs[..], so, l + h) + k * Pow(l + h)
         == old(Num(tabs[..], so + l, h)) * Pow(l) + (old(Num(tabs[..], so, l)) + qh * Pow(l))
    ensures forall j :: 0 <= j < tabs.Length && !(so + l <= j < so + l + h) ==> tabs[j] == old(tabs[j])
  {
    ghost var t0: seq<Limb> := tabs[..];
    k := MpAddUi(tabs, so + l, qh, h);
    NumSame(t0, tabs[..], so, l);
    NumSplit(tabs[..], so, l, h);
    PowAdd(l, h);
    TopAdded(Num(tabs[..], so + l, h), Num(t0, so + l, h), k, qh, Pow(l), Pow(h));
  }

  lemma TopAdded(hi': nat, hi: nat, k: nat, qh: nat, p: nat, ph: nat)
    requires hi' + k * ph == hi + qh
    ensures hi' * p + k * (p * ph) == hi * p + qh * p
  {
    assert (hi' + k * ph) * p == (hi + qh) * p;
    assert (k * ph) * p == k * (p * ph);
  }

  /** The correction of mp_sqrtrem_rec: the remainder was negative, so the root
      is lowered by one and the remainder raised by twice the new root plus one. */
  method LowerRoot(tabs: array<Limb>, so: nat, taba: array<Limb>, ao: nat, n: nat, rh0: Limb, ghost s: nat, ghost k: nat)
    returns (rh: Limb)
    requires 1 <= n && so + n <= tabs.Length && ao + n <= taba.Length && tabs != taba
    requires k <= 1 && Num(tabs[..], so, n) + k * Pow(n) == s && 1 <= s <= Pow(n)
    requires rh0 == 0xFFFF_FFFF_FFFF_FFFF
    requires 0 <= Num(taba[..], ao, n) - Pow(n) + 2 * s - 1 <= 2 * (s - 1)
    modifies tabs, taba
    ensures Num(tabs[..], so, n) == s - 1 && rh <= 1
    ensures Num(taba[..], ao, n) + rh * Pow(n) == old(Num(taba[..], ao, n)) - Pow(n) + 2 * s - 1
    ensures forall j :: 0 <= j < tabs.Length && !(so <= j < so + n) ==> tabs[j] == old(tabs[j])
    ensures forall j :: 0 <= j < taba.Length && !(ao <= j < ao + n) ==> taba[j] == old(taba[j])
  {
    ghost var r := Num(taba[..], ao, n) - Pow(n) + 2 * s - 1;
    var b := MpSubUi(tabs, so, 1, n);
    NumBound(tabs[..], so, n);
    LoweredModulo(Num(tabs[..], so, n), s, k, b, Pow(n));
    var c1 := MpAddMul1(taba, ao, tabs, so, n, 2);
    var c2 := MpAddUi(taba, ao, 1, n);
    NumBound(taba[..], ao, n);
    RaisedCarry(Num(taba[..], ao, n), r, c1, c2, Pow(n));
    rh := Wrap(rh0 as int + c1 + c2);
  }

  lemma LoweredModulo(x: nat, s: nat, k: nat, b: nat, p: nat)
    requires x + 1 + k * p == s + b * p && x < p && 1 <= s <= p && k <= 1 && b <= 1
    ensures x == s - 1
  {
    assert (b - k) * p == b * p - k * p;
    QuotientUnique(0, x, b - k, s - 1, p);
  }

  lemma RaisedCarry(x: nat, r: nat, c1: nat, c2: nat, p: nat)
    requires x + c1 * p + c2 * p == r + p && x < p && r < 2 * p
    ensures 1 <= c1 + c2 <= 2 && x + (c1 + c2 - 1) * p == r
  {
    assert (c1 + c2 - 1) * p == c1 * p + c2 * p - p;
    if c1 + c2 == 0 { NoCarry(c1, p); NoCarry(c2, p); }
    if c1 + c2 >= 3 { MulMonotone(2, c1 + c2 - 1, p); }
  }

  lemma RootFits(s1: nat, q: nat, L: nat, H: nat, s: nat, t: int)
    requires s == s1 * L + q && s1 < H && q <= L && 1 <= s1 && 1 <= L
    requires s * s + t < (L * H) * (L * H)
    ensures 1 <= s <= L * H && (t >= 0 ==> s < L * H)
  {
    MulMonotone(1, s1, L);
    MulMonotone(s1 + 1, H, L);
    if s >= L * H {
      MulMonotone(L * H, s, s);
      MulMonotone(L * H, s, L * H);
    }
  }

  /** The root of a number whose top two bits are not both zero has its top bit set. */
  lemma RootNormalised(a: seq<Limb>, ao: nat, h: nat, t: seq<Limb>, so: nat, r: nat)
    requires 1 <= h && ao + 2 * h <= |a| && so + h <= |t| && a[ao + 2 * h - 1] >= 0x4000_0000_0000_0000
    requires IsSqrt(Num(a, ao, 2 * h), Num(t, so, h), r)
    ensures Normalised(t, so, h)
  {
    var P, s1, x: int := Pow(h - 1), Num(t, so, h), t[so + h - 1];
    if x < 0x8000_0000_0000_0000 {
      NumBound(t, so, h - 1);
      TopLimb(t, so, h - 1);
      NextMultiple(x, P);
      MulMonotone(x + 1, 0x8000_0000_0000_0000, P);
      TopLimb(a, ao, 2 * h - 1);
      MulMonotone(0x4000_0000_0000_0000, a[ao + 2 * h - 1], Pow(2 * h - 1));
      PowAdd(h - 1, h - 1);
      assert Pow(2 * h - 1) == 0x1_0000_0000_0000_0000 * (P * P);
      RootTooSmall(s1, r, Num(a, ao, 2 * h), P);
    }
  }

  lemma RootTooSmall(s: nat, r: nat, a: nat, p: nat)
    requires s + 1 <= 0x8000_0000_0000_0000 * p
    requires 0x4000_0000_0000_0000 * (0x1_0000_0000_0000_0000 * (p * p)) <= a
    ensures !IsSqrt(a, s, r)
  {
    var b := 0x8000_0000_0000_0000 * p;
    MulMonotone(s + 1, b, s + 1);
    MulMonotone(s + 1, b, b);
    assert b * b == 0x4000_0000_0000_0000 * (0x1_0000_0000_0000_0000 * (p * p));
    assert (s + 1) * (s + 1) == s * s + 2 * s + 1;
  }

  /** Exact root estimate `s` and remainder `t` of the number `a`; the quotient
      `q` is at most L, and N is the bound of the root. */
  ghost predicate Estimated(a: nat, s: nat, t: int, q: nat, L: nat, N: nat) {
    && a == s * s + t && q <= L
    && 0 <= t + N && t <= 2 * s && 1 <= s <= N
    && (t >= 0 ==> s < N)
    && (t < 0 ==> 0 <= t + 2 * s - 1 <= 2 * (s - 1))
  }

  /** The doubling step with the sizes of mp_sqrtrem_rec: L = B^l and H = B^h. */
  lemma EstimateRoot(a: nat, hi: nat, s1: nat, r1: nat, L: nat, H: nat, al: nat, a0: nat, q: nat, u: nat)
    requires IsSqrt(hi, s1, r1) && H <= 2 * s1 && s1 < H && 1 <= L <= H
    requires DividedBack(r1, al, L, s1, q, u) && al < L && a0 < L
    requires a == hi * (L * L) + al * L + a0 && a < (L * H) * (L * H)
    ensures Estimated(a, s1 * L + q, u * L + a0 - q * q, q, L, L * H)
  {
    DoublingStep(hi, s1, r1, L, al, a0, q, u);
    RootFits(s1, q, L, H, s1 * L + q, u * L + a0 - q * q);
    MulMonotone(L, H, L);
  }

  /** The number `a` in three parts: the 2 * h upper limbs and twice l limbs. */
  ghost predicate SquareParts(a: nat, hi: nat, al: nat, a0: nat, l: nat, h: nat) {
    a == hi * Pow(2 * l) + al * Pow(l) + a0 && a < Pow(2 * (l + h)) && al < Pow(l) && a0 < Pow(l)
  }

  lemma LimbDoubling(a: nat, hi: nat, s1: nat, r1: nat, l: nat, h: nat, al: nat, a0: nat, q: nat, u: nat)
    requires 1 <= l <= h && IsSqrt(hi, s1, r1) && Pow(h) <= 2 * s1 && s1 < Pow(h)
    requires DividedBack(r1, al, Pow(l), s1, q, u) && SquareParts(a, hi, al, a0, l, h)
    ensures Estimated(a, s1 * Pow(l) + q, u * Pow(l) + a0 - q * q, q, Pow(l), Pow(l + h))
  {
    PowMonotone(l, h);
    PowAdd(l, l);
    PowAdd(l, h);
    PowAdd(l + h, l + h);
    EstimateRoot(a, hi, s1, r1, Pow(l), Pow(h), al, a0, q, u);
  }

  /** The state of mp_sqrtrem_rec after its division: where the parts of the
      estimate `s` and of its remainder `t` are stored. */
  ghost predicate DoublingState(a: nat, s: nat, t: int, tabs: seq<Limb>, so: nat, taba: seq<Limb>, ao: nat,
                                l: nat, h: nat, qh: Limb, rh: Limb)
    requires so + l + h <= |tabs| && ao + l + h <= |taba|
  {
    var q := Num(tabs, so, l) + qh * Pow(l);
    && Estimated(a, s, t, q, Pow(l), Pow(l + h))
    && s == Num(tabs, so + l, h) * Pow(l) + q
    && t == Num(taba, ao, l + h) + rh * Pow(l + h) - q * q
  }

  lemma FullQuotient(x: nat, qh: nat, p: nat)
    requires x + qh * p <= p && 0 < p && qh <= 1
    ensures qh == 1 ==> x == 0
  {
  }

  /** The remainder of a non-negative estimate has a top limb of 0 or 1, and a
      negative one of -1. */
  lemma RemainderTop(x: nat, rh0: int, k: int, t: int, s: nat, p: nat)
    requires x < p && t == x + rh0 * p - k * p && -1 <= rh0 - k <= 1
    requires 0 <= t + p && t <= 2 * s && 1 <= s <= p
    ensures rh0 - k >= 0 <==> t >= 0
    ensures t == (if rh0 - k < 0 then x - p else x + (rh0 - k) * p)
  {
    assert (rh0 - k) * p == rh0 * p - k * p;
    if rh0 - k == 0 { NoCarry(rh0 - k, p); }
    if rh0 - k == 1 { assert (rh0 - k) * p == p; }
    if rh0 - k == -1 { assert (rh0 - k) * p + p == 0; }
  }

  /** Lowers the root by one if the remainder came out negative. */
  method SettleRoot(tabs: array<Limb>, so: nat, taba: array<Limb>, ao: nat, n: nat, rh0: Limb, b: Limb,
                    ghost a: nat, ghost s: nat, ghost t: int, ghost k: nat, ghost q: nat, ghost L: nat)
    returns (rh: Limb)
    requires 1 <= n && so + n <= tabs.Length && ao + n <= taba.Length && tabs != taba
    requires rh0 <= 1 && b <= 1 && k <= 1 && Num(tabs[..], so, n) + k * Pow(n) == s
    requires t == Num(taba[..], ao, n) + rh0 * Pow(n) - b * Pow(n)
    requires Estimated(a, s, t, q, L, Pow(n))
    modifies tabs, taba
    ensures SqrtLimbs(a, tabs[..], so, taba[..], ao, n, rh)
    ensures forall j :: 0 <= j < tabs.Length && !(so <= j < so + n) ==> tabs[j] == old(tabs[j])
    ensures forall j :: 0 <= j < taba.Length && !(ao <= j < ao + n) ==> taba[j] == old(taba[j])
  {
    rh := Wrap(rh0 as int - b);
    NumBound(taba[..], ao, n);
    NumBound(tabs[..], so, n);
    RemainderTop(Num(taba[..], ao, n), rh0, b, t, s, Pow(n));
    if rh >= 0x8000_0000_0000_0000 {
      LoweredRoot(a, s, t);
      rh := LowerRoot(tabs, so, taba, ao, n, rh, s, k);
      StoredRoot(a, s - 1, t + 2 * s - 1, tabs[..], so, taba[..], ao, n, rh);
    } else {
      RootKept(Num(tabs[..], so, n), s, k, Pow(n));
      StoredRoot(a, s, t, tabs[..], so, taba[..], ao, n, rh);
    }
  }

  /** The second half of mp_sqrtrem_rec: from the estimate to the root. */
  method SqrtFinish(tabs: array<Limb>, so: nat, taba: array<Limb>, ao: nat, l: nat, h: nat, qh: Limb, rh0: Limb,
                    ghost a: nat, ghost s: nat, ghost t: int)
    returns (rh: Limb)
    requires 1 <= l <= h <= l + 1 && so + l + h <= tabs.Length && ao + 2 * (l + h) <= taba.Length && tabs != taba
    requires qh <= 1 && rh0 <= 1
    requires DoublingState(a, s, t, tabs[..], so, taba[..], ao, l, h, qh, rh0)
    modifies tabs, taba
    ensures SqrtLimbs(a, tabs[..], so, taba[..], ao, l + h, rh)
    ensures forall j :: 0 <= j < tabs.Length && !(so <= j < so + l + h) ==> tabs[j] == old(tabs[j])
    ensures forall j :: 0 <= j < taba.Length && !(ao <= j < ao + 2 * (l + h)) ==> taba[j] == old(taba[j])
  {
    var n := l + h;
    ghost var t0: seq<Limb> := tabs[..];
    ghost var k := AddQuotientTop(tabs, so, l, h, qh);
    NumSame(t0, tabs[..], so, l);
    FullQuotient(Num(t0, so, l), qh, Pow(l));
    var b := SubtractSquare(tabs, so, taba, ao, l, h, qh);
    rh := SettleRoot(tabs, so, taba, ao, n, rh0, b, a, s, t, k, Num(t0, so, l) + qh * Pow(l), Pow(l));
  }

  lemma StoredRoot(a: nat, s: int, r: int, tabs: seq<Limb>, so: nat, taba: seq<Limb>, ao: nat, n: nat, rh: Limb)
    requires so + n <= |tabs| && ao + n <= |taba| && IsSqrt(a, s, r)
    requires Num(tabs, so, n) == s && Num(taba, ao, n) + rh * Pow(n) == r && rh <= 1
    ensures SqrtLimbs(a, tabs, so, taba, ao, n, rh)
  {
  }

  lemma RootKept(x: nat, s: nat, k: nat, p: nat)
    requires x + k * p == s && s < p && k <= 1
    ensures x == s
  {
    if k != 1 { NoCarry(k, p); }
  }

  lemma SplitSquare(a: seq<Limb>, ao: nat, l: nat, h: nat)
    requires ao + 2 * (l + h) <= |a|
    ensures SquareParts(Num(a, ao, 2 * (l + h)), Num(a, ao + 2 * l, 2 * h), Num(a, ao + l, l), Num(a, ao, l), l, h)
  {
    NumSplit(a, ao, 2 * l, 2 * h);
    NumSplit(a, ao, l, l);
    NumBound(a, ao, 2 * (l + h));
    NumBound(a, ao + l, l);
    NumBound(a, ao, l);
  }

  lemma RemainderWindow(a: seq<Limb>, ao: nat, l: nat, h: nat, rh: nat)
    requires ao + l + h <= |a|
    ensures (Num(a, ao + l, h) + rh * Pow(h)) * Pow(l) + Num(a, ao, l) == Num(a, ao, l + h) + rh * Pow(l + h)
  {
    NumSplit(a, ao, l, h);
    PowAdd(l, h);
    ScaleSum(Num(a, ao + l, h), rh, Pow(h), Pow(l));
  }

  lemma ScaleSum(x: int, k: int, p: int, q: int)
    ensures (x + k * p) * q == x * q + k * (q * p)
  {
    assert (k * p) * q == k * (q * p);
  }

  /** The doubling of mp_sqrtrem_rec, given root and remainder of the upper half. */
  method SqrtDouble(tabs: array<Limb>, so: nat, taba: array<Limb>, ao: nat, l: nat, h: nat, tmp: array<Limb>,
                    qh0: Limb, ghost hi: nat, ghost a: nat)
    returns (qh: Limb, rh: Limb, ghost s: nat, ghost t: int)
    requires 1 <= l <= h <= l + 1 && so + l + h <= tabs.Length && ao + 2 * l + h <= taba.Length && l < tmp.Length
    requires tabs != taba && tabs != tmp && taba != tmp && qh0 <= 1
    requires Normalised(tabs[..], so + l, h)
    requires SqrtLimbs(hi, tabs[..], so + l, taba[..], ao + 2 * l, h, qh0)
    requires SquareParts(a, hi, Num(taba[..], ao + l, l), Num(taba[..], ao, l), l, h)
    modifies tabs, taba, tmp
    ensures qh <= 1 && rh <= 1
    ensures DoublingState(a, s, t, tabs[..], so, taba[..], ao, l, h, qh, rh)
    ensures forall j :: 0 <= j < tabs.Length && !(so <= j < so + l + h) ==> tabs[j] == old(tabs[j])
    ensures forall j :: 0 <= j < taba.Length && !(ao <= j < ao + 2 * l + h) ==> taba[j] == old(taba[j])
  {
    ghost var s1, r1 := Num(tabs[..], so + l, h), Num(taba[..], ao + 2 * l, h) + qh0 * Pow(h);
    ghost var al, a1: seq<Limb> := Num(taba[..], ao + l, l), taba[..];
    ghost var t0: seq<Limb> := tabs[..];
    NormalisedBounds(tabs[..], so + l, h);
    SqrtQuotient(tabs, so, taba, ao, l, h, tmp, qh0);
    qh, rh := SqrtHalve(tabs, so, taba, ao + l, l, h, tmp, qh0 + tmp[l], r1, al);
    NumSame(a1, taba[..], ao, l);
    NumSame(t0, tabs[..], so + l, h);
    s, t := DoublingLimbs(a, hi, s1, r1, al, tabs[..], so, taba[..], ao, l, h, qh, rh);
  }

  lemma DoublingLimbs(a: nat, hi: nat, s1: nat, r1: nat, al: nat, tabs: seq<Limb>, so: nat, taba: seq<Limb>,
                      ao: nat, l: nat, h: nat, qh: Limb, rh: Limb)
    returns (s: nat, t: int)
    requires 1 <= l <= h && so + l + h <= |tabs| && ao + l + h <= |taba|
    requires IsSqrt(hi, s1, r1) && Pow(h) <= 2 * s1 && s1 < Pow(h) && s1 == Num(tabs, so + l, h)
    requires DividedBack(r1, al, Pow(l), s1, Num(tabs, so, l) + qh * Pow(l), Num(taba, ao + l, h) + rh * Pow(h))
    requires SquareParts(a, hi, al, Num(taba, ao, l), l, h)
    ensures DoublingState(a, s, t, tabs, so, taba, ao, l, h, qh, rh)
  {
    MulMonotone(0, qh, Pow(l));
    MulMonotone(0, rh, Pow(h));
    MulMonotone(0, s1, Pow(l));
    var q: nat, u: nat := Num(tabs, so, l) + qh * Pow(l), Num(taba, ao + l, h) + rh * Pow(h);
    RemainderWindow(taba, ao, l, h, rh);
    LimbDoubling(a, hi, s1, r1, l, h, al, Num(taba, ao, l), q, u);
    s, t := s1 * Pow(l) + q, u * Pow(l) + Num(taba, ao, l) - q * q;
  }

  lemma LowSame(s: seq<Limb>, t: seq<Limb>, off: nat, l: nat)
    requires off + 2 * l <= |s| == |t| && forall j :: off <= j < off + 2 * l ==> s[j] == t[j]
    ensures Num(t, off, l) == Num(s, off, l) && Num(t, off + l, l) == Num(s, off + l, l)
  {
    NumSame(s, t, off, l);
    NumSame(s, t, off + l, l);
  }

  /** Root and remainder of the 2 * n limbs of `taba`: the root goes to `tabs`,
      the remainder stays in the n low limbs of `taba` with the result above it. */
  method MpSqrtremRec(tabs: array<Limb>, so: nat, taba: array<Limb>, ao: nat, n: nat, tmp: array<Limb>)
    returns (rh: Limb)
    requires 1 <= n && so + n <= tabs.Length && ao + 2 * n <= taba.Length && n / 2 < tmp.Length
    requires tabs != taba && tabs != tmp && taba != tmp
    requires taba[ao + 2 * n - 1] >= 0x4000_0000_0000_0000
    modifies tabs, taba, tmp
    ensures SqrtLimbs(old(Num(taba[..], ao, 2 * n)), tabs[..], so, taba[..], ao, n, rh)
    ensures forall j :: 0 <= j < tabs.Length && !(so <= j < so + n) ==> tabs[j] == old(tabs[j])
    ensures forall j :: 0 <= j < taba.Length && !(ao <= j < ao + 2 * n) ==> taba[j] == old(taba[j])
    decreases n
  {
    if n == 1 {
      rh := MpSqrtrem2(tabs, so, taba, ao);
      return;
    }
    ghost var a0: seq<Limb> := taba[..];
    var l := n / 2;
    var h := n - l;
    SplitSquare(a0, ao, l, h);
    var qh := MpSqrtremRec(tabs, so + l, taba, ao + 2 * l, h, tmp);
    RootNormalised(a0, ao + 2 * l, h, tabs[..], so + l, Num(taba[..], ao + 2 * l, h) + qh * Pow(h));
    LowSame(a0, taba[..], ao, l);
    ghost var s, t, a, hi := 0, 0, Num(a0, ao, 2 * n), Num(a0, ao + 2 * l, 2 * h);
    qh, rh, s, t := SqrtDouble(tabs, so, taba, ao, l, h, tmp, qh, hi, a);
    rh := SqrtFinish(tabs, so, taba, ao, l, h, qh, rh, a, s, t);
  }

  /** mp_sqrtrem: the top limb of the remainder is stored above its n limbs. */
  method MpSqrtrem(tabs: array<Limb>, taba: array<Limb>, n: nat)
    requires 1 <= n <= tabs.Length && 2 * n <= taba.Length && tabs != taba
    requires taba[2 * n - 1] >= 0x4000_0000_0000_0000
    modifies tabs, taba
    ensures IsFloorRoot(Num(tabs[..], 0, n), old(Num(taba[..], 0, 2 * n)))
    ensures Num(taba[..], 0, n + 1) == old(Num(taba[..], 0, 2 * n)) - Num(tabs[..], 0, n) * Num(tabs[..], 0, n)
    ensures taba[n] <= 1
  {
    var tmp := new Limb[n / 2 + 1](_ => 0);
    var rh := MpSqrtremRec(tabs, 0, taba, 0, n, tmp);
    SqrtIsFloor(old(Num(taba[..], 0, 2 * n)), Num(tabs[..], 0, n), Num(taba[..], 0, n) + rh * Pow(n));
    ghost var a1: seq<Limb> := taba[..];
    taba[n] := rh;
    NumSame(a1, taba[..], 0, n);
    TopLimb(taba[..], 0, n);
  }
}
