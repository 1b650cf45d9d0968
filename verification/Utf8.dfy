/** The UTF-8 and UTF-16 codecs of Sources/SubstrataQuickJS/cutils.c: encoders and
    decoders over buffers, lone surrogates and truncated destinations included. */
module Utf8 {

  import opened Common

  type Unit = x: int | 0 <= x < 0x1_0000
  type CodePoint = x: int | 0 <= x < 0x11_0000

  const REPLACEMENT: CodePoint := 0xFFFD

  // ---------------------------------------------------------------------
  // One character
  // ---------------------------------------------------------------------

  /** utf8_encode_len, for any 32-bit value */
  function EncodeLen(c: nat): nat {
    if c < 0x80 then 1 else if c < 0x800 then 2 else if c < 0x1_0000 then 3 else if c < 0x11_0000 then 4 else 3
  }

  /** utf8_encode, for any 32-bit value */
  function Encode(c: nat): (s: seq<Byte>)
    ensures |s| == EncodeLen(c)
  {
    if c < 0x80 then [c]
    else if c < 0x800 then [0xC0 + c / 64, 0x80 + c % 64]
    else if c < 0x1_0000 then [0xE0 + c / 0x1000, 0x80 + c / 64 % 64, 0x80 + c % 64]
    else if c < 0x11_0000 then [0xF0 + c / 0x4_0000, 0x80 + c / 0x1000 % 64, 0x80 + c / 64 % 64, 0x80 + c % 64]
    else [0xEF, 0xBF, 0xBD]
  }

  predicate Continues(b: Byte) {
    0x80 <= b <= 0xBF
  }

  /** The code points of two, three and four byte sequences. */
  function Join2(a: int, b: int): int {
    (a - 0xC0) * 64 + (b - 0x80)
  }

  function Join3(a: int, b: int, c: int): int {
    (a - 0xE0) * 0x1000 + (b - 0x80) * 64 + (c - 0x80)
  }

  function Join4(a: int, b: int, c: int, d: int): int {
    (a - 0xF0) * 0x4_0000 + (b - 0x80) * 0x1000 + (c - 0x80) * 64 + (d - 0x80)
  }

  lemma Split2(c: int)
    ensures Join2(0xC0 + c / 64, 0x80 + c % 64) == c
  {
  }

  lemma Split3(c: int)
    ensures Join3(0xE0 + c / 0x1000, 0x80 + c / 64 % 64, 0x80 + c % 64) == c
  {
    assert c / 0x1000 == c / 64 / 64;
  }

  lemma Split4(c: int)
    ensures Join4(0xF0 + c / 0x4_0000, 0x80 + c / 0x1000 % 64, 0x80 + c / 64 % 64, 0x80 + c % 64) == c
  {
    assert c / 0x1000 == c / 64 / 64 && c / 0x4_0000 == c / 64 / 64 / 64;
  }

  lemma Joined2(a: int, b: int)
    requires 0 <= b - 0x80 < 64
    ensures var c := Join2(a, b); 0xC0 + c / 64 == a && 0x80 + c % 64 == b
  {
  }

  lemma Joined3(a: int, b: int, c: int)
    requires 0 <= b - 0x80 < 64 && 0 <= c - 0x80 < 64
    ensures var x := Join3(a, b, c); 0xE0 + x / 0x1000 == a && 0x80 + x / 64 % 64 == b && 0x80 + x % 64 == c
  {
    var x := Join3(a, b, c);
    assert x / 64 == (a - 0xE0) * 64 + (b - 0x80);
    assert x / 0x1000 == x / 64 / 64;
  }

  lemma Joined4(a: int, b: int, c: int, d: int)
    requires 0 <= b - 0x80 < 64 && 0 <= c - 0x80 < 64 && 0 <= d - 0x80 < 64
    ensures var x := Join4(a, b, c, d);
      0xF0 + x / 0x4_0000 == a && 0x80 + x / 0x1000 % 64 == b && 0x80 + x / 64 % 64 == c && 0x80 + x % 64 == d
  {
    var x := Join4(a, b, c, d);
    assert x / 64 == (a - 0xF0) * 0x1000 + (b - 0x80) * 64 + (c - 0x80);
    assert x / 64 / 64 == (a - 0xF0) * 64 + (b - 0x80);
    assert x / 0x1000 == x / 64 / 64 && x / 0x4_0000 == x / 64 / 64 / 64;
  }

  datatype Decoded = Decoded(c: CodePoint, used: nat)

  /** utf8_decode with utf8_decode_len's guard: the first character of `s` and the
      bytes it takes; an error takes one byte. */
  function Decode(s: seq<Byte>): (r: Decoded)
    requires s != []
    ensures 1 <= r.used <= Min(|s|, 4)
  {
    var c: int := s[0];
    if c < 0x80 then Decoded(c, 1)
    else if 0xC2 <= c <= 0xDF && |s| >= 2 && Continues(s[1]) then
      Decoded(Join2(c, s[1]), 2)
    else if 0xE0 <= c <= 0xEF && |s| >= 3 && Continues(s[1]) && Continues(s[2]) && (c == 0xE0 ==> s[1] >= 0xA0) then
      Decoded(Join3(c, s[1], s[2]), 3)
    else if 0xF0 <= c <= 0xF4 && |s| >= 4 && Continues(s[1]) && Continues(s[2]) && Continues(s[3])
            && (c == 0xF0 ==> s[1] >= 0x90) && (c == 0xF4 ==> s[1] <= 0x8F) then
      Decoded(Join4(c, s[1], s[2], s[3]), 4)
    else Decoded(REPLACEMENT, 1)
  }

  /** utf8_decode_len: reads no byte behind the first `maxLen`. */
  method DecodeLen(s: seq<Byte>, p: nat, maxLen: nat) returns (c: CodePoint, next: nat)
    requires p + maxLen <= |s|
    ensures maxLen == 0 ==> c == 0xFFFD && next == p
    ensures maxLen > 0 ==> c == Decode(s[p..p + maxLen]).c && next == p + Decode(s[p..p + maxLen]).used
  {
    ghost var t := s[p..p + maxLen];
    if maxLen == 0 {
      return REPLACEMENT, p;
    }
    if (maxLen == 1 && s[p] >= 0x80) || (maxLen == 2 && s[p] >= 0xE0) || (maxLen == 3 && s[p] >= 0xF0) {
      return REPLACEMENT, p + 1;
    }
    var lead: int := s[p];
    if lead < 0x80 {
      return lead, p + 1;
    }
    if 0xC2 <= lead <= 0xDF {
      if Continues(s[p + 1]) {
        return Join2(lead, s[p + 1]), p + 2;
      }
    } else if 0xE0 <= lead <= 0xEF {
      var lower := if lead == 0xE0 then 0xA0 else 0x80;
      if lower <= s[p + 1] <= 0xBF && Continues(s[p + 2]) {
        return Join3(lead, s[p + 1], s[p + 2]), p + 3;
      }
    } else if 0xF0 <= lead <= 0xF4 {
      var lower := if lead == 0xF0 then 0x90 else 0x80;
      var upper := if lead == 0xF4 then 0x8F else 0xBF;
      if lower <= s[p + 1] <= upper && Continues(s[p + 2]) && Continues(s[p + 3]) {
        return Join4(lead, s[p + 1], s[p + 2], s[p + 3]), p + 4;
      }
    }
    return REPLACEMENT, p + 1;
  }

  /** A character decodes to itself, whatever follows it. */
  lemma DecodeEncode(c: CodePoint, t: seq<Byte>)
    ensures Decode(Encode(c) + t) == Decoded(c, EncodeLen(c))
  {
    var e, s := Encode(c), Encode(c) + t;
    assert s[0] == e[0];
    if c >= 0x80 { assert s[1] == e[1]; }
    if c >= 0x800 { assert s[2] == e[2]; }
    if c >= 0x1_0000 { assert s[3] == e[3]; }
    if c < 0x80 {
    } else if c < 0x800 {
      Split2(c);
    } else if c < 0x1_0000 {
      Split3(c);
    } else {
      Split4(c);
    }
  }

  /** The decoder takes more than one byte only for exactly what the encoder
      writes. */
  lemma DecodedIsEncoded(s: seq<Byte>)
    requires s != []
    ensures Decode(s).used > 1 || s[0] < 0x80 ==> s[..Decode(s).used] == Encode(Decode(s).c)
    ensures Decode(s).used == 1 && s[0] >= 0x80 ==> Decode(s).c == 0xFFFD
  {
    var r := Decode(s);
    if r.used == 2 {
      Joined2(s[0], s[1]);
    } else if r.used == 3 {
      Joined3(s[0], s[1], s[2]);
    } else if r.used == 4 {
      Joined4(s[0], s[1], s[2], s[3]);
    }
  }

  /** The forms of section 3 of RFC 3629, and its examples of section 7. */
  lemma Forms(c: CodePoint)
    ensures var s := Encode(c);
      && |s| == (if c <= 0x7F then 1 else if c <= 0x7FF then 2 else if c <= 0xFFFF then 3 else 4)
      && (if |s| == 1 then s[0] <= 0x7F else if |s| == 2 then 0xC2 <= s[0] <= 0xDF
          else if |s| == 3 then 0xE0 <= s[0] <= 0xEF else 0xF0 <= s[0] <= 0xF4)
      && forall k :: 1 <= k < |s| ==> 0x80 <= s[k] <= 0xBF
    ensures Encode(0x2262) == [0xE2, 0x89, 0xA2] && Encode(0x391) == [0xCE, 0x91] && Encode(0x2E) == [0x2E]
    ensures Encode(0xD55C) == [0xED, 0x95, 0x9C] && Encode(0x8A9E) == [0xE8, 0xAA, 0x9E]
    ensures Encode(0xFEFF) == [0xEF, 0xBB, 0xBF] && Encode(0x2_33B4) == [0xF0, 0xA3, 0x8E, 0xB4]
  {
  }

  /** A value that is no code point is written like U+FFFD. */
  lemma Beyond(c: nat)
    requires c >= 0x11_0000
    ensures Encode(c) == Encode(0xFFFD) == [0xEF, 0xBF, 0xBD]
  {
  }

  lemma DigitOrder(x: nat, y: nat)
    requires x < y
    ensures x / 64 < y / 64 || (x / 64 == y / 64 && x % 64 < y % 64)
  {
  }

  /** `s` comes before `t`; they differ first at `k`. */
  predicate Before(s: seq<Byte>, t: seq<Byte>, k: nat) {
    k < |s| && k < |t| && s[..k] == t[..k] && s[k] < t[k]
  }

  lemma OrderedBytes(s: seq<Byte>, t: seq<Byte>, k: nat)
    requires k < |s| && k < |t| && s[k] < t[k] && forall i :: 0 <= i < k ==> s[i] == t[i]
    ensures Before(s, t, k)
  {
  }

  /** The order of code points is that of their bytes. */
  lemma Ordered(c: CodePoint, d: CodePoint) returns (k: nat)
    requires c < d
    ensures Before(Encode(c), Encode(d), k)
  {
    if EncodeLen(c) < EncodeLen(d) {
      k := 0;
    } else {
      k := SameLength(c, d);
    }
    OrderedBytes(Encode(c), Encode(d), k);
  }

  lemma SameLength(c: CodePoint, d: CodePoint) returns (k: nat)
    requires c < d && EncodeLen(c) == EncodeLen(d)
    ensures k < EncodeLen(c) && Encode(c)[k] < Encode(d)[k] && forall i :: 0 <= i < k ==> Encode(c)[i] == Encode(d)[i]
  {
    var n := EncodeLen(c);
    var c1, d1, c2, d2 := c / 64, d / 64, c / 64 / 64, d / 64 / 64;
    assert c / 0x1000 == c2 && d / 0x1000 == d2 && c / 0x4_0000 == c2 / 64 && d / 0x4_0000 == d2 / 64;
    DigitOrder(c, d);
    if c1 < d1 { DigitOrder(c1, d1); }
    if c2 < d2 { DigitOrder(c2, d2); }
    if n == 1 {
      k := 0;
    } else if n == 2 {
      k := if c1 < d1 then 0 else 1;
    } else if n == 3 {
      k := if c2 < d2 then 0 else if c1 < d1 then 1 else 2;
    } else {
      k := if c2 / 64 < d2 / 64 then 0 else if c2 < d2 then 1 else if c1 < d1 then 2 else 3;
    }
  }

  // ---------------------------------------------------------------------
  // Surrogates
  // ---------------------------------------------------------------------

  predicate IsHi(c: int) {
    0xD800 <= c <= 0xDBFF
  }

  predicate IsLo(c: int) {
    0xDC00 <= c <= 0xDFFF
  }

  function GetHi(c: CodePoint): Unit
    requires c > 0xFFFF
  {
    c / 1024 - 0x1_0000 / 1024 + 0xD800
  }

  function GetLo(c: CodePoint): Unit {
    0xDC00 + c % 1024
  }

  function FromSurrogate(hi: Unit, lo: Unit): CodePoint {
    0x1_0000 + 1024 * (hi % 1024) + lo % 1024
  }

  lemma SurrogatePair(hi: Unit, lo: Unit)
    requires IsHi(hi) && IsLo(lo)
    ensures FromSurrogate(hi, lo) > 0xFFFF
    ensures GetHi(FromSurrogate(hi, lo)) == hi && GetLo(FromSurrogate(hi, lo)) == lo
  {
  }

  lemma SurrogateSplit(c: CodePoint)
    requires c > 0xFFFF
    ensures IsHi(GetHi(c)) && IsLo(GetLo(c)) && FromSurrogate(GetHi(c), GetLo(c)) == c
  {
  }

  // ---------------------------------------------------------------------
  // Strings
  // ---------------------------------------------------------------------

  /** Does `u` start with a surrogate pair? */
  predicate StartsPair(u: seq<Unit>) {
    |u| >= 2 && IsHi(u[0]) && IsLo(u[1])
  }

  /** Units of the first character of `u`. */
  function UnitCount(u: seq<Unit>): nat {
    if StartsPair(u) then 2 else 1
  }

  function FirstChar(u: seq<Unit>): CodePoint
    requires u != []
  {
    if StartsPair(u) then FromSurrogate(u[0], u[1]) else u[0]
  }

  /** The UTF-8 form of a 16-bit string; lone surrogates are encoded as they are. */
  function EncodeAll(u: seq<Unit>): seq<Byte> {
    if u == [] then [] else Encode(FirstChar(u)) + EncodeAll(u[UnitCount(u)..])
  }

  function Split(c: CodePoint): seq<Unit> {
    if c > 0xFFFF then [GetHi(c), GetLo(c)] else [c]
  }

  /** The 16-bit form of a byte string, errors replaced. */
  function Units(s: seq<Byte>): seq<Unit>
    decreases |s|
  {
    if s == [] then [] else Split(Decode(s).c) + Units(s[Decode(s).used..])
  }

  /** A string decodes piece by piece: where it starts with the form of some code point,
      to that code point; where it does not, its first byte alone to U+FFFD. */
  lemma FirstPiece(s: seq<Byte>, c: CodePoint)
    requires s != []
    ensures Encode(c) <= s ==> Units(s) == Split(c) + Units(s[|Encode(c)|..])
    ensures (forall d: CodePoint :: !(Encode(d) <= s)) ==> Units(s) == [0xFFFD] + Units(s[1..])
  {
    if Encode(c) <= s {
      assert s == Encode(c) + s[|Encode(c)|..];
      DecodeEncode(c, s[|Encode(c)|..]);
    }
    DecodedIsEncoded(s);
    if Decode(s).used > 1 || s[0] < 0x80 { assert Encode(Decode(s).c) <= s; }
  }

  /** The surrogates of section 2.1 of RFC 2781. */
  lemma Surrogates(c: CodePoint)
    ensures Split(c) == if c <= 0xFFFF then [c] else [0xD800 + (c - 0x1_0000) / 0x400, 0xDC00 + (c - 0x1_0000) % 0x400]
    ensures Split(0x2_33B4) == [0xD84C, 0xDFB4]
  {
  }

  /** Decoding undoes encoding, for every 16-bit string. */
  lemma {:induction false} RoundTrip(u: seq<Unit>)
    ensures Units(EncodeAll(u)) == u
    decreases |u|
  {
    if u != [] {
      var c, n := FirstChar(u), UnitCount(u);
      var rest := EncodeAll(u[n..]);
      RoundTrip(u[n..]);
      DecodeEncode(c, rest);
      assert (Encode(c) + rest)[EncodeLen(c)..] == rest;
      if StartsPair(u) { SurrogatePair(u[0], u[1]); }
      assert Split(c) == u[..n];
    }
  }

  /** What is written to a destination of `cap` bytes: as many whole characters
      as leave room for the final zero. */
  function Fitting(u: seq<Unit>, cap: nat): seq<Byte>
    decreases |u|
  {
    if u == [] || EncodeLen(FirstChar(u)) >= cap then []
    else Encode(FirstChar(u)) + Fitting(u[UnitCount(u)..], cap - EncodeLen(FirstChar(u)))
  }

  /** `k` is a boundary between characters of `u`. */
  predicate Boundary(u: seq<Unit>, k: nat)
    decreases |u|
  {
    k == 0 || (u != [] && k >= UnitCount(u) && Boundary(u[UnitCount(u)..], k - UnitCount(u)))
  }

  lemma Regroup<T>(a: seq<T>, b: seq<T>, c: seq<T>)
    ensures a + (b + c) == (a + b) + c
  {
  }

  /** Number of units of the characters that `Fitting` keeps. */
  function Kept(u: seq<Unit>, cap: nat): nat
    decreases |u|
  {
    if u == [] || EncodeLen(FirstChar(u)) >= cap then 0
    else UnitCount(u) + Kept(u[UnitCount(u)..], cap - EncodeLen(FirstChar(u)))
  }

  /** The truncated form is a prefix of whole characters, shorter than the
      destination, and the next character would not have fitted. */
  lemma {:induction false} FittingIsPrefix(u: seq<Unit>, cap: nat)
    ensures Kept(u, cap) <= |u| && Boundary(u, Kept(u, cap))
    ensures EncodeAll(u) == Fitting(u, cap) + EncodeAll(u[Kept(u, cap)..])
    ensures cap > 0 ==> |Fitting(u, cap)| < cap
    ensures cap > 0 && Kept(u, cap) < |u| ==> |Fitting(u, cap)| + EncodeLen(FirstChar(u[Kept(u, cap)..])) >= cap
    decreases |u|
  {
    if u == [] || EncodeLen(FirstChar(u)) >= cap {
      assert u[0..] == u;
    } else {
      var c, v, cap1 := FirstChar(u), u[UnitCount(u)..], cap - EncodeLen(FirstChar(u));
      FittingIsPrefix(v, cap1);
      assert v[Kept(v, cap1)..] == u[Kept(u, cap)..];
      Regroup(Encode(c), Fitting(v, cap1), EncodeAll(v[Kept(v, cap1)..]));
    }
  }

  lemma Prefix<T>(s: seq<T>, n: nat, m: nat)
    requires n + m <= |s|
    ensures s[..n + m] == s[..n] + s[n..][..m]
  {
  }

  /** What was cut off at a whole character still decodes to what was kept. */
  lemma {:induction false} FittingRoundTrip(u: seq<Unit>, cap: nat)
    ensures Kept(u, cap) <= |u| && Units(Fitting(u, cap)) == u[..Kept(u, cap)]
    decreases |u|
  {
    if u != [] && EncodeLen(FirstChar(u)) < cap {
      var c, v, cap1 := FirstChar(u), u[UnitCount(u)..], cap - EncodeLen(FirstChar(u));
      FittingRoundTrip(v, cap1);
      DecodeEncode(c, Fitting(v, cap1));
      assert Fitting(u, cap)[EncodeLen(c)..] == Fitting(v, cap1);
      if StartsPair(u) { SurrogatePair(u[0], u[1]); }
      assert Split(c) == u[..UnitCount(u)];
      Prefix(u, UnitCount(u), Kept(v, cap1));
    }
  }

  /** Nothing is cut off exactly if the whole form and the zero fit. */
  lemma FittingIsAll(u: seq<Unit>, cap: nat)
    requires cap > 0
    ensures Fitting(u, cap) == EncodeAll(u) <==> |EncodeAll(u)| < cap
  {
    FittingIsPrefix(u, cap);
    var rest := u[Kept(u, cap)..];
    if rest != [] {
      assert EncodeAll(rest) == Encode(FirstChar(rest)) + EncodeAll(rest[UnitCount(rest)..]);
    } else {
      assert Fitting(u, cap) + [] == Fitting(u, cap);
    }
  }

  // ---------------------------------------------------------------------
  // Encoding a 16-bit buffer
  // ---------------------------------------------------------------------

  /** The character at `src[i]`, and where the next one starts. */
  method NextChar(src: seq<Unit>, i0: nat) returns (c: CodePoint, i: nat)
    requires i0 < |src|
    ensures c == FirstChar(src[i0..]) && i == i0 + UnitCount(src[i0..]) <= |src|
  {
    i := i0 + 1;
    c := src[i0];
    if c >= 0x80 && IsHi(c) && i < |src| && IsLo(src[i]) {
      c := FromSurrogate(c, src[i]);
      i := i + 1;
    }
  }

  method Store(dest: array<Byte>, j: nat, s: seq<Byte>)
    requires j + |s| <= dest.Length
    modifies dest
    ensures dest[..] == old(dest[..j]) + s + old(dest[j + |s|..])
  {
    var k := 0;
    while k < |s|
      invariant 0 <= k <= |s|
      invariant dest[..] == old(dest[..j]) + s[..k] + old(dest[j + k..])
    {
      dest[j + k] := s[k];
      k := k + 1;
    }
    assert s[..k] == s;
  }

  /** What is left of `src` from `i` on, after `done` has been written. */
  ghost predicate Encoding(src: seq<Unit>, i: nat, done: seq<Byte>, cap: nat) {
    && i <= |src| && |done| <= cap
    && EncodeAll(src) == done + EncodeAll(src[i..])
    && Fitting(src, cap) == done + Fitting(src[i..], cap - |done|)
  }

  lemma EncodingStep(src: seq<Unit>, i: nat, done: seq<Byte>, cap: nat)
    requires Encoding(src, i, done, cap) && i < |src| && |done| + EncodeLen(FirstChar(src[i..])) < cap
    ensures Encoding(src, i + UnitCount(src[i..]), done + Encode(FirstChar(src[i..])), cap)
  {
    var u := src[i..];
    var c, v := FirstChar(u), u[UnitCount(u)..];
    assert v == src[i + UnitCount(u)..];
    Regroup(done, Encode(c), EncodeAll(v));
    Regroup(done, Encode(c), Fitting(v, cap - |done| - EncodeLen(c)));
  }

  lemma EncodingEnds(src: seq<Unit>, i: nat, done: seq<Byte>, cap: nat)
    requires Encoding(src, i, done, cap)
    requires i == |src| || |done| + EncodeLen(FirstChar(src[i..])) >= cap
    ensures Fitting(src, cap) == done && |EncodeAll(src)| == |done| + |EncodeAll(src[i..])|
  {
    assert done + [] == done;
  }

  /** The writing loop: it stops at the end, or at the character that does not
      fit. */
  method WriteChars(dest: array<Byte>, src: seq<Unit>) returns (i: nat, j: nat)
    modifies dest
    ensures j <= dest.Length && Encoding(src, i, dest[..j], dest.Length)
    ensures i == |src| || j + EncodeLen(FirstChar(src[i..])) >= dest.Length
  {
    i, j := 0, 0;
    ghost var done: seq<Byte> := [];
    assert src[0..] == src;
    while i < |src|
      invariant j == |done| <= dest.Length && dest[..j] == done
      invariant Encoding(src, i, done, dest.Length)
    {
      var c, next := NextChar(src, i);
      if j + EncodeLen(c) >= dest.Length {
        return;
      }
      Store(dest, j, Encode(c));
      assert dest[..j + EncodeLen(c)] == done + Encode(c);
      EncodingStep(src, i, done, dest.Length);
      done := done + Encode(c);
      j := j + EncodeLen(c);
      i := next;
    }
  }

  /** The loop after an overflow: only the length is counted. */
  method CountChars(src: seq<Unit>, i0: nat, j0: nat) returns (j: nat)
    requires i0 <= |src|
    ensures j == j0 + |EncodeAll(src[i0..])|
  {
    var i := i0;
    j := j0;
    while i < |src|
      invariant i0 <= i <= |src|
      invariant j0 + |EncodeAll(src[i0..])| == j + |EncodeAll(src[i..])|
    {
      var c, next := NextChar(src, i);
      assert src[i..][UnitCount(src[i..])..] == src[next..];
      j := j + EncodeLen(c);
      i := next;
    }
  }

  /** utf8_encode_buf16: returns the full length, whatever the size of `dest`, and
      writes the whole characters that fit and a zero. */
  method EncodeBuf16(dest: array<Byte>, src: seq<Unit>) returns (len: nat)
    modifies dest
    ensures len == |EncodeAll(src)|
    ensures dest.Length > 0 ==>
      var out := Fitting(src, dest.Length);
      |out| < dest.Length && dest[..|out|] == out && dest[|out|] == 0
  {
    var i, j := WriteChars(dest, src);
    ghost var done := dest[..j];
    EncodingEnds(src, i, done, dest.Length);
    FittingIsPrefix(src, dest.Length);
    if j < dest.Length {
      dest[j] := 0;
    }
    assert dest[..j] == done;
    len := CountChars(src, i, j);
  }

  /** The writing loop of utf8_encode_buf8. */
  method WriteLatin(dest: array<Byte>, src: seq<Byte>, ghost units: seq<Unit>) returns (i: nat, j: nat)
    requires units == src
    modifies dest
    ensures i <= |src| && j <= dest.Length && Encoding(units, i, dest[..j], dest.Length)
    ensures i == |src| || j + EncodeLen(FirstChar(units[i..])) >= dest.Length
  {
    i, j := 0, 0;
    ghost var done: seq<Byte> := [];
    assert units[0..] == units;
    while i < |src|
      invariant 0 <= i <= |src| && j == |done| <= dest.Length && dest[..j] == done
      invariant Encoding(units, i, done, dest.Length)
    {
      var c: int := src[i];
      assert !StartsPair(units[i..]) && FirstChar(units[i..]) == c;
      if c < 0x80 {
        if j + 1 >= dest.Length {
          return;
        }
        dest[j] := c;
        j := j + 1;
      } else {
        if j + 2 >= dest.Length {
          return;
        }
        dest[j], dest[j + 1] := 0xC0 + c / 64, 0x80 + c % 64;
        j := j + 2;
      }
      EncodingStep(units, i, done, dest.Length);
      done := done + Encode(c);
      i := i + 1;
    }
  }

  /** utf8_encode_buf8: for a buffer of Latin-1 characters, the same as the
      encoder of 16-bit units. */
  method EncodeBuf8(dest: array<Byte>, src: seq<Byte>) returns (len: nat)
    modifies dest
    ensures len == |EncodeAll(src)|
    ensures dest.Length > 0 ==>
      var out := Fitting(src, dest.Length);
      |out| < dest.Length && dest[..|out|] == out && dest[|out|] == 0
  {
    ghost var units: seq<Unit> := src;
    var i, j := WriteLatin(dest, src, units);
    ghost var done := dest[..j];
    EncodingEnds(units, i, done, dest.Length);
    FittingIsPrefix(units, dest.Length);
    if j < dest.Length {
      dest[j] := 0;
    }
    assert dest[..j] == done;
    len := CountLatin(src, i, j, units);
  }

  /** The loop of utf8_encode_buf8 after an overflow. */
  method CountLatin(src: seq<Byte>, i0: nat, j0: nat, ghost units: seq<Unit>) returns (j: nat)
    requires units == src && Counted(units, i0, j0)
    ensures j == |EncodeAll(units)|
  {
    var i := i0;
    j := j0;
    while i < |src|
      invariant i <= |src| && Counted(units, i, j)
    {
      CountedStep(units, i, j);
      j := j + 1 + (if src[i] >= 0x80 then 1 else 0);
      i := i + 1;
    }
  }

  /** `j` bytes are needed for what lies before `i`. */
  ghost predicate Counted(src: seq<Unit>, i: nat, j: nat) {
    i <= |src| && |EncodeAll(src)| == j + |EncodeAll(src[i..])|
  }

  lemma CountedStep(src: seq<Unit>, i: nat, j: nat)
    requires i < |src| && Counted(src, i, j) && src[i] <= 0xFF
    ensures Counted(src, i + 1, j + 1 + (if src[i] >= 0x80 then 1 else 0))
  {
    var u := src[i..];
    assert u[1..] == src[i + 1..] && UnitCount(u) == 1;
    assert EncodeAll(u) == Encode(u[0]) + EncodeAll(u[1..]);
  }

  // ---------------------------------------------------------------------
  // Decoding
  // ---------------------------------------------------------------------

  /** The first units of `done` are in `dest`, as far as they fit. */
  ghost predicate Holds(dest: array<Unit>, done: seq<Unit>)
    reads dest
  {
    forall k :: 0 <= k < |done| && k < dest.Length ==> dest[k] == done[k]
  }

  method PutUnit(dest: array<Unit>, i: nat, c: Unit, ghost done: seq<Unit>)
    requires i == |done| && Holds(dest, done)
    modifies dest
    ensures Holds(dest, done + [c])
  {
    if i < dest.Length {
      dest[i] := c;
    }
  }

  /** The next character of a byte string, decoded only if it is not ASCII. */
  method ReadChar(src: seq<Byte>, p0: nat) returns (c: CodePoint, p: nat)
    requires p0 < |src|
    ensures c == Decode(src[p0..]).c && p == p0 + Decode(src[p0..]).used <= |src|
  {
    c, p := src[p0], p0 + 1;
    if c >= 0x80 {
      c, p := DecodeLen(src, p - 1, |src| - (p - 1));
      assert src[p0..p0 + (|src| - p0)] == src[p0..];
    }
  }

  /** The units of what lies before `p` are `done`. */
  ghost predicate Decoding(src: seq<Byte>, p: nat, done: seq<Unit>) {
    p <= |src| && Units(src) == done + Units(src[p..])
  }

  lemma DecodingStep(src: seq<Byte>, p: nat, done: seq<Unit>)
    requires Decoding(src, p, done) && p < |src|
    ensures var r := Decode(src[p..]); Decoding(src, p + r.used, done + Split(r.c))
  {
    var s := src[p..];
    var r := Decode(s);
    assert s[r.used..] == src[p + r.used..];
    assert Units(s) == Split(r.c) + Units(s[r.used..]);
    Regroup(done, Split(r.c), Units(s[r.used..]));
  }

  lemma DecodingStarts(src: seq<Byte>)
    ensures Decoding(src, 0, [])
  {
    assert src[0..] == src && [] + Units(src) == Units(src);
  }

  lemma DecodingEnds(src: seq<Byte>, done: seq<Unit>)
    requires Decoding(src, |src|, done)
    ensures Units(src) == done
  {
    assert done + [] == done;
  }

  /** One character of utf8_decode_buf16: one unit or a surrogate pair. */
  method PutChar(dest: array<Unit>, i0: nat, c: CodePoint, ghost done: seq<Unit>) returns (i: nat)
    requires i0 == |done| && Holds(dest, done)
    modifies dest
    ensures i == |done + Split(c)| && Holds(dest, done + Split(c))
  {
    i := i0;
    if c > 0xFFFF {
      PutUnit(dest, i, GetHi(c), done);
      PutUnit(dest, i + 1, GetLo(c), done + [GetHi(c)]);
      assert done + [GetHi(c)] + [GetLo(c)] == done + Split(c);
      i := i + 2;
    } else {
      PutUnit(dest, i, c, done);
      i := i + 1;
    }
  }

  /** utf8_decode_buf16: returns the number of units, and writes those that fit. */
  method DecodeBuf16(dest: array<Unit>, src: seq<Byte>) returns (len: nat)
    modifies dest
    ensures len == |Units(src)| && Holds(dest, Units(src))
    ensures src != [] && dest.Length > 0 && (forall c: CodePoint :: !(Encode(c) <= src)) ==> dest[0] == 0xFFFD
  {
    if src != [] { FirstPiece(src, 0); }
    var p, i := 0, 0;
    ghost var done: seq<Unit> := [];
    DecodingStarts(src);
    while p < |src|
      invariant 0 <= p <= |src| && i == |done|
      invariant Decoding(src, p, done) && Holds(dest, done)
    {
      DecodingStep(src, p, done);
      var c, next := ReadChar(src, p);
      i := PutChar(dest, i, c, done);
      done := done + Split(c);
      p := next;
    }
    DecodingEnds(src, done);
    return i;
  }

  // ---------------------------------------------------------------------
  // The scan
  // ---------------------------------------------------------------------

  datatype Kind = Kind(nonAscii: bool, has16Bit: bool, hasNonBmp1: bool, hasErrors: bool)

  predicate AllAscii(s: seq<Byte>) {
    forall k :: 0 <= k < |s| ==> s[k] < 0x80
  }

  /** Some character of `s` lies beyond `limit`. */
  predicate HasBeyond(s: seq<Byte>, limit: nat)
    decreases |s|
  {
    s != [] && (Decode(s).c > limit || HasBeyond(s[Decode(s).used..], limit))
  }

  /** Some byte of `s` is not part of any character. */
  predicate HasError(s: seq<Byte>)
    decreases |s|
  {
    s != [] && ((Decode(s).used == 1 && s[0] >= 0x80) || HasError(s[Decode(s).used..]))
  }

  /** Some pair of surrogates in `s` is encoded as two characters. */
  predicate HasSplitPair(s: seq<Byte>)
    decreases |s|
  {
    s != [] &&
    var rest := s[Decode(s).used..];
    (IsHi(Decode(s).c) && rest != [] && IsLo(Decode(rest).c)) || HasSplitPair(rest)
  }

  lemma FirstUnit(s: seq<Byte>)
    requires s != []
    ensures Units(s) != []
    ensures Decode(s).c <= 0xFFFF ==> Units(s)[0] == Decode(s).c
    ensures Decode(s).c > 0xFFFF ==> IsHi(Units(s)[0])
  {
    if Decode(s).c > 0xFFFF { SurrogateSplit(Decode(s).c); }
  }

  /** The first character of what `s` decodes to, encoded again. */
  lemma EncodedFirst(s: seq<Byte>)
    requires s != []
    ensures var r := Decode(s); var rest := s[r.used..];
      if IsHi(r.c) && rest != [] && IsLo(Decode(rest).c) then EncodeAll(Units(s))[0] >= 0xF0
      else EncodeAll(Units(s)) == Encode(r.c) + EncodeAll(Units(rest))
  {
    var r := Decode(s);
    var rest := s[r.used..];
    var u := Units(s);
    assert u == Split(r.c) + Units(rest);
    if r.c > 0xFFFF {
      SurrogateSplit(r.c);
      assert u[2..] == Units(rest);
    } else {
      if rest != [] { FirstUnit(rest); }
      assert u[1..] == Units(rest);
      if StartsPair(u) { SurrogatePair(u[0], u[1]); }
    }
  }

  lemma HeadOf<T>(s: seq<T>, n: nat, a: seq<T>, b: seq<T>)
    requires n <= |s| && s[..n] == a
    ensures s == a + b <==> s[n..] == b
  {
    assert s == s[..n] + s[n..];
    if s == a + b { assert s[n..] == b; }
  }

  /** Encoding what a byte string decodes to gives it back exactly if it has no
      errors and no pair of surrogates encoded as two characters. */
  lemma {:induction false} EncodesBack(s: seq<Byte>)
    ensures EncodeAll(Units(s)) == s <==> !HasError(s) && !HasSplitPair(s)
    decreases |s|
  {
    if s != [] {
      var r := Decode(s);
      var rest := s[r.used..];
      DecodedIsEncoded(s);
      EncodedFirst(s);
      EncodesBack(rest);
      if r.used == 1 && s[0] >= 0x80 {
        if EncodeAll(Units(s)) == s { DecodeEncode(r.c, EncodeAll(Units(rest))); }
      } else {
        HeadOf(s, r.used, Encode(r.c), EncodeAll(Units(rest)));
      }
    }
  }

  /** A byte that starts nothing comes back as the replacement character, a surrogate
      pair in two parts as one character of four bytes. */
  lemma NotRestored()
    ensures EncodeAll(Units([0xFF])) != [0xFF]
    ensures EncodeAll(Units([0xED, 0xA0, 0x80, 0xED, 0xB0, 0x80])) != [0xED, 0xA0, 0x80, 0xED, 0xB0, 0x80]
  {
    var pair: seq<Byte> := [0xED, 0xA0, 0x80, 0xED, 0xB0, 0x80];
    StrayByte([0xFF]);
    TwoParts(pair);
    EncodesBack([0xFF]);
    EncodesBack(pair);
  }

  lemma StrayByte(s: seq<Byte>)
    requires s != [] && s[0] >= 0xF5
    ensures HasError(s)
  {
  }

  lemma TwoParts(s: seq<Byte>)
    requires |s| >= 6 && s[0] == s[3] == 0xED && 0xA0 <= s[1] <= 0xAF && 0xB0 <= s[4] <= 0xBF
    requires 0x80 <= s[2] <= 0xBF && 0x80 <= s[5] <= 0xBF
    ensures HasSplitPair(s)
  {
    var rest := s[3..];
    assert rest[0] == s[3] && rest[1] == s[4] && rest[2] == s[5];
    assert Decode(s) == Decoded(Join3(s[0], s[1], s[2]), 3) && Decode(rest) == Decoded(Join3(s[3], s[4], s[5]), 3);
  }

  lemma {:induction false} AsciiUnits(s: seq<Byte>)
    requires AllAscii(s)
    ensures |Units(s)| == |s| && !HasBeyond(s, 0xFF) && !HasBeyond(s, 0xFFFF) && !HasError(s)
    decreases |s|
  {
    if s != [] { AsciiUnits(s[1..]); }
  }

  /** The first loop of utf8_scan. */
  method HighBits(buf: seq<Byte>) returns (cbits: bool)
    ensures cbits == !AllAscii(buf)
  {
    cbits := false;
    var k := 0;
    while k < |buf|
      invariant 0 <= k <= |buf| && cbits == !AllAscii(buf[..k])
    {
      assert buf[..k + 1] == buf[..k] + [buf[k]];
      cbits := cbits || buf[k] >= 0x80;
      k := k + 1;
    }
    assert buf[..k] == buf;
  }

  /** What has been found before `p`, combined with what lies behind, is what
      there is in `buf`. */
  ghost predicate Scanned(buf: seq<Byte>, p: nat, kind: Kind, len: nat) {
    && p <= |buf|
    && |Units(buf)| == len + |Units(buf[p..])|
    && HasBeyond(buf, 0xFF) == (kind.has16Bit || HasBeyond(buf[p..], 0xFF))
    && HasBeyond(buf, 0xFFFF) == (kind.hasNonBmp1 || HasBeyond(buf[p..], 0xFFFF))
    && HasError(buf) == (kind.hasErrors || HasError(buf[p..]))
  }

  lemma ScannedStarts(buf: seq<Byte>)
    ensures Scanned(buf, 0, Kind(true, false, false, false), 0)
  {
    assert buf[0..] == buf;
  }

  lemma ScannedEnds(buf: seq<Byte>, kind: Kind, len: nat)
    requires Scanned(buf, |buf|, kind, len)
    ensures len == |Units(buf)|
    ensures kind == Kind(kind.nonAscii, HasBeyond(buf, 0xFF), HasBeyond(buf, 0xFFFF), HasError(buf))
  {
    assert buf[|buf|..] == [];
  }

  lemma ScannedStep(buf: seq<Byte>, p: nat, kind: Kind, len: nat)
    requires p < |buf| && Scanned(buf, p, kind, len)
    ensures var r := Decode(buf[p..]);
      Scanned(buf, p + r.used,
        Kind(kind.nonAscii, kind.has16Bit || r.c > 0xFF, kind.hasNonBmp1 || r.c > 0xFFFF,
             kind.hasErrors || (r.used == 1 && buf[p] >= 0x80)),
        len + if r.c > 0xFFFF then 2 else 1)
  {
    var s := buf[p..];
    var r := Decode(s);
    assert s[r.used..] == buf[p + r.used..];
    assert Units(s) == Split(r.c) + Units(s[r.used..]);
  }

  /** One character of the second loop of utf8_scan. */
  method ScanChar(buf: seq<Byte>, p0: nat, kind0: Kind, len0: nat) returns (p: nat, kind: Kind, len: nat)
    requires p0 < |buf|
    requires Scanned(buf, p0, kind0, len0)
    ensures p0 < p && Scanned(buf, p, kind, len) && kind.nonAscii == kind0.nonAscii
  {
    ScannedStep(buf, p0, kind0, len0);
    p, kind, len := CountChar(buf, p0, kind0, len0);
  }

  /** The updates that one character causes. */
  method CountChar(buf: seq<Byte>, p0: nat, kind0: Kind, len0: nat) returns (p: nat, kind: Kind, len: nat)
    requires p0 < |buf|
    ensures var r := Decode(buf[p0..]);
      && p == p0 + r.used
      && kind == Kind(kind0.nonAscii, kind0.has16Bit || r.c > 0xFF, kind0.hasNonBmp1 || r.c > 0xFFFF,
                      kind0.hasErrors || (r.used == 1 && buf[p0] >= 0x80))
      && len == len0 + if r.c > 0xFFFF then 2 else 1
  {
    p, kind, len := p0 + 1, kind0, len0 + 1;
    if buf[p0] >= 0x80 {
      var c, next := DecodeLen(buf, p0, |buf| - p0);
      assert buf[p0..p0 + (|buf| - p0)] == buf[p0..];
      if next == p {
        kind := kind.(hasErrors := true);
      }
      p := next;
      if c > 0xFF {
        kind := kind.(has16Bit := true);
        if c > 0xFFFF {
          len := len + 1;
          kind := kind.(hasNonBmp1 := true);
        }
      }
    }
  }

  /** utf8_scan: the number of units decoding will produce, and what kinds of
      characters and errors there are. */
  method Scan(buf: seq<Byte>) returns (kind: Kind, len: nat)
    ensures len == |Units(buf)|
    ensures kind == Kind(!AllAscii(buf), HasBeyond(buf, 0xFF), HasBeyond(buf, 0xFFFF), HasError(buf))
  {
    kind := Kind(false, false, false, false);
    len := |buf|;
    var cbits := HighBits(buf);
    if !cbits {
      AsciiUnits(buf);
      return;
    }
    kind := Kind(true, false, false, false);
    len := 0;
    var p := 0;
    ScannedStarts(buf);
    while p < |buf|
      invariant 0 <= p <= |buf| && kind.nonAscii
      invariant Scanned(buf, p, kind, len)
    {
      p, kind, len := ScanChar(buf, p, kind, len);
    }
    ScannedEnds(buf, kind, len);
  }

  /** The first character of a string without 16-bit characters. */
  lemma Latin(s: seq<Byte>)
    requires s != [] && !HasBeyond(s, 0xFF)
    ensures var r := Decode(s);
      && (if s[0] >= 0xC0 then r.used == 2 && |s| >= 2 && r.c == s[0] as int * 64 + s[1] - (0xC0 * 64 + 0x80) && r.c <= 0xFF
          else r == Decoded(s[0], 1))
      && !HasBeyond(s[r.used..], 0xFF)
  {
    DecodedIsEncoded(s);
    assert Decode(s).c <= 0xFF;
  }

  /** One character of utf8_decode_buf8. */
  method LatinChar(src: seq<Byte>, p0: nat) returns (c: Byte, p: nat)
    requires p0 < |src| && !HasBeyond(src[p0..], 0xFF)
    ensures p == p0 + Decode(src[p0..]).used <= |src|
    ensures Decode(src[p0..]).c == c && !HasBeyond(src[p..], 0xFF)
  {
    Latin(src[p0..]);
    var v: int := src[p0];
    p := p0 + 1;
    if v >= 0xC0 {
      v := v * 64 + src[p] - (0xC0 * 64 + 0x80);
      p := p + 1;
    }
    assert src[p0..][p - p0..] == src[p..];
    c := v;
  }

  ghost predicate HoldsBytes(dest: array<Byte>, done: seq<Unit>)
    reads dest
  {
    forall k :: 0 <= k < |done| && k < dest.Length ==> dest[k] == done[k]
  }

  method PutByte(dest: array<Byte>, i: nat, c: Byte, ghost done: seq<Unit>)
    requires i == |done| && HoldsBytes(dest, done)
    modifies dest
    ensures HoldsBytes(dest, done + [c])
  {
    if i < dest.Length {
      dest[i] := c;
    }
  }

  /** One round of its loop. */
  method LatinRound(dest: array<Byte>, src: seq<Byte>, p0: nat, i: nat, ghost done0: seq<Unit>)
    returns (p: nat, ghost done: seq<Unit>)
    requires p0 < |src| && i == |done0| && Decoding(src, p0, done0) && !HasBeyond(src[p0..], 0xFF) && HoldsBytes(dest, done0)
    modifies dest
    ensures p0 < p <= |src| && |done| == i + 1
    ensures Decoding(src, p, done) && !HasBeyond(src[p..], 0xFF) && HoldsBytes(dest, done)
  {
    DecodingStep(src, p0, done0);
    var c;
    c, p := LatinChar(src, p0);
    PutByte(dest, i, c, done0);
    done := done0 + [c];
  }

  /** utf8_decode_buf8, on a string without 16-bit characters: the units are those
      of the general decoder, and no byte behind the end is read. The last
      element of `dest` is a zero if they do not all fit. */
  method DecodeBuf8(dest: array<Byte>, src: seq<Byte>) returns (len: nat)
    requires !HasBeyond(src, 0xFF)
    modifies dest
    ensures len == |Units(src)|
    ensures dest.Length > 0 ==> dest[Min(len, dest.Length - 1)] == 0
    ensures forall k :: 0 <= k < len && k + 1 < dest.Length ==> dest[k] == Units(src)[k]
    ensures len < dest.Length ==> forall k :: 0 <= k < len ==> dest[k] == Units(src)[k]
  {
    var p, i := 0, 0;
    ghost var done: seq<Unit> := [];
    DecodingStarts(src);
    assert src[0..] == src;
    while p < |src|
      invariant 0 <= p <= |src| && i == |done|
      invariant Decoding(src, p, done) && !HasBeyond(src[p..], 0xFF)
      invariant HoldsBytes(dest, done)
    {
      p, done := LatinRound(dest, src, p, i, done);
      i := i + 1;
    }
    DecodingEnds(src, done);
    if i < dest.Length {
      dest[i] := 0;
    } else if dest.Length > 0 {
      dest[dest.Length - 1] := 0;
    }
    return i;
  }
}
