/** The bytecode of Sources/SubstrataQuickJS/libregexp.c: its encoding, the two
    linear scans over an atom, and the code of each pattern. */
module RegexCode {
  import opened CharSets
  import opened Common
  import opened RegexSyntax

  // Opcodes, numbered as in include/libregexp-opcode.h
  const OP_CHAR8: Byte := 1
  const OP_CHAR16: Byte := 2
  const OP_CHAR32: Byte := 3
  const OP_DOT: Byte := 4
  const OP_ANY: Byte := 5
  const OP_LINE_START: Byte := 6
  const OP_LINE_END: Byte := 7
  const OP_GOTO: Byte := 8
  const OP_SPLIT_GOTO_FIRST: Byte := 9
  const OP_SPLIT_NEXT_FIRST: Byte := 10
  const OP_MATCH: Byte := 11
  const OP_SAVE_START: Byte := 12
  const OP_SAVE_END: Byte := 13
  const OP_SAVE_RESET: Byte := 14
  const OP_LOOP: Byte := 15
  const OP_PUSH_I32: Byte := 16
  const OP_DROP: Byte := 17
  const OP_WORD_BOUNDARY: Byte := 18
  const OP_NOT_WORD_BOUNDARY: Byte := 19
  const OP_RANGE: Byte := 22
  const OP_RANGE32: Byte := 23
  const OP_LOOKAHEAD: Byte := 24
  const OP_NEGATIVE_LOOKAHEAD: Byte := 25
  const OP_PUSH_CHAR_POS: Byte := 26
  const OP_CHECK_ADVANCE: Byte := 27
  const OP_SIMPLE_GREEDY_QUANT: Byte := 29

  const CAPTURE_COUNT_MAX := 255

  // ---------------------------------------------------------------------
  // Operands
  // ---------------------------------------------------------------------

  /** The low `n` bytes of `v`, lowest first. */
  function Bytes(v: int, n: nat): (s: seq<Byte>)
    ensures |s| == n
    decreases n, v
  {
    if n == 0 then [] else [v % 256] + Bytes(v / 256, n - 1)
  }

  function U16(v: int): (s: seq<Byte>)
    ensures |s| == 2
  {
    Bytes(v, 2)
  }

  function U32Bytes(v: int): (s: seq<Byte>)
    ensures |s| == 4
  {
    Bytes(v, 4)
  }

  function GetU16(bc: seq<Byte>, p: nat): nat
    requires p + 2 <= |bc|
  {
    bc[p] + 256 * bc[p + 1] as int
  }

  function GetU32(bc: seq<Byte>, p: nat): nat
    requires p + 4 <= |bc|
  {
    bc[p] + 256 * bc[p + 1] as int + 0x1_0000 * bc[p + 2] as int + 0x100_0000 * bc[p + 3] as int
  }

  /** A 32-bit operand read as a signed jump distance. */
  function Signed(v: int): int {
    if v >= 0x8000_0000 then v - 0x1_0000_0000 else v
  }

  /** `part` stands in `bc` at position `p`. */
  ghost predicate StandsAt(bc: seq<Byte>, p: nat, part: seq<Byte>) {
    p + |part| <= |bc| && SameFrom(bc, p, part, 0)
  }

  ghost predicate SameFrom(bc: seq<Byte>, p: nat, part: seq<Byte>, k: nat)
    requires p + |part| <= |bc|
    decreases |part| - k
  {
    k >= |part| || (part[k] == bc[p + k] && SameFrom(bc, p, part, k + 1))
  }

  lemma {:induction false} SameIndex(bc: seq<Byte>, p: nat, part: seq<Byte>, k: nat, i: nat)
    requires p + |part| <= |bc| && SameFrom(bc, p, part, k) && k <= i < |part|
    ensures part[i] == bc[p + i]
    decreases |part| - k
  {
    if k < i { SameIndex(bc, p, part, k + 1, i); }
  }

  lemma {:induction false} SameAll(bc: seq<Byte>, p: nat, part: seq<Byte>, k: nat)
    requires p + |part| <= |bc|
    requires forall i :: k <= i < |part| ==> part[i] == bc[p + i]
    ensures SameFrom(bc, p, part, k)
    decreases |part| - k
  {
    if k < |part| { SameAll(bc, p, part, k + 1); }
  }

  lemma ByteOf(bc: seq<Byte>, p: nat, part: seq<Byte>, i: nat)
    requires StandsAt(bc, p, part) && i < |part|
    ensures bc[p + i] == part[i]
  {
    SameIndex(bc, p, part, 0, i);
  }

  lemma Stands(bc: seq<Byte>, p: nat, part: seq<Byte>)
    requires p + |part| <= |bc| && forall i :: 0 <= i < |part| ==> part[i] == bc[p + i]
    ensures StandsAt(bc, p, part)
  {
    SameAll(bc, p, part, 0);
  }

  lemma Parts(bc: seq<Byte>, p: nat, s: seq<Byte>, t: seq<Byte>)
    requires StandsAt(bc, p, s + t)
    ensures StandsAt(bc, p, s) && StandsAt(bc, p + |s|, t)
  {
    forall i | 0 <= i < |s|
      ensures s[i] == bc[p + i]
    {
      ByteOf(bc, p, s + t, i);
    }
    Stands(bc, p, s);
    forall i | 0 <= i < |t|
      ensures t[i] == bc[p + |s| + i]
    {
      ByteOf(bc, p, s + t, |s| + i);
    }
    Stands(bc, p + |s|, t);
  }

  lemma BytesTail(bc: seq<Byte>, p: nat, v: int, n: nat)
    requires n > 0 && StandsAt(bc, p, Bytes(v, n))
    ensures bc[p] == v % 256 && StandsAt(bc, p + 1, Bytes(v / 256, n - 1))
  {
    ByteOf(bc, p, Bytes(v, n), 0);
    Parts(bc, p, [v % 256], Bytes(v / 256, n - 1));
  }

  lemma GetU16Bytes(bc: seq<Byte>, p: nat, v: nat)
    requires StandsAt(bc, p, U16(v)) && v < 0x1_0000
    ensures GetU16(bc, p) == v
  {
    BytesTail(bc, p, v, 2);
    BytesTail(bc, p + 1, v / 256, 1);
  }

  lemma GetU32Bytes(bc: seq<Byte>, p: nat, v: int)
    requires StandsAt(bc, p, U32Bytes(v))
    ensures GetU32(bc, p) == v % 0x1_0000_0000
    ensures 0 <= v < 0x1_0000_0000 ==> GetU32(bc, p) == v
    ensures -0x8000_0000 <= v < 0x8000_0000 ==> Signed(GetU32(bc, p)) == v
  {
    BytesTail(bc, p, v, 4);
    BytesTail(bc, p + 1, v / 256, 3);
    BytesTail(bc, p + 2, v / 256 / 256, 2);
    BytesTail(bc, p + 3, v / 256 / 256 / 256, 1);
    FourBytes(v);
    SignedWrap(v);
  }

  lemma SignedWrap(v: int)
    ensures -0x8000_0000 <= v < 0x8000_0000 ==> Signed(v % 0x1_0000_0000) == v
    ensures 0 <= v < 0x1_0000_0000 ==> v % 0x1_0000_0000 == v
  {
  }

  lemma FourBytes(v: int)
    ensures v % 256 + 256 * (v / 256 % 256) + 0x1_0000 * (v / 256 / 256 % 256) + 0x100_0000 * (v / 256 / 256 / 256 % 256)
         == v % 0x1_0000_0000
  {
    var v1, v2, v3 := v / 256, v / 256 / 256, v / 256 / 256 / 256;
    var v4 := v3 / 256;
    assert v == v1 * 256 + v % 256 && v1 == v2 * 256 + v1 % 256 && v2 == v3 * 256 + v2 % 256;
    assert v3 == v4 * 256 + v3 % 256;
  }

  // ---------------------------------------------------------------------
  // Instructions
  // ---------------------------------------------------------------------

  /** The size table of include/libregexp-opcode.h. */
  function OpSize(op: Byte): (n: nat)
    ensures 1 <= n <= 17
  {
    if op in {OP_CHAR8, OP_SAVE_START, OP_SAVE_END, 20, 21} then 2
    else if op in {OP_CHAR16, OP_SAVE_RESET, OP_RANGE, OP_RANGE32} then 3
    else if op in {OP_CHAR32, OP_GOTO, OP_SPLIT_GOTO_FIRST, OP_SPLIT_NEXT_FIRST, OP_LOOP, OP_PUSH_I32,
                   OP_LOOKAHEAD, OP_NEGATIVE_LOOKAHEAD} then 5
    else if op == OP_SIMPLE_GREEDY_QUANT then 17
    else 1
  }

  /** Size of the first instruction of `s`, its table of ranges included. */
  function InstrSize(s: seq<Byte>): (n: nat)
    requires s != []
    ensures n >= 1
  {
    if s[0] == OP_RANGE && |s| >= 3 then 3 + 4 * GetU16(s, 1)
    else if s[0] == OP_RANGE32 && |s| >= 3 then 3 + 8 * GetU16(s, 1)
    else OpSize(s[0])
  }

  /** What follows the first instruction. */
  function Rest(s: seq<Byte>): (t: seq<Byte>)
    requires s != []
    ensures |t| < |s|
  {
    if InstrSize(s) <= |s| then s[InstrSize(s)..] else []
  }

  predicate IsCharOp(op: Byte) {
    op in {OP_CHAR8, OP_CHAR16, OP_CHAR32, OP_DOT, OP_ANY, OP_RANGE, OP_RANGE32}
  }

  predicate IsAssertOp(op: Byte) {
    op in {OP_LINE_START, OP_LINE_END, OP_WORD_BOUNDARY, OP_NOT_WORD_BOUNDARY}
  }

  /** Opcodes re_need_check_advance lets pass. */
  predicate IsLinearOp(op: Byte) {
    IsCharOp(op) || IsAssertOp(op)
    || op in {OP_PUSH_I32, OP_PUSH_CHAR_POS, OP_DROP, 28, OP_SAVE_START, OP_SAVE_END, OP_SAVE_RESET, 20, 21}
  }

  /** `s` is a sequence of whole instructions. */
  predicate Whole(s: seq<Byte>)
    decreases |s|
  {
    s == [] || (InstrSize(s) <= |s| && Whole(s[InstrSize(s)..]))
  }

  predicate OnlySimple(s: seq<Byte>)
    decreases |s|
  {
    s == [] || ((IsCharOp(s[0]) || IsAssertOp(s[0])) && OnlySimple(Rest(s)))
  }

  predicate OnlyLinear(s: seq<Byte>)
    decreases |s|
  {
    s == [] || (IsLinearOp(s[0]) && OnlyLinear(Rest(s)))
  }

  function CharCount(s: seq<Byte>): nat
    decreases |s|
  {
    if s == [] then 0 else (if IsCharOp(s[0]) then 1 else 0) + CharCount(Rest(s))
  }

  /** Must the code of a repeated atom be guarded by an advance check? */
  predicate NeedCheck(s: seq<Byte>) {
    !OnlyLinear(s) || CharCount(s) == 0
  }

  /** Effect of an opcode on the length of the value stack. */
  function Delta(op: Byte): int {
    if op == OP_PUSH_I32 || op == OP_PUSH_CHAR_POS then 1
    else if op == OP_DROP || op == OP_CHECK_ADVANCE then -1
    else 0
  }

  function Net(s: seq<Byte>): int
    decreases |s|
  {
    if s == [] then 0 else Delta(s[0]) + Net(Rest(s))
  }

  lemma FirstJoined(s: seq<Byte>, t: seq<Byte>)
    requires s != [] && InstrSize(s) <= |s|
    ensures InstrSize(s + t) == InstrSize(s) && Rest(s + t) == Rest(s) + t
  {
    if |s| < 3 && |s + t| >= 3 {
      assert s[0] != OP_RANGE && s[0] != OP_RANGE32;
    }
    assert (s + t)[InstrSize(s)..] == s[InstrSize(s)..] + t;
  }

  lemma {:induction false} Joined(s: seq<Byte>, t: seq<Byte>)
    requires Whole(s)
    ensures Whole(t) ==> Whole(s + t)
    ensures OnlySimple(s + t) == (OnlySimple(s) && OnlySimple(t))
    ensures OnlyLinear(s + t) == (OnlyLinear(s) && OnlyLinear(t))
    ensures CharCount(s + t) == CharCount(s) + CharCount(t)
    ensures Net(s + t) == Net(s) + Net(t)
    decreases |s|
  {
    if s == [] {
      assert s + t == t;
    } else {
      FirstJoined(s, t);
      Joined(Rest(s), t);
    }
  }

  /** A single instruction. */
  lemma Instruction(s: seq<Byte>)
    requires s != [] && InstrSize(s) == |s|
    ensures Whole(s) && Net(s) == Delta(s[0])
    ensures OnlySimple(s) == (IsCharOp(s[0]) || IsAssertOp(s[0]))
    ensures OnlyLinear(s) == IsLinearOp(s[0])
    ensures CharCount(s) == if IsCharOp(s[0]) then 1 else 0
  {
    assert Rest(s) == [];
  }

  // ---------------------------------------------------------------------
  // Character ranges
  // ---------------------------------------------------------------------

  /** Upper bound as stored in a 16-bit table: inclusive, 0xffff for infinity. */
  function High16(hi: U32): int {
    if hi == UINT32_MAX then 0xFFFF else hi - 1
  }

  function Table16(pt: seq<U32>): (s: seq<Byte>)
    requires |pt| % 2 == 0
    ensures |s| == 2 * |pt|
  {
    if pt == [] then [] else U16(pt[0]) + U16(High16(pt[1])) + Table16(pt[2..])
  }

  function Table32(pt: seq<U32>): (s: seq<Byte>)
    requires |pt| % 2 == 0
    ensures |s| == 4 * |pt|
  {
    if pt == [] then [] else U32Bytes(pt[0]) + U32Bytes(pt[1] as int - 1) + Table32(pt[2..])
  }

  /** The bound that decides the width of a table: the last finite point. */
  function LastFinite(pt: seq<U32>): U32
    requires |pt| >= 2
  {
    if pt[|pt| - 1] == UINT32_MAX then pt[|pt| - 2] else pt[|pt| - 1]
  }

  function RangeCode(pt: seq<U32>): (s: seq<Byte>)
    requires |pt| % 2 == 0
    ensures s != []
  {
    if pt == [] then [OP_CHAR32] + U32Bytes(-1)
    else if LastFinite(pt) <= 0xFFFF then [OP_RANGE] + U16(|pt| / 2) + Table16(pt)
    else [OP_RANGE32] + U16(|pt| / 2) + Table32(pt)
  }

  // ---------------------------------------------------------------------
  // Code of a pattern
  // ---------------------------------------------------------------------

  /** Patterns the parser can produce. */
  predicate Parsed(e: Regex) {
    match e
    case Char(c) => c <= 0x10FFFF
    case Class(points) => Canonical(points)
    case Group(r) => Parsed(r)
    case Concat(r1, r2) => Parsed(r1) && Parsed(r2)
    case Alt(r1, r2) => Parsed(r1) && Parsed(r2)
    case Quant(r, min, max, _) => Parsed(r) && min <= max <= INFINITY
    case Look(r, _) => Parsed(r)
    case _ => true
  }

  /** No class has too many ranges for the 16-bit table length. */
  predicate RangesFit(e: Regex) {
    match e
    case Class(points) => |points| / 2 < 65535
    case Group(r) => RangesFit(r)
    case Concat(r1, r2) => RangesFit(r1) && RangesFit(r2)
    case Alt(r1, r2) => RangesFit(r1) && RangesFit(r2)
    case Quant(r, _, _, _) => RangesFit(r)
    case Look(r, _) => RangesFit(r)
    case _ => true
  }

  /** Can be compiled with `b` as the number of its first capture group. */
  predicate Encodable(e: Regex, b: nat) {
    Parsed(e) && RangesFit(e) && b + Groups(e) <= CAPTURE_COUNT_MAX
  }

  function Op5(op: Byte, v: int): (s: seq<Byte>)
    ensures |s| == 5
  {
    [op] + U32Bytes(v)
  }

  function CharCode(c: nat): seq<Byte>
    requires c <= 0x10FFFF
  {
    if c <= 0x7F then [OP_CHAR8, c]
    else if c <= 0xFFFF then [OP_CHAR16] + U16(c)
    else Op5(OP_CHAR32, c)
  }

  function AssertCode(kind: Assertion): seq<Byte> {
    match kind
    case LineStart => [OP_LINE_START]
    case LineEnd => [OP_LINE_END]
    case WordBoundary => [OP_WORD_BOUNDARY]
    case NotWordBoundary => [OP_NOT_WORD_BOUNDARY]
  }

  function AltCode(c1: seq<Byte>, c2: seq<Byte>): seq<Byte> {
    Op5(OP_SPLIT_NEXT_FIRST, |c1| + 5) + c1 + Op5(OP_GOTO, |c2|) + c2
  }

  function LookCode(c: seq<Byte>, negative: bool): seq<Byte> {
    Op5(if negative then OP_NEGATIVE_LOOKAHEAD else OP_LOOKAHEAD, |c| + 1) + c + [OP_MATCH]
  }

  function GroupCode(c: seq<Byte>, b: Byte): seq<Byte> {
    [OP_SAVE_START, b] + c + [OP_SAVE_END, b]
  }

  function SplitOp(greedy: bool): Byte {
    if greedy then OP_SPLIT_NEXT_FIRST else OP_SPLIT_GOTO_FIRST
  }

  /** A simple greedy loop over an atom of `width` characters. */
  function SimpleLoopCode(c: seq<Byte>, min: nat, max: nat, width: nat): seq<Byte> {
    [OP_SIMPLE_GREEDY_QUANT] + U32Bytes(|c| + 1) + U32Bytes(min) + U32Bytes(max) + U32Bytes(width)
    + c + [OP_MATCH]
  }

  /** The atom, between the two halves of the advance check if it needs one. */
  function Guarded(c: seq<Byte>, check: bool): seq<Byte> {
    if check then [OP_PUSH_CHAR_POS] + c + [OP_CHECK_ADVANCE] else c
  }

  function ResetCode(b: Byte, g: nat): seq<Byte>
    requires b + g <= 256
  {
    if g == 0 then [] else [OP_SAVE_RESET, b, b + g - 1]
  }

  /** At most one pass over the guarded atom `a`. */
  function OnceCode(a: seq<Byte>, greedy: bool): seq<Byte> {
    Op5(SplitOp(greedy), |a|) + a
  }

  /** Any number of passes over `a`. */
  function StarCode(a: seq<Byte>, greedy: bool): seq<Byte> {
    Op5(SplitOp(greedy), |a| + 5) + a + Op5(OP_GOTO, -(|a| + 10))
  }

  /** At most `n` passes over `a`, counted on the value stack. */
  function CountedCode(a: seq<Byte>, n: nat, greedy: bool): seq<Byte> {
    Op5(OP_PUSH_I32, n) + Op5(SplitOp(greedy), |a| + 5) + a + Op5(OP_LOOP, -(|a| + 10)) + [OP_DROP]
  }

  function PlusCode(c: seq<Byte>, greedy: bool): seq<Byte> {
    c + Op5(SplitOp(!greedy), -(|c| + 5))
  }

  function MandatoryCode(c: seq<Byte>, min: nat): seq<Byte> {
    if min == 1 then c else Op5(OP_PUSH_I32, min) + c + Op5(OP_LOOP, -(|c| + 5)) + [OP_DROP]
  }

  /** Up to `n` further repetitions of the guarded atom, after at least one. */
  function FurtherCode(a: seq<Byte>, n: nat, greedy: bool): seq<Byte> {
    if n == INFINITY then StarCode(a, greedy) else if n > 0 then CountedCode(a, n, greedy) else []
  }

  /** Up to `max` repetitions of the guarded atom. */
  function OptionalCode(a: seq<Byte>, max: nat, greedy: bool): seq<Byte> {
    if max == 1 then OnceCode(a, greedy) else FurtherCode(a, max, greedy)
  }

  function Further(min: nat, max: nat): nat
    requires min <= max
  {
    if max == INFINITY then INFINITY else max - min
  }

  predicate UsesSimpleLoop(c: seq<Byte>, max: nat, greedy: bool) {
    greedy && max > 0 && OnlySimple(c) && CharCount(c) > 0
  }

  predicate UsesPlus(c: seq<Byte>, min: nat, max: nat) {
    min == 1 && max == INFINITY && !NeedCheck(c)
  }

  function QuantCode(c: seq<Byte>, b: Byte, g: nat, min: nat, max: nat, greedy: bool): seq<Byte>
    requires min <= max && b + g <= 256
  {
    var a := Guarded(c, NeedCheck(c));
    if UsesSimpleLoop(c, max, greedy) then SimpleLoopCode(c, min, max, CharCount(c))
    else if min == 0 then ResetCode(b, g) + OptionalCode(a, max, greedy)
    else if UsesPlus(c, min, max) then PlusCode(c, greedy)
    else MandatoryCode(c, min) + FurtherCode(a, Further(min, max), greedy)
  }

  function Code(e: Regex, b: nat): seq<Byte>
    requires Encodable(e, b)
  {
    match e
    case Empty => []
    case Char(c) => CharCode(c)
    case Dot => [OP_DOT]
    case Any => [OP_ANY]
    case Class(points) => RangeCode(points)
    case Assert(kind) => AssertCode(kind)
    case Group(r) => GroupCode(Code(r, b + 1), b)
    case Concat(r1, r2) => Code(r1, b) + Code(r2, b + Groups(r1))
    case Alt(r1, r2) => AltCode(Code(r1, b), Code(r2, b + Groups(r1)))
    case Quant(r, min, max, greedy) => QuantCode(Code(r, b), b, Groups(r), min, max, greedy)
    case Look(r, negative) => LookCode(Code(r, b), negative)
  }
}
