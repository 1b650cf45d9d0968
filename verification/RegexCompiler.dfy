/** The one-pass compiler of Sources/SubstrataQuickJS/libregexp.c: it appends
    bytes, inserts code before code already emitted, copies atoms and patches
    jumps, and ends with the code of the pattern. */
module RegexCompiler {
  import opened CharSets
  import opened Common
  import opened RegexSyntax
  import opened RegexCode
  import opened RegexMachine
  import opened RegexShape
  import opened RegexPaths
  import opened RegexProgram

  const STACK_SIZE_MAX := 255
  const RE_HEADER_LEN := 8

  // ---------------------------------------------------------------------
  // The scans over an atom
  // ---------------------------------------------------------------------

  /** The code from `pos` on; a scan may end behind a truncated instruction. */
  function From(buf: seq<Byte>, pos: nat): seq<Byte> {
    if pos < |buf| then buf[pos..] else []
  }

  lemma ScanStep(buf: seq<Byte>, pos: nat, next: nat)
    requires pos < |buf| && next == pos + SizeAt(buf, pos)
    ensures From(buf, pos) != [] && From(buf, pos)[0] == buf[pos]
    ensures Rest(From(buf, pos)) == From(buf, next)
  {
  }

  lemma LinearStep(buf: seq<Byte>, pos: nat, next: nat)
    requires pos < |buf| && next == pos + SizeAt(buf, pos)
    ensures OnlyLinear(From(buf, pos)) == (IsLinearOp(buf[pos]) && OnlyLinear(From(buf, next)))
  {
    ScanStep(buf, pos, next);
  }

  lemma SimpleStepped(buf: seq<Byte>, pos: nat, next: nat)
    requires pos < |buf| && next == pos + SizeAt(buf, pos)
    ensures OnlySimple(From(buf, pos))
         == ((IsCharOp(buf[pos]) || IsAssertOp(buf[pos])) && OnlySimple(From(buf, next)))
  {
    ScanStep(buf, pos, next);
  }

  lemma CharStep(buf: seq<Byte>, pos: nat, next: nat)
    requires pos < |buf| && next == pos + SizeAt(buf, pos)
    ensures CharCount(From(buf, pos)) == (if IsCharOp(buf[pos]) then 1 else 0) + CharCount(From(buf, next))
  {
    ScanStep(buf, pos, next);
  }

  /** The scan has reached `pos` and returns `ret` if it finds no more. */
  ghost predicate Checking(buf: seq<Byte>, pos: nat, ret: bool) {
    && OnlyLinear(buf) == OnlyLinear(From(buf, pos))
    && (CharCount(buf) > 0) == (!ret || CharCount(From(buf, pos)) > 0)
  }

  lemma CheckingStarts(buf: seq<Byte>)
    ensures Checking(buf, 0, true)
  {
    assert From(buf, 0) == buf;
  }

  /** One instruction, after which the scan is at `next`. */
  lemma CheckingStep(buf: seq<Byte>, pos: nat, ret: bool, next: nat, stop: bool, ret1: bool)
    requires pos < |buf| && Checking(buf, pos, ret) && next == pos + SizeAt(buf, pos)
    requires stop == !IsLinearOp(buf[pos]) && ret1 == (ret && !IsCharOp(buf[pos]))
    ensures if stop then NeedCheck(buf) else Checking(buf, next, ret1)
  {
    LinearStep(buf, pos, next);
    CharStep(buf, pos, next);
  }

  lemma CheckingEnds(buf: seq<Byte>, pos: nat, ret: bool)
    requires pos >= |buf| && Checking(buf, pos, ret)
    ensures ret == NeedCheck(buf)
  {
  }

  /** One instruction of the scan. */
  method CheckInstruction(buf: seq<Byte>, pos: nat, ret: bool) returns (stop: bool, ret1: bool, next: nat)
    requires pos < |buf| && Checking(buf, pos, ret)
    ensures next > pos && if stop then NeedCheck(buf) else Checking(buf, next, ret1)
  {
    var opcode := buf[pos];
    stop, ret1, next := false, ret, pos + SizeAt(buf, pos);
    if IsCharOp(opcode) {
      ret1 := false;
    } else if !IsLinearOp(opcode) {
      stop := true;
    }
    CheckingStep(buf, pos, ret, next, stop, ret1);
  }

  /** re_need_check_advance */
  method NeedCheckAdvance(buf: seq<Byte>) returns (ret: bool)
    ensures ret == NeedCheck(buf)
  {
    ret := true;
    var pos := 0;
    CheckingStarts(buf);
    while pos < |buf|
      invariant Checking(buf, pos, ret)
      decreases |buf| - pos
    {
      var stop;
      stop, ret, pos := CheckInstruction(buf, pos, ret);
      if stop { return true; }
    }
    CheckingEnds(buf, pos, ret);
  }

  /** The scan has reached `pos` and counted `count` characters. */
  ghost predicate Counting(buf: seq<Byte>, pos: nat, count: nat) {
    && OnlySimple(buf) == OnlySimple(From(buf, pos))
    && CharCount(buf) == count + CharCount(From(buf, pos))
  }

  lemma CountingStarts(buf: seq<Byte>)
    ensures Counting(buf, 0, 0)
  {
    assert From(buf, 0) == buf;
  }

  lemma CountingStep(buf: seq<Byte>, pos: nat, count: nat, next: nat, stop: bool, count1: nat)
    requires pos < |buf| && Counting(buf, pos, count) && next == pos + SizeAt(buf, pos)
    requires stop == !(IsCharOp(buf[pos]) || IsAssertOp(buf[pos]))
    requires count1 == count + if IsCharOp(buf[pos]) then 1 else 0
    ensures if stop then !OnlySimple(buf) else Counting(buf, next, count1)
  {
    SimpleStepped(buf, pos, next);
    CharStep(buf, pos, next);
  }

  lemma CountingEnds(buf: seq<Byte>, pos: nat, count: nat)
    requires pos >= |buf| && Counting(buf, pos, count)
    ensures OnlySimple(buf) && CharCount(buf) == count
  {
  }

  method CountInstruction(buf: seq<Byte>, pos: nat, count: nat) returns (stop: bool, count1: nat, next: nat)
    requires pos < |buf| && Counting(buf, pos, count)
    ensures next > pos && if stop then !OnlySimple(buf) else Counting(buf, next, count1)
  {
    var opcode := buf[pos];
    stop, count1, next := false, count, pos + SizeAt(buf, pos);
    if IsCharOp(opcode) {
      count1 := count + 1;
    } else if !IsAssertOp(opcode) {
      stop := true;
    }
    CountingStep(buf, pos, count, next, stop, count1);
  }

  /** re_is_simple_quantifier: the number of characters of a simple atom, and
      -1 for any other. */
  method IsSimpleQuantifier(buf: seq<Byte>) returns (r: int)
    ensures r == if OnlySimple(buf) then CharCount(buf) else -1
  {
    var count, pos := 0, 0;
    CountingStarts(buf);
    while pos < |buf|
      invariant count >= 0 && Counting(buf, pos, count)
      decreases |buf| - pos
    {
      var stop;
      stop, count, pos := CountInstruction(buf, pos, count);
      if stop { return -1; }
    }
    CountingEnds(buf, pos, count);
    return count;
  }

  /** The width of an atom that a simple greedy loop can repeat, or 0 or less. */
  method SimpleWidth(buf: seq<Byte>, max: nat, greedy: bool) returns (width: int)
    ensures width > 0 <==> UsesSimpleLoop(buf, max, greedy)
    ensures width > 0 ==> width == CharCount(buf)
  {
    if greedy && max > 0 {
      width := IsSimpleQuantifier(buf);
    } else {
      width := 0;
    }
  }

  /** lre_compute_stack_size: the greatest depth, or -1 if it is too large. */
  method ComputeStackSize(code: seq<Byte>) returns (r: int)
    ensures r == if StackSize(code) > STACK_SIZE_MAX then -1 else StackSize(code)
  {
    var stackSize, stackSizeMax, pos := 0, 0, 0;
    while pos < |code|
      invariant 0 <= stackSizeMax <= STACK_SIZE_MAX && stackSize <= stackSizeMax
      invariant ScanMax(code, 0, 0, 0) == ScanMax(code, pos, stackSize, stackSizeMax)
      decreases |code| - pos
    {
      var opcode := code[pos];
      var len := SizeAt(code, pos);
      if opcode == OP_PUSH_I32 || opcode == OP_PUSH_CHAR_POS {
        stackSize := stackSize + 1;
        if stackSize > stackSizeMax {
          if stackSize > STACK_SIZE_MAX {
            ScanMaxGrows(code, pos + len, stackSize, stackSize);
            return -1;
          }
          stackSizeMax := stackSize;
        }
      } else if opcode == OP_DROP || opcode == OP_CHECK_ADVANCE {
        stackSize := stackSize - 1;
      }
      pos := pos + len;
    }
    return stackSizeMax;
  }

  // ---------------------------------------------------------------------
  // Range tables
  // ---------------------------------------------------------------------

  lemma {:induction false} Table16Append(pt: seq<U32>, i: nat)
    requires i % 2 == 0 && i + 2 <= |pt|
    ensures Table16(pt[..i + 2]) == Table16(pt[..i]) + U16(pt[i]) + U16(High16(pt[i + 1]))
    decreases i
  {
    var s, t := pt[..i + 2], pt[..i];
    if i == 0 {
      assert s[2..] == [];
    } else {
      Table16Append(pt[2..], i - 2);
      assert s[2..] == pt[2..][..i] && t[2..] == pt[2..][..i - 2];
    }
  }

  lemma {:induction false} Table32Append(pt: seq<U32>, i: nat)
    requires i % 2 == 0 && i + 2 <= |pt|
    ensures Table32(pt[..i + 2]) == Table32(pt[..i]) + U32Bytes(pt[i]) + U32Bytes(pt[i + 1] as int - 1)
    decreases i
  {
    var s, t := pt[..i + 2], pt[..i];
    if i == 0 {
      assert s[2..] == [];
    } else {
      Table32Append(pt[2..], i - 2);
      assert s[2..] == pt[2..][..i] && t[2..] == pt[2..][..i - 2];
    }
  }

  // ---------------------------------------------------------------------
  // The parser's state
  // ---------------------------------------------------------------------

  class REParseState {
    var byteCode: seq<Byte>
    var captureCount: nat

    constructor ()
      ensures byteCode == [] && captureCount == 1
    {
      byteCode := [];
      captureCount := 1;
    }

    method EmitOp(op: Byte)
      modifies this`byteCode
      ensures byteCode == old(byteCode) + [op]
    {
      byteCode := byteCode + [op];
    }

    method Put(s: seq<Byte>)
      modifies this`byteCode
      ensures byteCode == old(byteCode) + s
    {
      byteCode := byteCode + s;
    }

    /** Returns the position of the operand. */
    method EmitOpU32(op: Byte, val: int) returns (pos: nat)
      modifies this`byteCode
      ensures byteCode == old(byteCode) + Op5(op, val) && pos == |old(byteCode)| + 1
    {
      EmitOp(op);
      pos := |byteCode|;
      Put(U32Bytes(val));
    }

    /** A jump to `target`, relative to the end of the instruction. */
    method EmitGoto(op: Byte, target: nat)
      modifies this`byteCode
      ensures byteCode == old(byteCode) + Op5(op, target - (|old(byteCode)| + 5))
    {
      EmitOp(op);
      var pos := |byteCode|;
      Put(U32Bytes(target - (pos + 4)));
    }

    method EmitOpU8(op: Byte, val: Byte)
      modifies this`byteCode
      ensures byteCode == old(byteCode) + [op, val]
    {
      EmitOp(op);
      Put([val]);
    }

    method EmitOpU16(op: Byte, val: nat)
      modifies this`byteCode
      ensures byteCode == old(byteCode) + ([op] + U16(val))
    {
      EmitOp(op);
      Put(U16(val));
    }

    /** Makes room for `len` bytes at `pos`; what they hold is not specified. */
    method Insert(pos: nat, len: nat) returns (ghost gap: seq<Byte>)
      requires pos <= |byteCode|
      modifies this`byteCode
      ensures |gap| == len && byteCode == old(byteCode)[..pos] + gap + old(byteCode)[pos..]
    {
      gap := seq(len, _ => 0);
      byteCode := byteCode[..pos] + seq(len, _ => 0) + byteCode[pos..];
    }

    /** Writes a byte at `pos`, the start of the gap between `pre` and `post`. */
    method SetByte(pos: nat, op: Byte, ghost pre: seq<Byte>, ghost gap: seq<Byte>, ghost post: seq<Byte>)
      requires byteCode == pre + gap + post && pos == |pre| && |gap| >= 1
      modifies this`byteCode
      ensures byteCode == (pre + [op]) + gap[1..] + post
    {
      byteCode := byteCode[pos := op];
    }

    method PutU32(pos: nat, val: int, ghost pre: seq<Byte>, ghost gap: seq<Byte>, ghost post: seq<Byte>)
      requires byteCode == pre + gap + post && pos == |pre| && |gap| >= 4
      modifies this`byteCode
      ensures byteCode == (pre + U32Bytes(val)) + gap[4..] + post
    {
      byteCode := byteCode[..pos] + U32Bytes(val) + byteCode[pos + 4..];
    }

    /** Writes an opcode and a 32-bit operand at `pos`. */
    method SetOp5(pos: nat, op: Byte, val: int, ghost pre: seq<Byte>, ghost gap: seq<Byte>, ghost post: seq<Byte>)
      requires byteCode == pre + gap + post && pos == |pre| && |gap| >= 5
      modifies this`byteCode
      ensures byteCode == (pre + Op5(op, val)) + gap[5..] + post
    {
      SetByte(pos, op, pre, gap, post);
      PutU32(pos + 1, val, pre + [op], gap[1..], post);
      PairShape(pre, [op], U32Bytes(val));
      assert gap[1..][4..] == gap[5..];
    }

    method PutSelf(offset: nat, len: nat)
      requires offset + len <= |byteCode|
      modifies this`byteCode
      ensures byteCode == old(byteCode) + old(byteCode)[offset..offset + len]
    {
      byteCode := byteCode + byteCode[offset..offset + len];
    }

    // -------------------------------------------------------------------
    // Characters
    // -------------------------------------------------------------------

    method EmitChar(c: nat)
      requires c <= 0x10FFFF
      modifies this`byteCode
      ensures byteCode == old(byteCode) + CharCode(c)
    {
      if c <= 0x7F {
        EmitOpU8(OP_CHAR8, c);
      } else if c <= 0xFFFF {
        EmitOpU16(OP_CHAR16, c);
      } else {
        var _ := EmitOpU32(OP_CHAR32, c);
      }
    }

    /** re_emit_range */
    method EmitRange(points: seq<U32>) returns (ok: bool)
      requires Canonical(points)
      modifies this`byteCode
      ensures ok <==> |points| / 2 < 65535
      ensures ok ==> byteCode == old(byteCode) + RangeCode(points)
    {
      var len := |points| / 2;
      if len >= 65535 {
        return false;
      }
      if len == 0 {
        var _ := EmitOpU32(OP_CHAR32, -1);
      } else {
        var high := points[|points| - 1];
        if high == UINT32_MAX {
          high := points[|points| - 2];
        }
        if high <= 0xFFFF {
          EmitNarrow(points);
        } else {
          EmitWide(points);
        }
      }
      return true;
    }

    method EmitNarrow(points: seq<U32>)
      requires |points| % 2 == 0
      modifies this`byteCode
      ensures byteCode == old(byteCode) + ([OP_RANGE] + U16(|points| / 2) + Table16(points))
    {
      EmitOpU16(OP_RANGE, |points| / 2);
      EmitTable16(points);
    }

    method EmitWide(points: seq<U32>)
      requires |points| % 2 == 0
      modifies this`byteCode
      ensures byteCode == old(byteCode) + ([OP_RANGE32] + U16(|points| / 2) + Table32(points))
    {
      EmitOpU16(OP_RANGE32, |points| / 2);
      EmitTable32(points);
    }

    method EmitTable16(points: seq<U32>)
      requires |points| % 2 == 0
      modifies this`byteCode
      ensures byteCode == old(byteCode) + Table16(points)
    {
      var i := 0;
      while i < |points|
        invariant 0 <= i <= |points| && i % 2 == 0
        invariant byteCode == old(byteCode) + Table16(points[..i])
      {
        Table16Append(points, i);
        Put(U16(points[i]));
        var high: int := points[i + 1] as int - 1;
        if high == UINT32_MAX - 1 {
          high := 0xFFFF;
        }
        Put(U16(high));
        i := i + 2;
      }
      assert points[..i] == points;
    }

    method EmitTable32(points: seq<U32>)
      requires |points| % 2 == 0
      modifies this`byteCode
      ensures byteCode == old(byteCode) + Table32(points)
    {
      var i := 0;
      while i < |points|
        invariant 0 <= i <= |points| && i % 2 == 0
        invariant byteCode == old(byteCode) + Table32(points[..i])
      {
        Table32Append(points, i);
        Put(U32Bytes(points[i]));
        Put(U32Bytes(points[i + 1] as int - 1));
        i := i + 2;
      }
      assert points[..i] == points;
    }

    // -------------------------------------------------------------------
    // Quantifiers; `start` is where the atom starts
    // -------------------------------------------------------------------

    method EmitSimpleLoop(start: nat, min: nat, max: nat, width: nat, ghost base: seq<Byte>, ghost c: seq<Byte>)
      requires byteCode == base + c && start == |base|
      modifies this`byteCode
      ensures byteCode == base + SimpleLoopCode(c, min, max, width)
    {
      EmitOp(OP_MATCH);
      ghost var post := c + [OP_MATCH];
      assert byteCode[..start] == base && byteCode[start..] == post;
      ghost var gap := Insert(start, 17);
      var len := |byteCode| - start - 17;
      ghost var pre := base + Op5(OP_SIMPLE_GREEDY_QUANT, len);
      SetOp5(start, OP_SIMPLE_GREEDY_QUANT, len, base, gap, post);
      PutU32(start + 5, min, pre, gap[5..], post);
      PutU32(start + 9, max, pre + U32Bytes(min), gap[5..][4..], post);
      PutU32(start + 13, width, pre + U32Bytes(min) + U32Bytes(max), gap[5..][4..][4..], post);
      assert gap[5..][4..][4..][4..] == [];
      SimpleLoopShape(base, c, byteCode, min, max, width);
    }

    /** Resets the captures of an atom that may not be tried. */
    method EmitReset(start: nat, first: Byte, last: Byte)
      requires start <= |byteCode|
      modifies this`byteCode
      ensures byteCode == old(byteCode)[..start] + [OP_SAVE_RESET, first, last] + old(byteCode)[start..]
    {
      ghost var base, post := byteCode[..start], byteCode[start..];
      ghost var gap := Insert(start, 3);
      SetByte(start, OP_SAVE_RESET, base, gap, post);
      SetByte(start + 1, first, base + [OP_SAVE_RESET], gap[1..], post);
      SetByte(start + 2, last, base + [OP_SAVE_RESET] + [first], gap[1..][1..], post);
      assert gap[1..][1..][1..] == [];
      assert base + [OP_SAVE_RESET] + [first] + [last] == base + [OP_SAVE_RESET, first, last];
    }

    /** Turns the code behind `pre` and `gap` into the guarded atom. */
    method EmitGuards(pos: nat, check: bool, ghost pre: seq<Byte>, ghost gap: seq<Byte>, ghost c: seq<Byte>)
      requires byteCode == pre + gap + c && pos == |pre| && |gap| == if check then 1 else 0
      modifies this`byteCode
      ensures byteCode == pre + Guarded(c, check)
    {
      if check {
        SetByte(pos, OP_PUSH_CHAR_POS, pre, gap, c);
        EmitOp(OP_CHECK_ADVANCE);
        assert gap[1..] == [];
      }
    }

    /** At most one pass, or any number of passes. */
    method EmitOptional(start: nat, check: bool, greedy: bool, hasGoto: bool)
      requires start <= |byteCode|
      modifies this`byteCode
      ensures hasGoto ==>
        byteCode == old(byteCode)[..start] + StarCode(Guarded(old(byteCode)[start..], check), greedy)
      ensures !hasGoto ==>
        byteCode == old(byteCode)[..start] + OnceCode(Guarded(old(byteCode)[start..], check), greedy)
    {
      ghost var base, c := byteCode[..start], byteCode[start..];
      ghost var a := Guarded(c, check);
      var len := |byteCode| - start;
      var val := len + (if hasGoto then 5 else 0) + if check then 2 else 0;
      EmitSplitAtom(start, check, greedy, val, base, c);
      if hasGoto {
        EmitGoto(OP_GOTO, start);
        LoopShape(base, Op5(SplitOp(greedy), |a| + 5), a, Op5(OP_GOTO, -(|a| + 10)));
      } else {
        PairShape(base, Op5(SplitOp(greedy), |a|), a);
      }
    }

    method EmitSplitAtom(start: nat, check: bool, greedy: bool, val: nat, ghost base: seq<Byte>, ghost c: seq<Byte>)
      requires byteCode == base + c && start == |base|
      modifies this`byteCode
      ensures byteCode == base + Op5(SplitOp(greedy), val) + Guarded(c, check)
    {
      var k := if check then 1 else 0;
      assert byteCode[..start] == base && byteCode[start..] == c;
      ghost var gap := Insert(start, 5 + k);
      SetOp5(start, SplitOp(greedy), val, base, gap, c);
      EmitGuards(start + 5, check, base + Op5(SplitOp(greedy), val), gap[5..], c);
    }

    /** At most `max` passes, with a counter. */
    method EmitCounted(start: nat, check: bool, greedy: bool, max: nat)
      requires start <= |byteCode|
      modifies this`byteCode
      ensures byteCode == old(byteCode)[..start] + CountedCode(Guarded(old(byteCode)[start..], check), max, greedy)
    {
      ghost var base, c := byteCode[..start], byteCode[start..];
      ghost var a := Guarded(c, check);
      var len := |byteCode| - start;
      var k := if check then 1 else 0;
      var val := len + 5 + 2 * k;
      ghost var gap := Insert(start, 10 + k);
      SetOp5(start, OP_PUSH_I32, max, base, gap, c);
      SetOp5(start + 5, SplitOp(greedy), val, base + Op5(OP_PUSH_I32, max), gap[5..], c);
      EmitGuards(start + 10, check, base + Op5(OP_PUSH_I32, max) + Op5(SplitOp(greedy), val), gap[5..][5..], c);
      EmitGoto(OP_LOOP, start + 5);
      EmitOp(OP_DROP);
      CountedShape(base, Op5(OP_PUSH_I32, max), Op5(SplitOp(greedy), val), a, Op5(OP_LOOP, -(|a| + 10)));
    }

    /** Repeats the atom `min` times with a counter, unless once is enough; the
        atom is then at `atom`. */
    method EmitMandatory(start: nat, min: nat, ghost base: seq<Byte>, ghost c: seq<Byte>) returns (atom: nat)
      requires byteCode == base + c && start == |base|
      modifies this`byteCode
      ensures byteCode == base + MandatoryCode(c, min)
      ensures atom + |c| <= |byteCode| && byteCode[atom..atom + |c|] == c
    {
      atom := start;
      if min != 1 {
        assert byteCode[..start] == base && byteCode[start..] == c;
        ghost var gap := Insert(start, 5);
        SetOp5(start, OP_PUSH_I32, min, base, gap, c);
        assert gap[5..] == [];
        assert byteCode == base + Op5(OP_PUSH_I32, min) + c;
        atom := atom + 5;
        EmitGoto(OP_LOOP, atom);
        EmitOp(OP_DROP);
        TimesShape(base, Op5(OP_PUSH_I32, min), c, Op5(OP_LOOP, -(|c| + 5)));
      }
    }

    /** Further repetitions, on a copy of the atom. */
    method EmitFurther(atom: nat, len: nat, check: bool, n: nat, greedy: bool, ghost c: seq<Byte>)
      requires atom + len <= |byteCode| && byteCode[atom..atom + len] == c
      modifies this`byteCode
      ensures byteCode == old(byteCode) + FurtherCode(Guarded(c, check), n, greedy)
    {
      if n == INFINITY {
        EmitCopiedStar(atom, len, check, greedy, c);
      } else if n > 0 {
        EmitCopiedCount(atom, len, check, n, greedy, c);
      } else {
        assert byteCode + [] == byteCode;
      }
    }

    method EmitCopiedStar(atom: nat, len: nat, check: bool, greedy: bool, ghost c: seq<Byte>)
      requires atom + len <= |byteCode| && byteCode[atom..atom + len] == c
      modifies this`byteCode
      ensures byteCode == old(byteCode) + StarCode(Guarded(c, check), greedy)
    {
      ghost var base := byteCode;
      ghost var a := Guarded(c, check);
      var val := len + 5 + if check then 2 else 0;
      var pos := |byteCode|;
      var _ := EmitOpU32(SplitOp(greedy), val);
      EmitCopy(atom, len, check, c);
      EmitGoto(OP_GOTO, pos);
      LoopShape(base, Op5(SplitOp(greedy), val), a, Op5(OP_GOTO, -(|a| + 10)));
    }

    method EmitCopiedCount(atom: nat, len: nat, check: bool, n: nat, greedy: bool, ghost c: seq<Byte>)
      requires atom + len <= |byteCode| && byteCode[atom..atom + len] == c
      modifies this`byteCode
      ensures byteCode == old(byteCode) + CountedCode(Guarded(c, check), n, greedy)
    {
      ghost var base := byteCode;
      ghost var a := Guarded(c, check);
      var val := len + 5 + if check then 2 else 0;
      var _ := EmitOpU32(OP_PUSH_I32, n);
      var pos := |byteCode|;
      var _ := EmitOpU32(SplitOp(greedy), val);
      assert byteCode[atom..atom + len] == c;
      EmitCopy(atom, len, check, c);
      EmitGoto(OP_LOOP, pos);
      EmitOp(OP_DROP);
      CountedShape(base, Op5(OP_PUSH_I32, n), Op5(SplitOp(greedy), val), a, Op5(OP_LOOP, -(|a| + 10)));
    }

    /** Copies the atom `c`, between the halves of the advance check if needed. */
    method EmitCopy(atom: nat, len: nat, check: bool, ghost c: seq<Byte>)
      requires atom + len <= |byteCode| && byteCode[atom..atom + len] == c
      modifies this`byteCode
      ensures byteCode == old(byteCode) + Guarded(c, check)
    {
      if check {
        EmitOp(OP_PUSH_CHAR_POS);
      }
      PutSelf(atom, len);
      if check {
        EmitOp(OP_CHECK_ADVANCE);
      }
    }

    /** The quantifier part of re_parse_term. */
    method EmitQuantifier(start: nat, lastCaptureCount: Byte, min: nat, max: nat, greedy: bool,
                          ghost base: seq<Byte>, ghost c: seq<Byte>, ghost code: seq<Byte>)
      requires byteCode == base + c && start == |base|
      requires lastCaptureCount <= captureCount <= 255 && min <= max <= INFINITY
      requires code == QuantCode(c, lastCaptureCount, captureCount - lastCaptureCount, min, max, greedy)
      modifies this`byteCode
      ensures byteCode == base + code
    {
      assert byteCode[..start] == base && byteCode[start..] == c;
      var width := SimpleWidth(byteCode[start..], max, greedy);
      if width > 0 {
        EmitSimpleLoop(start, min, max, width, base, c);
        return;
      }
      EmitRepeats(start, lastCaptureCount, min, max, greedy, base, c, code);
    }

    /** The quantifiers that are not loops over a simple atom. */
    method EmitRepeats(start: nat, lastCaptureCount: Byte, min: nat, max: nat, greedy: bool,
                       ghost base: seq<Byte>, ghost c: seq<Byte>, ghost code: seq<Byte>)
      requires byteCode == base + c && start == |base|
      requires lastCaptureCount <= captureCount <= 255 && min <= max <= INFINITY
      requires !UsesSimpleLoop(c, max, greedy)
      requires code == QuantCode(c, lastCaptureCount, captureCount - lastCaptureCount, min, max, greedy)
      modifies this`byteCode
      ensures byteCode == base + code
    {
      var buf := byteCode[start..];
      assert buf == c;
      var check := NeedCheckAdvance(buf);
      if min == 0 {
        UpToCode(c, lastCaptureCount, captureCount - lastCaptureCount, max, greedy);
        EmitUpTo(start, lastCaptureCount, check, max, greedy, base, c, code);
      } else {
        AtLeastCode(c, lastCaptureCount, captureCount - lastCaptureCount, min, max, greedy);
        EmitAtLeast(start, check, min, max, greedy, base, c, code);
      }
    }

    /** The case with mandatory repetitions. */
    method EmitAtLeast(start: nat, check: bool, min: nat, max: nat, greedy: bool,
                       ghost base: seq<Byte>, ghost c: seq<Byte>, ghost code: seq<Byte>)
      requires byteCode == base + c && start == |base| && 1 <= min <= max <= INFINITY
      requires code == if min == 1 && max == INFINITY && !check then PlusCode(c, greedy)
        else MandatoryCode(c, min) + FurtherCode(Guarded(c, check), Further(min, max), greedy)
      modifies this`byteCode
      ensures byteCode == base + code
    {
      if min == 1 && max == INFINITY && !check {
        EmitGoto(SplitOp(!greedy), start);
        PairShape(base, c, Op5(SplitOp(!greedy), -(|c| + 5)));
      } else {
        var len := |byteCode| - start;
        var atom := EmitMandatory(start, min, base, c);
        EmitFurther(atom, len, check, Further(min, max), greedy, c);
        PairShape(base, MandatoryCode(c, min), FurtherCode(Guarded(c, check), Further(min, max), greedy));
      }
    }

    /** The case without mandatory repetitions. */
    method EmitUpTo(start: nat, lastCaptureCount: Byte, check: bool, max: nat, greedy: bool,
                    ghost base: seq<Byte>, ghost c: seq<Byte>, ghost code: seq<Byte>)
      requires byteCode == base + c && start == |base|
      requires lastCaptureCount <= captureCount <= 255 && max <= INFINITY
      requires code == ResetCode(lastCaptureCount, captureCount - lastCaptureCount)
                       + OptionalCode(Guarded(c, check), max, greedy)
      modifies this`byteCode
      ensures byteCode == base + code
    {
      assert byteCode[..start] == base && byteCode[start..] == c;
      ghost var reset := ResetCode(lastCaptureCount, captureCount - lastCaptureCount);
      var at := start;
      if lastCaptureCount != captureCount {
        EmitReset(start, lastCaptureCount, captureCount - 1);
        at := start + 3;
      }
      assert byteCode[..at] == base + reset && byteCode[at..] == c;
      if max == 0 {
        byteCode := byteCode[..at];
        assert base + (reset + []) == base + reset;
      } else if max == 1 || max == INFINITY {
        EmitOptional(at, check, greedy, max == INFINITY);
        PairShape(base, reset, OptionalCode(Guarded(c, check), max, greedy));
      } else {
        EmitCounted(at, check, greedy, max);
        PairShape(base, reset, OptionalCode(Guarded(c, check), max, greedy));
      }
    }

    // -------------------------------------------------------------------
    // Patterns
    // -------------------------------------------------------------------

    /** Compiles `e` behind what is already emitted. It fails exactly if there
        are too many captures or a class has too many ranges. */
    method Parse(e: Regex) returns (ok: bool)
      requires Parsed(e) && captureCount <= CAPTURE_COUNT_MAX
      modifies this
      ensures ok <==> RangesFit(e) && old(captureCount) + Groups(e) <= CAPTURE_COUNT_MAX
      ensures ok ==> captureCount == old(captureCount) + Groups(e)
      ensures ok ==> byteCode == old(byteCode) + Code(e, old(captureCount))
      decreases e, 2
    {
      match e
      case Empty =>
        ok := true;
        assert byteCode + [] == byteCode;
      case Char(c) =>
        EmitChar(c);
        ok := true;
      case Dot =>
        EmitOp(OP_DOT);
        ok := true;
      case Any =>
        EmitOp(OP_ANY);
        ok := true;
      case Class(points) =>
        ok := EmitRange(points);
      case Assert(kind) =>
        match kind {
          case LineStart => EmitOp(OP_LINE_START);
          case LineEnd => EmitOp(OP_LINE_END);
          case WordBoundary => EmitOp(OP_WORD_BOUNDARY);
          case NotWordBoundary => EmitOp(OP_NOT_WORD_BOUNDARY);
        }
        ok := true;
      case Group(r) => ok := ParseGroup(e);
      case Concat(r1, r2) => ok := ParseConcat(e);
      case Alt(r1, r2) => ok := ParseDisjunction(e);
      case Quant(r, min, max, greedy) => ok := ParseQuantified(e);
      case Look(r, negative) => ok := ParseLookahead(e);
    }

    method ParseGroup(e: Regex) returns (ok: bool)
      requires e.Group? && Parsed(e) && captureCount <= CAPTURE_COUNT_MAX
      modifies this
      ensures ok <==> RangesFit(e) && old(captureCount) + Groups(e) <= CAPTURE_COUNT_MAX
      ensures ok ==> captureCount == old(captureCount) + Groups(e)
      ensures ok ==> byteCode == old(byteCode) + Code(e, old(captureCount))
      decreases e, 0
    {
      if captureCount >= CAPTURE_COUNT_MAX {
        return false;
      }
      ghost var base := byteCode;
      var captureIndex: Byte := captureCount;
      captureCount := captureCount + 1;
      EmitOpU8(OP_SAVE_START, captureIndex);
      ok := Parse(e.body);
      if ok {
        EmitOpU8(OP_SAVE_END, captureIndex);
        LoopShape(base, [OP_SAVE_START, captureIndex], Code(e.body, captureIndex + 1), [OP_SAVE_END, captureIndex]);
      }
    }

    method ParseConcat(e: Regex) returns (ok: bool)
      requires e.Concat? && Parsed(e) && captureCount <= CAPTURE_COUNT_MAX
      modifies this
      ensures ok <==> RangesFit(e) && old(captureCount) + Groups(e) <= CAPTURE_COUNT_MAX
      ensures ok ==> captureCount == old(captureCount) + Groups(e)
      ensures ok ==> byteCode == old(byteCode) + Code(e, old(captureCount))
      decreases e, 0
    {
      ghost var base, b := byteCode, captureCount;
      ConcatMeasures(e);
      ok := Parse(e.first);
      if ok {
        ok := Parse(e.second);
        if ok { ConcatCode(e, base, b); }
      }
    }

    /** re_parse_disjunction, for the last alternative: a split goes before what
        was compiled so far, and the jump over the alternative is patched. */
    method ParseDisjunction(e: Regex) returns (ok: bool)
      requires e.Alt? && Parsed(e) && captureCount <= CAPTURE_COUNT_MAX
      modifies this
      ensures ok <==> RangesFit(e) && old(captureCount) + Groups(e) <= CAPTURE_COUNT_MAX
      ensures ok ==> captureCount == old(captureCount) + Groups(e)
      ensures ok ==> byteCode == old(byteCode) + Code(e, old(captureCount))
      decreases e, 1
    {
      ghost var base, b := byteCode, captureCount;
      AltMeasures(e);
      var start := |byteCode|;
      ok := Parse(e.left);
      if ok {
        ok := ParseLastAlternative(e, start, base, b);
      }
    }

    method ParseLastAlternative(e: Regex, start: nat, ghost base: seq<Byte>, ghost b: nat) returns (ok: bool)
      requires e.Alt? && Parsed(e.right) && RangesFit(e.left) && captureCount <= CAPTURE_COUNT_MAX
      requires captureCount == b + Groups(e.left) && start == |base| && Encodable(e.left, b)
      requires byteCode == base + Code(e.left, b)
      modifies this
      ensures ok <==> RangesFit(e.right) && old(captureCount) + Groups(e.right) <= CAPTURE_COUNT_MAX
      ensures ok ==> captureCount == old(captureCount) + Groups(e.right)
      ensures ok ==> Encodable(e, b) && byteCode == base + Code(e, b)
      decreases e, 0
    {
      ghost var c1 := Code(e.left, b);
      var pos := BeginAlternative(start, base, c1);
      ghost var b2 := captureCount;
      ok := Parse(e.right);
      if ok {
        AltCodes(e, b);
        EndAlternative(pos, base, c1, Code(e.right, b2));
      }
    }

    method BeginAlternative(start: nat, ghost base: seq<Byte>, ghost c1: seq<Byte>) returns (pos: nat)
      requires byteCode == base + c1 && start == |base|
      modifies this`byteCode
      ensures byteCode == base + Op5(OP_SPLIT_NEXT_FIRST, |c1| + 5) + c1 + [OP_GOTO] + U32Bytes(0)
      ensures pos == |base| + |c1| + 6
    {
      var len := |byteCode| - start;
      assert byteCode[..start] == base && byteCode[start..] == c1;
      ghost var gap := Insert(start, 5);
      SetOp5(start, OP_SPLIT_NEXT_FIRST, len + 5, base, gap, c1);
      assert gap[5..] == [];
      assert byteCode == base + Op5(OP_SPLIT_NEXT_FIRST, len + 5) + c1;
      pos := EmitOpU32(OP_GOTO, 0);
      PairShape(base + Op5(OP_SPLIT_NEXT_FIRST, len + 5) + c1, [OP_GOTO], U32Bytes(0));
    }

    method EndAlternative(pos: nat, ghost base: seq<Byte>, ghost c1: seq<Byte>, ghost c2: seq<Byte>)
      requires byteCode == base + Op5(OP_SPLIT_NEXT_FIRST, |c1| + 5) + c1 + [OP_GOTO] + U32Bytes(0) + c2
      requires pos == |base| + |c1| + 6
      modifies this`byteCode
      ensures byteCode == base + AltCode(c1, c2)
    {
      var len := |byteCode| - (pos + 4);
      PutU32(pos, len, base + Op5(OP_SPLIT_NEXT_FIRST, |c1| + 5) + c1 + [OP_GOTO], U32Bytes(0), c2);
      assert U32Bytes(0)[4..] == [];
      AltShape(base, c1, c2);
    }

    /** An atom and its quantifier. */
    method ParseQuantified(e: Regex) returns (ok: bool)
      requires e.Quant? && Parsed(e) && captureCount <= CAPTURE_COUNT_MAX
      modifies this
      ensures ok <==> RangesFit(e) && old(captureCount) + Groups(e) <= CAPTURE_COUNT_MAX
      ensures ok ==> captureCount == old(captureCount) + Groups(e)
      ensures ok ==> byteCode == old(byteCode) + Code(e, old(captureCount))
      decreases e, 0
    {
      var lastAtomStart, lastCaptureCount: Byte := |byteCode|, captureCount;
      ghost var base := byteCode;
      ok := Parse(e.atom);
      if ok {
        EmitQuantifierOf(e, lastAtomStart, lastCaptureCount, base);
      }
    }

    method EmitQuantifierOf(e: Regex, start: nat, b: Byte, ghost base: seq<Byte>)
      requires e.Quant? && Encodable(e, b) && captureCount == b + Groups(e.atom)
      requires byteCode == base + Code(e.atom, b) && start == |base|
      modifies this`byteCode
      ensures byteCode == base + Code(e, b)
    {
      ghost var c := Code(e.atom, b);
      QuantifiedCode(e, b);
      assert captureCount - b == Groups(e.atom);
      EmitQuantifier(start, b, e.min, e.max, e.greedy, base, c, Code(e, b));
    }

    method ParseLookahead(e: Regex) returns (ok: bool)
      requires e.Look? && Parsed(e) && captureCount <= CAPTURE_COUNT_MAX
      modifies this
      ensures ok <==> RangesFit(e) && old(captureCount) + Groups(e) <= CAPTURE_COUNT_MAX
      ensures ok ==> captureCount == old(captureCount) + Groups(e)
      ensures ok ==> byteCode == old(byteCode) + Code(e, old(captureCount))
      decreases e, 0
    {
      ghost var base, b := byteCode, captureCount;
      var op: Byte := if e.negative then OP_NEGATIVE_LOOKAHEAD else OP_LOOKAHEAD;
      var pos := EmitOpU32(op, 0);
      ok := Parse(e.ahead);
      if ok {
        LookaheadCode(e, b);
        EndLookahead(pos, op, base, Code(e.ahead, b));
      }
    }

    method EndLookahead(pos: nat, op: Byte, ghost base: seq<Byte>, ghost c: seq<Byte>)
      requires byteCode == base + Op5(op, 0) + c && pos == |base| + 1
      modifies this`byteCode
      ensures byteCode == base + (Op5(op, |c| + 1) + c + [OP_MATCH])
    {
      ghost var pre := base + [op];
      EmitOp(OP_MATCH);
      PairShape(base, [op], U32Bytes(0));
      PairShape(pre + U32Bytes(0), c, [OP_MATCH]);
      PutU32(pos, |byteCode| - (pos + 4), pre, U32Bytes(0), c + [OP_MATCH]);
      assert U32Bytes(0)[4..] == [];
      LookShape(base, op, c);
    }

    // -------------------------------------------------------------------
    // The frame of a program
    // -------------------------------------------------------------------

    method EmitPrefix(sticky: bool)
      modifies this`byteCode
      ensures byteCode == old(byteCode) + if sticky then [] else SearchPrefix()
    {
      if !sticky {
        ghost var header := byteCode;
        var _ := EmitOpU32(OP_SPLIT_GOTO_FIRST, 1 + 5);
        EmitOp(OP_ANY);
        var _ := EmitOpU32(OP_GOTO, -(5 + 1 + 5));
        PrefixShape(header);
      } else {
        assert byteCode + [] == byteCode;
      }
    }

    method EmitProgram(e: Regex, sticky: bool, ghost header: seq<Byte>) returns (ok: bool)
      requires Parsed(e) && captureCount == 1
      requires byteCode == header + if sticky then [] else SearchPrefix()
      modifies this
      ensures ok <==> Compilable(e)
      ensures ok ==> byteCode == header + ProgramCode(e, sticky) && captureCount == 1 + Groups(e)
    {
      EmitOpU8(OP_SAVE_START, 0);
      ok := Parse(e);
      if ok {
        EmitOpU8(OP_SAVE_END, 0);
        EmitOp(OP_MATCH);
        ProgramShape(header, if sticky then [] else SearchPrefix(), Code(e, 1));
      }
    }

    /** Fills in the header once the program is known. */
    method WriteHeader(flags: nat, stackSize: Byte, ghost code: seq<Byte>)
      requires flags < 0x1_0000 && captureCount <= 255
      requires byteCode == U16(flags) + [0, 0] + U32Bytes(0) + code
      modifies this`byteCode
      ensures |byteCode| >= RE_HEADER_LEN && byteCode[RE_HEADER_LEN..] == code
      ensures GetU16(byteCode, 0) == flags && byteCode[2] == captureCount && byteCode[3] == stackSize
      ensures GetU32(byteCode, 4) == |code| % 0x1_0000_0000
    {
      var count: Byte := captureCount;
      HeaderShape(flags, code);
      SetByte(2, count, U16(flags), [0, 0], U32Bytes(0) + code);
      SetByte(3, stackSize, U16(flags) + [count], [0, 0][1..], U32Bytes(0) + code);
      ghost var pre := U16(flags) + [count] + [stackSize];
      assert [0, 0][1..][1..] == [];
      assert byteCode == pre + U32Bytes(0) + code;
      PutU32(4, |byteCode| - RE_HEADER_LEN, pre, U32Bytes(0), code);
      assert U32Bytes(0)[4..] == [];
      CompiledShape(byteCode, flags, count, stackSize, code);
    }
  }

  // ---------------------------------------------------------------------
  // Whole programs
  // ---------------------------------------------------------------------

  /** The compiled form: a header, then the program. */
  ghost predicate IsCompiled(bc: seq<Byte>, e: Regex, sticky: bool, flags: nat)
    requires Compilable(e)
  {
    && |bc| >= RE_HEADER_LEN
    && bc[RE_HEADER_LEN..] == ProgramCode(e, sticky)
    && GetU16(bc, 0) == flags
    && bc[2] == 1 + Groups(e)
    && bc[3] == StackSize(ProgramCode(e, sticky))
    && GetU32(bc, 4) == |ProgramCode(e, sticky)| % 0x1_0000_0000
  }

  /** lre_compile. It fails exactly if there are too many captures, a class has
      too many ranges, or quantifiers are nested too deeply for the stack. */
  method Compile(e: Regex, sticky: bool, flags: nat) returns (r: Option<seq<Byte>>)
    requires Parsed(e) && flags < 0x1_0000
    ensures r.Some? <==> Compilable(e) && StackSize(ProgramCode(e, sticky)) <= STACK_SIZE_MAX
    ensures r.Some? ==> IsCompiled(r.value, e, sticky, flags)
  {
    var s := new REParseState();
    s.Put(U16(flags));
    s.EmitOp(0);
    s.EmitOp(0);
    s.Put(U32Bytes(0));
    ghost var header := s.byteCode;
    assert header == U16(flags) + [0, 0] + U32Bytes(0);
    s.EmitPrefix(sticky);
    var ok := s.EmitProgram(e, sticky, header);
    if !ok {
      return None;
    }
    ghost var code := ProgramCode(e, sticky);
    assert s.byteCode[RE_HEADER_LEN..] == code;
    var stackSize := ComputeStackSize(s.byteCode[RE_HEADER_LEN..]);
    if stackSize < 0 {
      return None;
    }
    s.WriteHeader(flags, stackSize, code);
    r := Some(s.byteCode);
  }

  lemma PrefixShape(header: seq<Byte>)
    ensures header + Op5(OP_SPLIT_GOTO_FIRST, 6) + [OP_ANY] + Op5(OP_GOTO, -11) == header + SearchPrefix()
  {
  }

  lemma ProgramShape(header: seq<Byte>, prefix: seq<Byte>, c: seq<Byte>)
    ensures header + prefix + [OP_SAVE_START, 0] + c + [OP_SAVE_END, 0] + [OP_MATCH]
         == header + (prefix + GroupCode(c, 0) + [OP_MATCH])
  {
  }

  lemma HeaderShape(flags: nat, code: seq<Byte>)
    ensures U16(flags) + [0, 0] + U32Bytes(0) + code == U16(flags) + [0, 0] + (U32Bytes(0) + code)
  {
  }

  lemma CompiledShape(bc: seq<Byte>, flags: nat, captureCount: Byte, stackSize: Byte, code: seq<Byte>)
    requires flags < 0x1_0000
    requires bc == (U16(flags) + [captureCount] + [stackSize] + U32Bytes(|code|)) + [] + code
    ensures |bc| >= RE_HEADER_LEN && bc[RE_HEADER_LEN..] == code
    ensures GetU16(bc, 0) == flags && bc[2] == captureCount && bc[3] == stackSize
    ensures GetU32(bc, 4) == |code| % 0x1_0000_0000
  {
    Stands(bc, 0, U16(flags));
    GetU16Bytes(bc, 0, flags);
    Stands(bc, 4, U32Bytes(|code|));
    GetU32Bytes(bc, 4, |code|);
  }

  lemma ConcatMeasures(e: Regex)
    requires e.Concat?
    ensures RangesFit(e) == (RangesFit(e.first) && RangesFit(e.second))
    ensures Parsed(e) == (Parsed(e.first) && Parsed(e.second)) && Groups(e) == Groups(e.first) + Groups(e.second)
  {
  }

  lemma AltMeasures(e: Regex)
    requires e.Alt?
    ensures RangesFit(e) == (RangesFit(e.left) && RangesFit(e.right))
    ensures Parsed(e) == (Parsed(e.left) && Parsed(e.right)) && Groups(e) == Groups(e.left) + Groups(e.right)
  {
  }

  lemma AltCodes(e: Regex, b: nat)
    requires e.Alt? && Encodable(e, b)
    ensures Encodable(e.left, b) && Encodable(e.right, b + Groups(e.left))
    ensures Code(e, b) == AltCode(Code(e.left, b), Code(e.right, b + Groups(e.left)))
  {
  }

  lemma ConcatCode(e: Regex, base: seq<Byte>, b: nat)
    requires e.Concat? && Encodable(e, b)
    ensures Encodable(e.first, b) && Encodable(e.second, b + Groups(e.first))
    ensures base + Code(e.first, b) + Code(e.second, b + Groups(e.first)) == base + Code(e, b)
  {
    PairShape(base, Code(e.first, b), Code(e.second, b + Groups(e.first)));
  }

  lemma LookaheadCode(e: Regex, b: nat)
    requires e.Look? && Encodable(e, b)
    ensures Encodable(e.ahead, b)
    ensures var c := Code(e.ahead, b);
      Code(e, b) == Op5(if e.negative then OP_NEGATIVE_LOOKAHEAD else OP_LOOKAHEAD, |c| + 1) + c + [OP_MATCH]
  {
  }

  lemma UpToCode(c: seq<Byte>, b: Byte, g: nat, max: nat, greedy: bool)
    requires b + g <= 256 && !UsesSimpleLoop(c, max, greedy)
    ensures QuantCode(c, b, g, 0, max, greedy) == ResetCode(b, g) + OptionalCode(Guarded(c, NeedCheck(c)), max, greedy)
  {
  }

  lemma AtLeastCode(c: seq<Byte>, b: Byte, g: nat, min: nat, max: nat, greedy: bool)
    requires b + g <= 256 && !UsesSimpleLoop(c, max, greedy) && 0 < min <= max
    ensures QuantCode(c, b, g, min, max, greedy)
         == if UsesPlus(c, min, max) then PlusCode(c, greedy)
            else MandatoryCode(c, min) + FurtherCode(Guarded(c, NeedCheck(c)), Further(min, max), greedy)
  {
  }

  lemma QuantifiedCode(e: Regex, b: nat)
    requires e.Quant? && Encodable(e, b)
    ensures Code(e, b) == QuantCode(Code(e.atom, b), b, Groups(e.atom), e.min, e.max, e.greedy)
  {
  }

  lemma AltShape(base: seq<Byte>, c1: seq<Byte>, c2: seq<Byte>)
    ensures (base + Op5(OP_SPLIT_NEXT_FIRST, |c1| + 5) + c1 + [OP_GOTO] + U32Bytes(|c2|)) + [] + c2
         == base + AltCode(c1, c2)
  {
  }

  lemma LookShape(base: seq<Byte>, op: Byte, c: seq<Byte>)
    ensures (base + [op] + U32Bytes(|c| + 1)) + [] + (c + [OP_MATCH]) == base + (Op5(op, |c| + 1) + c + [OP_MATCH])
  {
  }

  lemma SimpleLoopShape(base: seq<Byte>, c: seq<Byte>, buf: seq<Byte>, min: nat, max: nat, width: nat)
    requires buf == (base + Op5(OP_SIMPLE_GREEDY_QUANT, |c| + 1) + U32Bytes(min) + U32Bytes(max) + U32Bytes(width))
                    + [] + (c + [OP_MATCH])
    ensures buf == base + SimpleLoopCode(c, min, max, width)
  {
  }

  lemma PairShape(a: seq<Byte>, b: seq<Byte>, c: seq<Byte>)
    ensures a + b + c == a + (b + c)
  {
  }

  lemma LoopShape(base: seq<Byte>, head: seq<Byte>, a: seq<Byte>, tail: seq<Byte>)
    ensures base + head + a + tail == base + (head + a + tail)
  {
  }

  lemma TimesShape(base: seq<Byte>, push: seq<Byte>, a: seq<Byte>, loop: seq<Byte>)
    ensures base + push + a + loop + [OP_DROP] == base + (push + a + loop + [OP_DROP])
    ensures |base + push + a| <= |base + push + a + loop + [OP_DROP]|
    ensures (base + push + a + loop + [OP_DROP])[|base| + |push|..|base| + |push| + |a|] == a
  {
  }

  lemma CountedShape(base: seq<Byte>, push: seq<Byte>, split: seq<Byte>, a: seq<Byte>, loop: seq<Byte>)
    ensures base + push + split + a + loop + [OP_DROP] == base + (push + split + a + loop + [OP_DROP])
  {
  }
}
