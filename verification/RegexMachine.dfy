/** The backtracking machine of Sources/SubstrataQuickJS/libregexp.c as a
    transition function. `Stuck` stands for everything the C code leaves
    undefined: running off the code, overflowing or underflowing the value
    stack, an unknown opcode, an inner loop that does not end. */
module RegexMachine {
  import opened CharSets
  import opened Common
  import opened RegexSyntax
  import opened RegexCode

  const U64 := 0x1_0000_0000_0000_0000

  /** A compiled program on a subject, with the two limits of its header. */
  datatype Program = Program(code: seq<Byte>, inp: Input, captures: nat, stackMax: nat)

  datatype Kind = Split | LookAhead | NegativeLookAhead | GreedyQuant

  /** REExecState: what a backtrack entry remembers. */
  datatype Saved = Saved(kind: Kind, pc: nat, cptr: nat, caps: seq<Mark>, stack: seq<nat>, count: nat)

  datatype State =
    | Run(pc: nat, cptr: nat, caps: seq<Mark>, stack: seq<nat>, states: seq<Saved>)
    | Failing(states: seq<Saved>)
    | Matching(caps: seq<Mark>, states: seq<Saved>)
    | Found(caps: seq<Mark>)
    | NotFound
    | Stuck

  /** What an instruction that only looks at the subject does. */
  datatype Look = Go(pc: nat, cptr: nat) | Reject | Broken

  // ---------------------------------------------------------------------
  // Instructions that test the subject
  // ---------------------------------------------------------------------

  datatype Found = Yes | No | Wild

  /** Bytes of the first `n` entries of a table. */
  function TableSize(wide: bool, n: nat): nat {
    if wide then 8 * n else 4 * n
  }

  function LowAt(bc: seq<Byte>, p: nat, wide: bool, i: nat): nat
    requires p + TableSize(wide, i + 1) <= |bc|
  {
    if wide then GetU32(bc, p + 8 * i) else GetU16(bc, p + 4 * i)
  }

  function HighAt(bc: seq<Byte>, p: nat, wide: bool, i: nat): nat
    requires p + TableSize(wide, i + 1) <= |bc|
  {
    if wide then GetU32(bc, p + 8 * i + 4) else GetU16(bc, p + 4 * i + 2)
  }

  datatype Range = Range(low: nat, high: nat)

  /** The entries of a range table. */
  function Ranges(bc: seq<Byte>, p: nat, wide: bool, n: nat): (t: seq<Range>)
    requires p + TableSize(wide, n) <= |bc|
    ensures |t| == n
  {
    seq(n, i requires 0 <= i < n => Range(LowAt(bc, p, wide, i), HighAt(bc, p, wide, i)))
  }

  /** The binary search over entries `lo` to `hi`; its indices are unsigned,
      and `Wild` is the search that would step below entry 0. */
  function BinarySearch(t: seq<Range>, lo: nat, hi: nat, c: nat): Found
    requires hi < |t|
    decreases hi + 1 - lo
  {
    if lo > hi then No else
      var idx := (lo + hi) / 2;
      if c < t[idx].low then if idx == 0 then Wild else BinarySearch(t, lo, idx - 1, c)
      else if c > t[idx].high then BinarySearch(t, idx + 1, hi, c)
      else Yes
  }

  function RangeSearch(t: seq<Range>, wide: bool, c: nat): Found
    requires t != []
  {
    if c < t[0].low then No
    else if !wide && c >= 0xFFFF && t[|t| - 1].high == 0xFFFF then Yes
    else if c > t[|t| - 1].high then No
    else BinarySearch(t, 0, |t| - 1, c)
  }

  function Test(ok: bool, pc: nat, cptr: nat): Look {
    if ok then Go(pc, cptr) else Reject
  }

  /** A range instruction at `pc`, past the opcode. */
  function RangeStep(bc: seq<Byte>, pc: nat, wide: bool, c: nat, cptr: nat): Look {
    if pc + 2 > |bc| then Broken else
      var n := GetU16(bc, pc);
      var end := pc + 2 + TableSize(wide, n);
      if n == 0 || end > |bc| then Broken else
        match RangeSearch(Ranges(bc, pc + 2, wide, n), wide, c)
        case Yes => Go(end, cptr + 1)
        case No => Reject
        case Wild => Broken
  }

  /** A character instruction; `Broken` for every other one. */
  function CharStep(bc: seq<Byte>, op: Byte, pc: nat, inp: Input, cptr: nat): Look {
    if pc + OpSize(op) - 1 > |bc| then Broken
    else if cptr >= |inp.cbuf| then Reject
    else
      var c := inp.cbuf[cptr];
      if op == OP_CHAR8 then Test(c == bc[pc], pc + 1, cptr + 1)
      else if op == OP_CHAR16 then Test(c == GetU16(bc, pc), pc + 2, cptr + 1)
      else if op == OP_CHAR32 then Test(c == GetU32(bc, pc), pc + 4, cptr + 1)
      else if op == OP_DOT then Test(!IsLineTerminator(c), pc, cptr + 1)
      else if op == OP_ANY then Go(pc, cptr + 1)
      else if op == OP_RANGE then RangeStep(bc, pc, false, c, cptr)
      else if op == OP_RANGE32 then RangeStep(bc, pc, true, c, cptr)
      else Broken
  }

  function AssertStep(op: Byte, pc: nat, inp: Input, cptr: nat): Look {
    if cptr > |inp.cbuf| then Broken
    else if op == OP_LINE_START then Test(Holds(LineStart, inp, cptr), pc, cptr)
    else if op == OP_LINE_END then Test(Holds(LineEnd, inp, cptr), pc, cptr)
    else if op == OP_WORD_BOUNDARY then Test(Holds(WordBoundary, inp, cptr), pc, cptr)
    else if op == OP_NOT_WORD_BOUNDARY then Test(Holds(NotWordBoundary, inp, cptr), pc, cptr)
    else Broken
  }

  /** One instruction of a simple atom at `pc`. */
  function SimpleStep(bc: seq<Byte>, pc: nat, inp: Input, cptr: nat): (r: Look) {
    if pc >= |bc| then Broken
    else if IsCharOp(bc[pc]) then CharStep(bc, bc[pc], pc + 1, inp, cptr)
    else AssertStep(bc[pc], pc + 1, inp, cptr)
  }

  // ---------------------------------------------------------------------
  // Simple greedy loops
  // ---------------------------------------------------------------------

  datatype Inner = MatchAt(cptr: nat) | NoMatch | Failed

  /** The run with `no_recurse` set, from `pc` to the next match instruction. */
  function RunSimple(bc: seq<Byte>, pc: nat, inp: Input, cptr: nat): Inner
    decreases |bc| - pc
  {
    if pc < |bc| && bc[pc] == OP_MATCH then MatchAt(cptr) else
      match SimpleStep(bc, pc, inp, cptr)
      case Go(pc1, cptr1) => if pc1 <= pc then Failed else RunSimple(bc, pc1, inp, cptr1)
      case Reject => NoMatch
      case Broken => Failed
  }

  datatype Counted = Counted(q: nat, cptr: nat) | Endless

  /** The scan loop: as many runs of the atom as possible, at most `max`. A
      run that does not move on would repeat for ever. */
  function Scan(bc: seq<Byte>, pc: nat, inp: Input, cptr: nat, q: nat, max: nat): Counted
    decreases |inp.cbuf| - cptr
  {
    match RunSimple(bc, pc, inp, cptr)
    case Failed => Endless
    case NoMatch => Counted(q, cptr)
    case MatchAt(cptr1) =>
      if q + 1 >= max && max != INFINITY then Counted(q + 1, cptr1)
      else if cptr1 <= cptr || cptr > |inp.cbuf| then Endless
      else Scan(bc, pc, inp, cptr1, q + 1, max)
  }

  // ---------------------------------------------------------------------
  // Steps
  // ---------------------------------------------------------------------

  function Push(s: State, pc: nat, value: nat, stackMax: nat): State
    requires s.Run?
  {
    if |s.stack| < stackMax then s.(pc := pc, stack := s.stack + [value]) else Stuck
  }

  function SaveState(s: State, kind: Kind, alternative: int, pc: int): State
    requires s.Run?
  {
    if alternative < 0 || pc < 0 then Stuck
    else s.(pc := pc, states := s.states + [Saved(kind, alternative, s.cptr, s.caps, s.stack, 0)])
  }

  function Jump(s: State, pc: int): State
    requires s.Run?
  {
    if pc < 0 then Stuck else s.(pc := pc)
  }

  /** Instructions with a 32-bit operand; `pc` is past the operand. */
  function OperandStep(prog: Program, s: State, op: Byte, pc: nat, val: nat): State
    requires s.Run?
  {
    var target := pc + Signed(val);
    if op == OP_GOTO then Jump(s, target)
    else if op == OP_SPLIT_GOTO_FIRST then SaveState(s, Split, pc, target)
    else if op == OP_SPLIT_NEXT_FIRST then SaveState(s, Split, target, pc)
    else if op == OP_LOOKAHEAD then SaveState(s, LookAhead, target, pc)
    else if op == OP_NEGATIVE_LOOKAHEAD then SaveState(s, NegativeLookAhead, target, pc)
    else if op == OP_PUSH_I32 then Push(s, pc, val, prog.stackMax)
    else if op == OP_LOOP && |s.stack| > 0 then
      var top := |s.stack| - 1;
      var left := (s.stack[top] - 1) % U64;
      Jump(s.(stack := s.stack[top := left]), if left != 0 then target else pc)
    else Stuck
  }

  function CaptureStep(prog: Program, s: State, op: Byte): State
    requires s.Run? && s.pc + OpSize(op) <= |prog.code|
    requires op == OP_SAVE_START || op == OP_SAVE_END || op == OP_SAVE_RESET
    requires |s.caps| == 2 * prog.captures
  {
    var val := prog.code[s.pc + 1];
    if op == OP_SAVE_RESET then
      var val2 := prog.code[s.pc + 2] as int;
      if val2 >= prog.captures then Stuck
      else s.(pc := s.pc + 3, caps := if val <= val2 then ResetMarks(s.caps, val, val2 + 1) else s.caps)
    else if val >= prog.captures then Stuck
    else s.(pc := s.pc + 2, caps := s.caps[2 * val + (op - OP_SAVE_START as int) := At(s.cptr)])
  }

  function GreedyStep(prog: Program, s: State): State
    requires s.Run? && s.pc + 17 <= |prog.code|
  {
    var pc1 := s.pc + 17;
    var next := pc1 + Signed(GetU32(prog.code, s.pc + 1));
    var min := GetU32(prog.code, s.pc + 5);
    var max := GetU32(prog.code, s.pc + 9);
    match Scan(prog.code, pc1, prog.inp, s.cptr, 0, max)
    case Endless => Stuck
    case Counted(q, cptr) =>
      if next < 0 then Stuck
      else if q < min then Failing(s.states)
      else
        var saved := Saved(GreedyQuant, s.pc + 1, cptr, s.caps, s.stack, q - min);
        s.(pc := next, cptr := cptr, states := if q > min then s.states + [saved] else s.states)
  }

  /** One instruction. */
  function RunStep(prog: Program, s: State): State
    requires s.Run?
  {
    if s.pc >= |prog.code| || s.pc + OpSize(prog.code[s.pc]) > |prog.code| || |s.caps| != 2 * prog.captures then Stuck
    else
      var op := prog.code[s.pc];
      if IsCharOp(op) || IsAssertOp(op) then
        match SimpleStep(prog.code, s.pc, prog.inp, s.cptr)
        case Go(pc, cptr) => s.(pc := pc, cptr := cptr)
        case Reject => Failing(s.states)
        case Broken => Stuck
      else if op == OP_MATCH then Matching(s.caps, s.states)
      else if op == OP_SAVE_START || op == OP_SAVE_END || op == OP_SAVE_RESET then CaptureStep(prog, s, op)
      else if op == OP_PUSH_CHAR_POS then Push(s, s.pc + 1, s.cptr, prog.stackMax)
      else if op == OP_DROP || op == OP_CHECK_ADVANCE then
        if |s.stack| == 0 then Stuck
        else if op == OP_CHECK_ADVANCE && s.stack[|s.stack| - 1] == s.cptr then Failing(s.states)
        else s.(pc := s.pc + 1, stack := s.stack[..|s.stack| - 1])
      else if op == OP_SIMPLE_GREEDY_QUANT then GreedyStep(prog, s)
      else if OpSize(op) == 5 then OperandStep(prog, s, op, s.pc + 5, GetU32(prog.code, s.pc + 1))
      else Stuck
  }

  function Resume(rs: Saved, caps: seq<Mark>, states: seq<Saved>): State {
    Run(rs.pc, rs.cptr, caps, rs.stack, states)
  }

  /** Backtracking into a simple greedy loop: one iteration less. */
  function ResumeGreedy(prog: Program, rs: Saved, below: seq<Saved>): State {
    if rs.pc + 16 > |prog.code| then Stuck else
      var cptr := rs.cptr - GetU32(prog.code, rs.pc + 12);
      var pc := rs.pc + 16 + Signed(GetU32(prog.code, rs.pc));
      if cptr < 0 || pc < 0 || rs.count == 0 then Stuck
      else
        var states := if rs.count == 1 then below else below + [rs.(cptr := cptr, count := rs.count - 1)];
        Run(pc, cptr, rs.caps, rs.stack, states)
  }

  /** One step of leaving a match attempt, towards the entry to resume. */
  function UnwindStep(prog: Program, s: State): State
    requires s.Failing? || s.Matching?
  {
    if s.states == [] then (if s.Matching? then Found(s.caps) else NotFound) else
      var rs := s.states[|s.states| - 1];
      var below := s.states[..|s.states| - 1];
      match rs.kind
      case Split => if s.Matching? then Matching(s.caps, below) else Resume(rs, rs.caps, below)
      case GreedyQuant => if s.Matching? then Matching(s.caps, below) else ResumeGreedy(prog, rs, below)
      case LookAhead => if s.Matching? then Resume(rs, s.caps, below) else Failing(below)
      case NegativeLookAhead => if s.Matching? then Failing(below) else Resume(rs, rs.caps, below)
  }

  function Step(prog: Program, s: State): State {
    match s
    case Run(_, _, _, _, _) => RunStep(prog, s)
    case Failing(_) => UnwindStep(prog, s)
    case Matching(_, _) => UnwindStep(prog, s)
    case _ => s
  }
}
