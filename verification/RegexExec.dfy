/** lre_exec and lre_exec_backtrack of Sources/SubstrataQuickJS/libregexp.c as
    the loops over mutable state they are, proved against the transition
    function of the machine. */
module RegexExec {
  import opened CharSets
  import opened Common
  import opened RegexSyntax
  import opened RegexCode
  import opened RegexMachine
  import Runs
  import opened RegexPaths
  import opened RegexProgram
  import RegexGreedy
  import RegexCompiler

  // ---------------------------------------------------------------------
  // Tests of the subject
  // ---------------------------------------------------------------------

  /** The search loop over a range table. */
  method SearchRanges(code: seq<Byte>, pc: nat, wide: bool, n: nat, c: nat) returns (r: Found)
    requires 1 <= n <= 0xFFFF && pc + TableSize(wide, n) <= |code|
    ensures r == RangeSearch(Ranges(code, pc, wide, n), wide, c)
  {
    ghost var t := Ranges(code, pc, wide, n);
    var idxMin, idxMax := 0, n - 1;
    if c < LowAt(code, pc, wide, 0) {
      return No;
    }
    var high := HighAt(code, pc, wide, idxMax);
    if !wide && c >= 0xFFFF && high == 0xFFFF {
      return Yes;
    }
    if c > high {
      return No;
    }
    while idxMin <= idxMax
      invariant 0 <= idxMin <= n && 0 <= idxMax < n
      invariant BinarySearch(t, idxMin, idxMax, c) == BinarySearch(t, 0, n - 1, c)
      decreases idxMax + 1 - idxMin
    {
      var idx := (idxMin + idxMax) / 2;
      assert t[idx] == Range(LowAt(code, pc, wide, idx), HighAt(code, pc, wide, idx));
      if c < LowAt(code, pc, wide, idx) {
        if idx == 0 {
          return Wild;
        }
        idxMax := idx - 1;
      } else if c > HighAt(code, pc, wide, idx) {
        idxMin := idx + 1;
      } else {
        return Yes;
      }
    }
    return No;
  }

  /** The cases of range and range32; `pc` is past the opcode. */
  method TestRanges(code: seq<Byte>, pc: nat, wide: bool, c: nat, cptr: nat) returns (r: Look)
    requires pc + 2 <= |code|
    ensures r == RangeStep(code, pc, wide, c, cptr)
  {
    var n := GetU16(code, pc);
    var end := pc + 2 + TableSize(wide, n);
    if n == 0 || end > |code| {
      return Broken;
    }
    var found := SearchRanges(code, pc + 2, wide, n, c);
    match found {
      case Yes => return Go(end, cptr + 1);
      case No => return Reject;
      case Wild => return Broken;
    }
  }

  /** The cases that read a character; `pc` is past the opcode. */
  method TestChar(code: seq<Byte>, op: Byte, pc: nat, inp: Input, cptr: nat) returns (r: Look)
    ensures r == CharStep(code, op, pc, inp, cptr)
  {
    if pc + OpSize(op) - 1 > |code| {
      return Broken;
    }
    if cptr >= |inp.cbuf| {
      return Reject;
    }
    var c := inp.cbuf[cptr];
    if op == OP_CHAR32 || op == OP_CHAR16 || op == OP_CHAR8 {
      var val, next;
      if op == OP_CHAR32 {
        val, next := GetU32(code, pc), pc + 4;
      } else if op == OP_CHAR16 {
        val, next := GetU16(code, pc), pc + 2;
      } else {
        val, next := code[pc], pc + 1;
      }
      if val != c {
        return Reject;
      }
      return Go(next, cptr + 1);
    } else if op == OP_DOT {
      if IsLineTerminator(c) {
        return Reject;
      }
      return Go(pc, cptr + 1);
    } else if op == OP_ANY {
      return Go(pc, cptr + 1);
    } else if op == OP_RANGE || op == OP_RANGE32 {
      r := TestRanges(code, pc, op == OP_RANGE32, c, cptr);
    } else {
      return Broken;
    }
  }

  /** The cases that only look at the subject. */
  method TestAssertion(op: Byte, pc: nat, inp: Input, cptr: nat) returns (r: Look)
    ensures r == AssertStep(op, pc, inp, cptr)
  {
    if cptr > |inp.cbuf| {
      return Broken;
    }
    if op == OP_LINE_START {
      if cptr != 0 && (!inp.multiLine || !IsLineTerminator(inp.cbuf[cptr - 1])) {
        return Reject;
      }
      return Go(pc, cptr);
    } else if op == OP_LINE_END {
      if cptr != |inp.cbuf| && (!inp.multiLine || !IsLineTerminator(inp.cbuf[cptr])) {
        return Reject;
      }
      return Go(pc, cptr);
    } else if op == OP_WORD_BOUNDARY || op == OP_NOT_WORD_BOUNDARY {
      var v1 := cptr != 0 && IsWordChar(inp.cbuf[cptr - 1]);
      var v2 := cptr < |inp.cbuf| && IsWordChar(inp.cbuf[cptr]);
      if (v1 != v2) != (op == OP_WORD_BOUNDARY) {
        return Reject;
      }
      return Go(pc, cptr);
    } else {
      return Broken;
    }
  }

  /** A character or assertion instruction. */
  method TestSubject(code: seq<Byte>, pc: nat, inp: Input, cptr: nat) returns (r: Look)
    ensures r == SimpleStep(code, pc, inp, cptr)
  {
    if pc >= |code| {
      return Broken;
    }
    if IsCharOp(code[pc]) {
      r := TestChar(code, code[pc], pc + 1, inp, cptr);
    } else {
      r := TestAssertion(code[pc], pc + 1, inp, cptr);
    }
  }

  /** The run with `no_recurse` set: one attempt at a simple atom. */
  method RunInner(code: seq<Byte>, pc1: nat, inp: Input, cptr1: nat) returns (r: Inner)
    ensures r == RunSimple(code, pc1, inp, cptr1)
  {
    var pc, cptr := pc1, cptr1;
    while true
      invariant RunSimple(code, pc, inp, cptr) == RunSimple(code, pc1, inp, cptr1)
      decreases |code| - pc
    {
      if pc < |code| && code[pc] == OP_MATCH {
        return MatchAt(cptr);
      }
      var test := TestSubject(code, pc, inp, cptr);
      match test {
        case Go(pc2, cptr2) =>
          if pc2 <= pc {
            return Failed;
          }
          if pc >= |code| {
            return Failed;
          }
          pc, cptr := pc2, cptr2;
        case Reject => return NoMatch;
        case Broken => return Failed;
      }
    }
  }

  /** The scan loop of a simple greedy quantifier. */
  method ScanAtom(code: seq<Byte>, pc: nat, inp: Input, start: nat, max: nat) returns (r: Counted)
    ensures r == Scan(code, pc, inp, start, 0, max)
  {
    var q, cptr := 0, start;
    while true
      invariant Scan(code, pc, inp, cptr, q, max) == Scan(code, pc, inp, start, 0, max)
      decreases |inp.cbuf| - cptr
    {
      var res := RunInner(code, pc, inp, cptr);
      match res {
        case Failed => return Endless;
        case NoMatch => return Counted(q, cptr);
        case MatchAt(cptr1) =>
          if q + 1 >= max && max != INFINITY {
            return Counted(q + 1, cptr1);
          }
          if cptr1 <= cptr || cptr > |inp.cbuf| {
            return Endless;
          }
          cptr, q := cptr1, q + 1;
      }
    }
  }

  lemma StepFits(prog: Program, s: State)
    requires s.Run? && !Step(prog, s).Stuck?
    ensures s.pc < |prog.code| && s.pc + OpSize(prog.code[s.pc]) <= |prog.code| && |s.caps| == 2 * prog.captures
  {
  }

  datatype Outcome = Next | Mismatch | Matched

  /** The machine's registers and stacks. The value stack and the captures are
      those of the current attempt; `states` is the backtrack stack. */
  class REExecContext {
    const prog: Program
    var capture: seq<Mark>
    var stack: seq<nat>
    var pc: nat
    var cptr: nat
    var states: seq<Saved>

    constructor (prog: Program, start: nat)
      ensures this.prog == prog
      ensures State() == Run(0, start, seq(2 * prog.captures, _ => Null), [], [])
    {
      this.prog := prog;
      capture := seq(2 * prog.captures, _ => Null);
      stack := [];
      pc := 0;
      cptr := start;
      states := [];
    }

    ghost function State(): State
      reads this
    {
      Run(pc, cptr, capture, stack, states)
    }

    /** push_state */
    method PushState(kind: Kind, alternative: nat, count: nat)
      modifies this`states
      ensures states == old(states) + [Saved(kind, alternative, cptr, capture, stack, count)]
    {
      states := states + [Saved(kind, alternative, cptr, capture, stack, count)];
    }

    /** One instruction: what it does to the state, or that the attempt ends. */
    method Execute() returns (r: Outcome)
      requires !Step(prog, State()).Stuck?
      modifies this
      ensures r == Next ==> Step(prog, old(State())) == State()
      ensures r == Mismatch ==> Step(prog, old(State())) == Failing(states)
      ensures r == Matched ==> Step(prog, old(State())) == Matching(capture, states)
    {
      var opcode := prog.code[pc];
      if IsCharOp(opcode) || IsAssertOp(opcode) {
        r := ExecuteTest();
      } else if opcode == OP_MATCH {
        return Matched;
      } else if opcode == OP_SAVE_START || opcode == OP_SAVE_END || opcode == OP_SAVE_RESET {
        r := ExecuteCapture(opcode);
      } else if opcode == OP_PUSH_CHAR_POS {
        stack := stack + [cptr];
        pc := pc + 1;
        return Next;
      } else if opcode == OP_DROP {
        stack := stack[..|stack| - 1];
        pc := pc + 1;
        return Next;
      } else if opcode == OP_CHECK_ADVANCE {
        var top := stack[|stack| - 1];
        if top == cptr {
          return Mismatch;
        }
        stack := stack[..|stack| - 1];
        pc := pc + 1;
        return Next;
      } else if opcode == OP_SIMPLE_GREEDY_QUANT {
        r := ExecuteGreedy();
      } else {
        r := ExecuteOperand(opcode);
      }
    }

    method ExecuteTest() returns (r: Outcome)
      requires !Step(prog, State()).Stuck?
      requires IsCharOp(prog.code[pc]) || IsAssertOp(prog.code[pc])
      modifies this`pc, this`cptr
      ensures r == Next ==> Step(prog, old(State())) == State()
      ensures r == Mismatch ==> Step(prog, old(State())) == Failing(states)
      ensures r != Matched
    {
      var test := TestSubject(prog.code, pc, prog.inp, cptr);
      match test {
        case Go(pc1, cptr1) =>
          pc, cptr := pc1, cptr1;
          return Next;
        case Reject =>
          return Mismatch;
      }
    }

    method ExecuteCapture(opcode: Byte) returns (r: Outcome)
      requires !Step(prog, State()).Stuck? && opcode == prog.code[pc]
      requires opcode == OP_SAVE_START || opcode == OP_SAVE_END || opcode == OP_SAVE_RESET
      modifies this`pc, this`capture
      ensures r == Next && Step(prog, old(State())) == State()
    {
      var val: nat := prog.code[pc + 1];
      if opcode == OP_SAVE_RESET {
        ResetCaptures(val, prog.code[pc + 2]);
        pc := pc + 3;
      } else {
        capture := capture[2 * val + (opcode - OP_SAVE_START as int) := At(cptr)];
        pc := pc + 2;
      }
      return Next;
    }

    method ResetCaptures(first: nat, last: nat)
      requires 2 * last + 2 <= |capture|
      modifies this`capture
      ensures capture == if first <= last then ResetMarks(old(capture), first, last + 1) else old(capture)
    {
      var val := first;
      while val <= last
        invariant first <= val && (val <= last + 1 || val == first)
        invariant capture == if val > first then ResetMarks(old(capture), first, val) else old(capture)
        decreases last + 1 - val
      {
        capture := capture[2 * val := Null];
        capture := capture[2 * val + 1 := Null];
        assert capture == ResetMarks(old(capture), first, val + 1);
        val := val + 1;
      }
    }

    method ExecuteOperand(opcode: Byte) returns (r: Outcome)
      requires !Step(prog, State()).Stuck? && opcode == prog.code[pc]
      requires !IsCharOp(opcode) && !IsAssertOp(opcode) && opcode != OP_MATCH && opcode != OP_PUSH_CHAR_POS
      requires opcode != OP_SAVE_START && opcode != OP_SAVE_END && opcode != OP_SAVE_RESET
      requires opcode != OP_DROP && opcode != OP_CHECK_ADVANCE && opcode != OP_SIMPLE_GREEDY_QUANT
      modifies this
      ensures r == Next && Step(prog, old(State())) == State()
    {
      var val := GetU32(prog.code, pc + 1);
      pc := pc + 5;
      var target := pc + Signed(val);
      if opcode == OP_SPLIT_GOTO_FIRST {
        PushState(Split, pc, 0);
        pc := target;
      } else if opcode == OP_SPLIT_NEXT_FIRST {
        PushState(Split, target, 0);
      } else if opcode == OP_LOOKAHEAD {
        PushState(LookAhead, target, 0);
      } else if opcode == OP_NEGATIVE_LOOKAHEAD {
        PushState(NegativeLookAhead, target, 0);
      } else if opcode == OP_GOTO {
        pc := target;
      } else if opcode == OP_PUSH_I32 {
        stack := stack + [val];
      } else {
        var top := |stack| - 1;
        stack := stack[top := (stack[top] - 1) % U64];
        if stack[top] != 0 {
          pc := target;
        }
      }
      return Next;
    }

    method ExecuteGreedy() returns (r: Outcome)
      requires !Step(prog, State()).Stuck? && prog.code[pc] == OP_SIMPLE_GREEDY_QUANT
      modifies this
      ensures r == Next ==> Step(prog, old(State())) == State()
      ensures r == Mismatch ==> Step(prog, old(State())) == Failing(states)
      ensures r != Matched
    {
      StepFits(prog, State());
      RegexGreedy.GreedyDispatch(prog, State());
      var nextPos := Signed(GetU32(prog.code, pc + 1));
      var quantMin, quantMax := GetU32(prog.code, pc + 5), GetU32(prog.code, pc + 9);
      var pc1 := pc + 17;
      var scan := ScanAtom(prog.code, pc1, prog.inp, cptr, quantMax);
      match scan {
        case Counted(q, end) =>
          if q < quantMin {
            return Mismatch;
          }
          cptr := end;
          if q > quantMin {
            PushState(GreedyQuant, pc1 - 16, q - quantMin);
          }
          pc := pc1 + nextPos;
          return Next;
      }
    }

    /** What the attempt was when it ended. */
    ghost function Ended(ret: bool): State
      reads this
    {
      if ret then Matching(capture, states) else Failing(states)
    }

    /** Takes one entry off the backtrack stack: it is dropped, or the machine
        goes on from it. */
    method Pop(ret: bool) returns (ret1: bool, resumed: bool)
      requires states != [] && !Step(prog, Ended(ret)).Stuck?
      modifies this
      ensures Step(prog, old(Ended(ret))) == if resumed then State() else Ended(ret1)
    {
      var top := |states| - 1;
      var rs := states[top];
      match rs.kind {
        case Split =>
          states := states[..top];
          if !ret {
            capture := rs.caps;
            pc, cptr, stack := rs.pc, rs.cptr, rs.stack;
            return ret, true;
          }
          return ret, false;
        case GreedyQuant =>
          if !ret {
            capture := rs.caps;
            stack := rs.stack;
            pc, cptr := rs.pc, rs.cptr;
            var charCount := GetU32(prog.code, pc + 12);
            cptr := cptr - charCount;
            pc := pc + 16 + Signed(GetU32(prog.code, pc));
            if rs.count == 1 {
              states := states[..top];
            } else {
              states := states[..top] + [rs.(cptr := cptr, count := rs.count - 1)];
            }
            return ret, true;
          }
          states := states[..top];
          return ret, false;
        case LookAhead =>
          states := states[..top];
          if ret {
            pc, cptr, stack := rs.pc, rs.cptr, rs.stack;
            return true, true;
          }
          return false, false;
        case NegativeLookAhead =>
          states := states[..top];
          if !ret {
            capture := rs.caps;
            pc, cptr, stack := rs.pc, rs.cptr, rs.stack;
            return true, true;
          }
          return false, false;
      }
    }
  
    // -------------------------------------------------------------------
    // The loops
    // -------------------------------------------------------------------

    /** The inner loop: leaves a finished attempt. With `n` steps left to the
        final state `t`, it ends the run or goes on with fewer steps left. */
    method Unwind(ret0: bool, ghost t: State, ghost n: nat) returns (done: bool, ret: bool, ghost left: nat)
      requires t.Found? || t.NotFound?
      requires Runs.Path(Stepper(prog), GoodStates(prog), Ended(ret0), t, n)
      modifies this
      ensures done ==> t == if ret then RegexMachine.Found(capture) else NotFound
      ensures !done ==> left < n && Runs.Path(Stepper(prog), GoodStates(prog), State(), t, left)
    {
      ret, left := ret0, n;
      while true
        invariant left <= n && Runs.Path(Stepper(prog), GoodStates(prog), Ended(ret), t, left)
        decreases left
      {
        PathOn(prog, Ended(ret), t, left);
        if states == [] {
          PathEnds(prog, Step(prog, Ended(ret)), t, left - 1);
          return true, ret, left;
        }
        var resumed;
        ret, resumed := Pop(ret);
        left := left - 1;
        if resumed {
          return false, ret, left;
        }
      }
    }

    /** lre_exec_backtrack: the main loop. It follows the transition function for
        the `n` steps to the final state `t`. */
    method ExecBacktrack(ghost t: State, ghost n: nat) returns (ret: bool)
      requires t.Found? || t.NotFound?
      requires Runs.Path(Stepper(prog), GoodStates(prog), State(), t, n)
      modifies this
      ensures t == if ret then RegexMachine.Found(capture) else NotFound
    {
      ghost var left := n;
      while true
        invariant Runs.Path(Stepper(prog), GoodStates(prog), State(), t, left)
        decreases left
      {
        PathOn(prog, State(), t, left);
        var outcome := Execute();
        left := left - 1;
        if outcome != Next {
          var done;
          done, ret, left := Unwind(outcome == Matched, t, left);
          if done {
            return;
          }
        }
      }
    }
  }

  /** A run that is not over takes another good step. */
  lemma PathOn(prog: Program, s: State, t: State, n: nat)
    requires Runs.Path(Stepper(prog), GoodStates(prog), s, t, n)
    requires (t.Found? || t.NotFound?) && !s.Found? && !s.NotFound?
    ensures n > 0 && Runs.Path(Stepper(prog), GoodStates(prog), Step(prog, s), t, n - 1)
    ensures !Step(prog, s).Stuck?
  {
    assert Runs.Path(Stepper(prog), GoodStates(prog), Stepper(prog)(s), t, n - 1);
    assert GoodStates(prog)(Stepper(prog)(s));
  }

  lemma {:induction false} PathEnds(prog: Program, s: State, t: State, n: nat)
    requires Runs.Path(Stepper(prog), GoodStates(prog), s, t, n) && (s.Found? || s.NotFound?)
    ensures s == t
    decreases n
  {
    if n > 0 { PathEnds(prog, s, t, n - 1); }
  }

  // ---------------------------------------------------------------------
  // lre_exec
  // ---------------------------------------------------------------------

  /** lre_exec on the compiled form of `e`: it reports whether the pattern
      matches at or after `start`, and the captures of the first match. */
  method Exec(bc: seq<Byte>, inp: Input, start: nat, ghost e: Regex, ghost sticky: bool, ghost flags: nat)
    returns (ret: bool, capture: seq<Mark>)
    requires Compilable(e) && RegexCompiler.IsCompiled(bc, e, sticky, flags) && |bc| < 0x8000_0000
    requires start <= |inp.cbuf|
    ensures ret <==> Ways(e, sticky, inp, start) != []
    ensures ret ==> capture == Ways(e, sticky, inp, start)[0].caps
  {
    var prog := Program(bc[RegexCompiler.RE_HEADER_LEN..], inp, bc[2], bc[3]);
    assert prog == Linked(e, sticky, inp);
    ghost var t := Answer(Ways(e, sticky, inp, start));
    ExecutionCorrect(e, sticky, inp, start);
    ghost var n: nat :| Runs.Path(Stepper(prog), GoodStates(prog), Start(e, start), t, n);
    var ctx := new REExecContext(prog, start);
    ret := ctx.ExecBacktrack(t, n);
    capture := ctx.capture;
  }
}
