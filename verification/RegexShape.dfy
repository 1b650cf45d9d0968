/** What the linear scans of Sources/SubstrataQuickJS/libregexp.c find in the
    code of a pattern. */
module RegexShape {
  import opened CharSets
  import opened Common
  import opened RegexSyntax
  import opened RegexCode

  /** Whole instructions that leave the value stack as long as it was. */
  predicate Balanced(s: seq<Byte>) {
    Whole(s) && Net(s) == 0
  }

  lemma BalancedJoin(s: seq<Byte>, t: seq<Byte>)
    requires Balanced(s) && Balanced(t)
    ensures Balanced(s + t)
  {
    Joined(s, t);
  }

  /** Code between an instruction that pushes and one that pops. */
  lemma Bracketed(push: seq<Byte>, c: seq<Byte>, pop: seq<Byte>)
    requires push != [] && InstrSize(push) == |push| && Delta(push[0]) == 1
    requires pop != [] && InstrSize(pop) == |pop| && Delta(pop[0]) == -1
    requires Balanced(c)
    ensures Balanced(push + c + pop)
  {
    Instruction(push);
    Instruction(pop);
    Joined(push, c);
    Joined(push + c, pop);
  }

  lemma Reassociate(a: seq<Byte>, b: seq<Byte>, c: seq<Byte>, d: seq<Byte>)
    ensures a + (b + c) + d == a + b + c + d
  {
  }

  lemma BalancedOp(s: seq<Byte>)
    requires s != [] && InstrSize(s) == |s| && Delta(s[0]) == 0
    ensures Balanced(s)
  {
    Instruction(s);
  }

  lemma RangeInstr(pt: seq<U32>)
    requires Canonical(pt) && |pt| / 2 < 65535
    ensures InstrSize(RangeCode(pt)) == |RangeCode(pt)|
    ensures IsCharOp(RangeCode(pt)[0])
  {
    var s := RangeCode(pt);
    if pt != [] {
      var n := |pt| / 2;
      Stands(s, 1, U16(n));
      GetU16Bytes(s, 1, n);
    }
  }

  lemma SingleInstr(e: Regex, b: nat)
    requires Encodable(e, b) && IsSingle(e)
    ensures Code(e, b) != [] && InstrSize(Code(e, b)) == |Code(e, b)| && IsCharOp(Code(e, b)[0])
  {
    if e.Class? {
      RangeInstr(e.points);
    }
  }

  lemma GuardedBalanced(c: seq<Byte>, check: bool)
    requires Balanced(c)
    ensures Balanced(Guarded(c, check))
  {
    Bracketed([OP_PUSH_CHAR_POS], c, [OP_CHECK_ADVANCE]);
  }

  lemma OnceBalanced(a: seq<Byte>, greedy: bool)
    requires Balanced(a)
    ensures Balanced(OnceCode(a, greedy))
  {
    BalancedOp(Op5(SplitOp(greedy), |a|));
    BalancedJoin(Op5(SplitOp(greedy), |a|), a);
  }

  lemma StarBalanced(a: seq<Byte>, greedy: bool)
    requires Balanced(a)
    ensures Balanced(StarCode(a, greedy))
  {
    var split, goto := Op5(SplitOp(greedy), |a| + 5), Op5(OP_GOTO, -(|a| + 10));
    BalancedOp(split);
    BalancedOp(goto);
    BalancedJoin(split, a);
    BalancedJoin(split + a, goto);
  }

  lemma CountedBalanced(a: seq<Byte>, k: nat, greedy: bool)
    requires Balanced(a)
    ensures Balanced(CountedCode(a, k, greedy))
  {
    var split, loop := Op5(SplitOp(greedy), |a| + 5), Op5(OP_LOOP, -(|a| + 10));
    BalancedOp(split);
    BalancedOp(loop);
    BalancedJoin(split, a);
    BalancedJoin(split + a, loop);
    Bracketed(Op5(OP_PUSH_I32, k), split + a + loop, [OP_DROP]);
    Reassociate(Op5(OP_PUSH_I32, k), split + a, loop, [OP_DROP]);
    Reassociate(Op5(OP_PUSH_I32, k), split, a, loop);
  }

  lemma MandatoryBalanced(c: seq<Byte>, min: nat)
    requires Balanced(c)
    ensures Balanced(MandatoryCode(c, min))
  {
    var loop := Op5(OP_LOOP, -(|c| + 5));
    BalancedOp(loop);
    BalancedJoin(c, loop);
    Bracketed(Op5(OP_PUSH_I32, min), c + loop, [OP_DROP]);
    Reassociate(Op5(OP_PUSH_I32, min), c, loop, [OP_DROP]);
  }

  lemma SimpleLoopBalanced(c: seq<Byte>, min: nat, max: nat, width: nat)
    requires Balanced(c)
    ensures Balanced(SimpleLoopCode(c, min, max, width))
  {
    var op := [OP_SIMPLE_GREEDY_QUANT] + U32Bytes(|c| + 1) + U32Bytes(min) + U32Bytes(max) + U32Bytes(width);
    BalancedOp(op);
    BalancedOp([OP_MATCH]);
    BalancedJoin(op, c);
    BalancedJoin(op + c, [OP_MATCH]);
  }

  lemma FurtherBalanced(a: seq<Byte>, n: nat, greedy: bool)
    requires Balanced(a)
    ensures Balanced(FurtherCode(a, n, greedy))
  {
    if n == INFINITY { StarBalanced(a, greedy); } else { CountedBalanced(a, n, greedy); }
  }

  lemma QuantBalanced(c: seq<Byte>, b: Byte, g: nat, min: nat, max: nat, greedy: bool)
    requires Balanced(c) && min <= max && b + g <= 256
    ensures Balanced(QuantCode(c, b, g, min, max, greedy))
  {
    var a := Guarded(c, NeedCheck(c));
    GuardedBalanced(c, NeedCheck(c));
    if UsesSimpleLoop(c, max, greedy) {
      SimpleLoopBalanced(c, min, max, CharCount(c));
    } else if min == 0 {
      if g > 0 {
        BalancedOp(ResetCode(b, g));
      }
      if max == 1 { OnceBalanced(a, greedy); } else { FurtherBalanced(a, max, greedy); }
      BalancedJoin(ResetCode(b, g), OptionalCode(a, max, greedy));
    } else if UsesPlus(c, min, max) {
      BalancedOp(Op5(SplitOp(!greedy), -(|c| + 5)));
      BalancedJoin(c, Op5(SplitOp(!greedy), -(|c| + 5)));
    } else {
      MandatoryBalanced(c, min);
      FurtherBalanced(a, Further(min, max), greedy);
      BalancedJoin(MandatoryCode(c, min), FurtherCode(a, Further(min, max), greedy));
    }
  }

  lemma AssertBalanced(kind: Assertion)
    ensures Balanced(AssertCode(kind))
  {
    BalancedOp(AssertCode(kind));
  }

  lemma GroupBalanced(c: seq<Byte>, b: Byte)
    requires Balanced(c)
    ensures Balanced(GroupCode(c, b))
  {
    BalancedOp([OP_SAVE_START, b]);
    BalancedOp([OP_SAVE_END, b]);
    BalancedJoin([OP_SAVE_START, b], c);
    BalancedJoin([OP_SAVE_START, b] + c, [OP_SAVE_END, b]);
  }

  lemma AltBalanced(c1: seq<Byte>, c2: seq<Byte>)
    requires Balanced(c1) && Balanced(c2)
    ensures Balanced(AltCode(c1, c2))
  {
    var split, goto := Op5(OP_SPLIT_NEXT_FIRST, |c1| + 5), Op5(OP_GOTO, |c2|);
    BalancedOp(split);
    BalancedOp(goto);
    BalancedJoin(split, c1);
    BalancedJoin(split + c1, goto);
    BalancedJoin(split + c1 + goto, c2);
  }

  lemma LookBalanced(c: seq<Byte>, negative: bool)
    requires Balanced(c)
    ensures Balanced(LookCode(c, negative))
  {
    var look := Op5(if negative then OP_NEGATIVE_LOOKAHEAD else OP_LOOKAHEAD, |c| + 1);
    BalancedOp(look);
    BalancedOp([OP_MATCH]);
    BalancedJoin(look, c);
    BalancedJoin(look + c, [OP_MATCH]);
  }

  lemma SingleBalanced(e: Regex, b: nat)
    requires Encodable(e, b) && IsSingle(e)
    ensures Balanced(Code(e, b))
  {
    SingleInstr(e, b);
    BalancedOp(Code(e, b));
  }

  /** The code of a pattern is balanced: control flow is nested, which is why
      one linear scan computes every stack depth. */
  lemma {:induction false} CodeBalanced(e: Regex, b: nat)
    requires Encodable(e, b)
    ensures Balanced(Code(e, b))
    decreases e, 1
  {
    match e
    case Empty =>
    case Assert(kind) => AssertBalanced(kind);
    case Group(r) =>
      CodeBalanced(r, b + 1);
      GroupBalanced(Code(r, b + 1), b);
    case Concat(r1, r2) => ConcatBalanced(e, b);
    case Alt(r1, r2) => AlternativeBalanced(e, b);
    case Quant(r, min, max, greedy) =>
      CodeBalanced(r, b);
      QuantBalanced(Code(r, b), b, Groups(r), min, max, greedy);
    case Look(r, negative) =>
      CodeBalanced(r, b);
      LookBalanced(Code(r, b), negative);
    case _ => SingleBalanced(e, b);
  }

  lemma {:induction false} ConcatBalanced(e: Regex, b: nat)
    requires e.Concat? && Encodable(e, b)
    ensures Balanced(Code(e, b))
    decreases e, 0
  {
    CodeBalanced(e.first, b);
    CodeBalanced(e.second, b + Groups(e.first));
    JoinIsBalanced(Code(e.first, b), Code(e.second, b + Groups(e.first)), Code(e, b));
  }

  lemma JoinIsBalanced(c1: seq<Byte>, c2: seq<Byte>, c: seq<Byte>)
    requires Balanced(c1) && Balanced(c2) && c == c1 + c2
    ensures Balanced(c)
  {
    BalancedJoin(c1, c2);
  }

  lemma {:induction false} AlternativeBalanced(e: Regex, b: nat)
    requires e.Alt? && Encodable(e, b)
    ensures Balanced(Code(e, b))
    decreases e, 0
  {
    CodeBalanced(e.left, b);
    CodeBalanced(e.right, b + Groups(e.left));
    AltIsBalanced(Code(e.left, b), Code(e.right, b + Groups(e.left)), Code(e, b));
  }

  lemma AltIsBalanced(c1: seq<Byte>, c2: seq<Byte>, c: seq<Byte>)
    requires Balanced(c1) && Balanced(c2) && c == AltCode(c1, c2)
    ensures Balanced(c)
  {
    AltBalanced(c1, c2);
  }
}
