/** What the two scans of Sources/SubstrataQuickJS/libregexp.c over the code of an atom
    find, told on the pattern: exactly, in both directions. */
module RegexScans {
  import opened CharSets
  import opened Common
  import opened RegexSyntax
  import opened RegexCode
  import opened RegexShape
  import opened RegexAtoms
  import opened RegexCompiler

  /** Nothing in the pattern is tried twice, and no repetition runs as a simple loop. */
  predicate Linear(e: Regex) {
    match e
    case Group(r) => Linear(r)
    case Concat(r1, r2) => Linear(r1) && Linear(r2)
    case Alt(_, _) => false
    case Look(_, _) => false
    case Quant(r, min, max, greedy) =>
      max == 0 || (min == 1 && max == 1 && Linear(r) && !(greedy && Simple(r) && Width(r) > 0))
    case _ => true
  }

  lemma {:induction false} SimpleLinear(e: Regex)
    requires Simple(e)
    ensures Linear(e) && Groups(e) == 0
  {
    match e
    case Concat(r1, r2) =>
      SimpleLinear(r1);
      SimpleLinear(r2);
    case Quant(r, min, max, greedy) =>
      if max > 0 { SimpleLinear(r); }
    case _ =>
  }

  /** The code of a pattern has no other instructions than characters and assertions, or
      than those that need no advance check, if and only if the pattern is simple, or
      linear; and then it has as many characters as the pattern is wide. */
  lemma {:induction false} ScanMeaning(e: Regex, b: nat)
    requires Encodable(e, b)
    ensures OnlyLinear(Code(e, b)) <==> Linear(e)
    ensures OnlySimple(Code(e, b)) <==> Simple(e)
    ensures Linear(e) ==> CharCount(Code(e, b)) == Width(e)
    decreases e, 1
  {
    match e
    case Assert(kind) => Instruction(AssertCode(kind));
    case Group(r) =>
      CodeBalanced(r, b + 1);
      GroupScans(Code(r, b + 1), b);
      ScanMeaning(r, b + 1);
    case Concat(r1, r2) =>
      ConcatMeaning(e, b);
    case Quant(r, min, max, greedy) =>
      QuantMeaning(e, b);
    case Empty =>
    case Alt(r1, r2) =>
    case Look(r, negative) =>
    case _ =>
      SingleInstr(e, b);
      Instruction(Code(e, b));
  }

  lemma {:induction false} ConcatMeaning(e: Regex, b: nat)
    requires e.Concat? && Encodable(e, b)
    ensures OnlyLinear(Code(e, b)) <==> Linear(e)
    ensures OnlySimple(Code(e, b)) <==> Simple(e)
    ensures Linear(e) ==> CharCount(Code(e, b)) == Width(e)
    decreases e, 0
  {
    ConcatTold(e, b);
    CodeBalanced(e.first, b);
    ScanMeaning(e.first, b);
    ScanMeaning(e.second, b + Groups(e.first));
    Joined(Code(e.first, b), Code(e.second, b + Groups(e.first)));
  }

  lemma ConcatTold(e: Regex, b: nat)
    requires e.Concat? && Encodable(e, b)
    ensures Encodable(e.first, b) && Encodable(e.second, b + Groups(e.first))
    ensures Code(e, b) == Code(e.first, b) + Code(e.second, b + Groups(e.first))
    ensures Linear(e) == (Linear(e.first) && Linear(e.second)) && Simple(e) == (Simple(e.first) && Simple(e.second))
    ensures Width(e) == Width(e.first) + Width(e.second)
  {
  }

  lemma {:induction false} QuantMeaning(e: Regex, b: nat)
    requires e.Quant? && Encodable(e, b)
    ensures OnlyLinear(Code(e, b)) <==> Linear(e)
    ensures OnlySimple(Code(e, b)) <==> Simple(e)
    ensures Linear(e) ==> CharCount(Code(e, b)) == Width(e)
    decreases e, 0
  {
    var r, c, g := e.atom, Code(e.atom, b), Groups(e.atom);
    var s := QuantCode(c, b, g, e.min, e.max, e.greedy);
    ScanMeaning(r, b);
    CodeBalanced(r, b);
    if Simple(r) { SimpleLinear(r); }
    if OnlySimple(s) { SimpleIsLinear(s); }
    if OnlyLinear(s) {
      QuantLinear(c, b, g, e.min, e.max, e.greedy);
    }
    if e.max == 0 {
      NoCode(c, b, g, e.greedy);
    } else if e.min == 1 && e.max == 1 && !(e.greedy && Simple(r) && Width(r) > 0) {
      assert c + [] == c;
    }
  }

  lemma NoCode(c: seq<Byte>, b: Byte, g: nat, greedy: bool)
    requires b + g <= 256
    ensures var s := QuantCode(c, b, g, 0, 0, greedy);
      s == ResetCode(b, g) && OnlyLinear(s) && CharCount(s) == 0 && (OnlySimple(s) <==> g == 0)
  {
    if g > 0 { Instruction(ResetCode(b, g)); }
    assert ResetCode(b, g) + [] == ResetCode(b, g);
  }

  /** The two scans, on the code of any pattern. */
  method Scans(e: Regex, b: nat) returns (check: bool, width: int)
    requires Encodable(e, b)
    ensures check <==> !(Linear(e) && Width(e) > 0)
    ensures width == if Simple(e) then Width(e) else -1
  {
    ScanMeaning(e, b);
    if Simple(e) { SimpleLinear(e); }
    check := NeedCheckAdvance(Code(e, b));
    width := IsSimpleQuantifier(Code(e, b));
  }

  /** The lists of opcodes, by their numbers in include/libregexp-opcode.h. */
  lemma Opcodes(op: Byte)
    ensures IsCharOp(op) <==> op in {1, 2, 3, 4, 5, 22, 23}
    ensures IsAssertOp(op) <==> op in {6, 7, 18, 19}
    ensures IsLinearOp(op) <==> op in {1, 2, 3, 4, 5, 22, 23, 6, 7, 18, 19, 16, 26, 17, 28, 12, 13, 14, 20, 21}
  {
  }
}
