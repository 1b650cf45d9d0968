/** What the two scans over an atom in Sources/SubstrataQuickJS/libregexp.c
    guarantee about its matches, and what the inner run of a simple atom does. */
module RegexAtoms {
  import opened CharSets
  import opened Common
  import opened RegexSyntax
  import opened RegexCode
  import opened RegexMachine
  import opened RegexShape
  import opened RegexRanges

  // ---------------------------------------------------------------------
  // Atoms of known width
  // ---------------------------------------------------------------------

  lemma StarNotLinear(a: seq<Byte>, greedy: bool)
    ensures !OnlyLinear(StarCode(a, greedy)) && !OnlyLinear(OnceCode(a, greedy))
  {
    assert StarCode(a, greedy)[0] == SplitOp(greedy);
    assert OnceCode(a, greedy)[0] == SplitOp(greedy);
  }

  lemma CountedNotLinear(a: seq<Byte>, n: nat, greedy: bool)
    requires Balanced(a)
    ensures !OnlyLinear(CountedCode(a, n, greedy))
  {
    var push, split, loop := Op5(OP_PUSH_I32, n), Op5(SplitOp(greedy), |a| + 5), Op5(OP_LOOP, -(|a| + 10));
    Instruction(push);
    Instruction(split);
    Instruction(loop);
    Joined(push, split);
    Joined(push + split, a);
    Joined(push + split + a, loop);
    Joined(push + split + a + loop, [OP_DROP]);
  }

  lemma MandatoryNotLinear(c: seq<Byte>, min: nat)
    requires Balanced(c) && min != 1
    ensures !OnlyLinear(MandatoryCode(c, min))
  {
    var push, loop := Op5(OP_PUSH_I32, min), Op5(OP_LOOP, -(|c| + 5));
    Instruction(push);
    Instruction(loop);
    Joined(push, c);
    Joined(push + c, loop);
    Joined(push + c + loop, [OP_DROP]);
  }

  lemma PlusNotLinear(c: seq<Byte>, greedy: bool)
    requires Balanced(c)
    ensures !OnlyLinear(PlusCode(c, greedy))
  {
    var split := Op5(SplitOp(!greedy), -(|c| + 5));
    Joined(c, split);
    assert split[0] == SplitOp(!greedy);
  }

  lemma SimpleLoopNotLinear(c: seq<Byte>, min: nat, max: nat, width: nat)
    ensures !OnlyLinear(SimpleLoopCode(c, min, max, width))
  {
    assert SimpleLoopCode(c, min, max, width)[0] == OP_SIMPLE_GREEDY_QUANT;
  }

  lemma GroupScans(c: seq<Byte>, b: Byte)
    requires Balanced(c)
    ensures OnlyLinear(GroupCode(c, b)) == OnlyLinear(c) && !OnlySimple(GroupCode(c, b))
    ensures CharCount(GroupCode(c, b)) == CharCount(c)
  {
    Instruction([OP_SAVE_START, b]);
    Instruction([OP_SAVE_END, b]);
    Joined([OP_SAVE_START, b], c);
    Joined([OP_SAVE_START, b] + c, [OP_SAVE_END, b]);
  }

  lemma FurtherLinear(a: seq<Byte>, n: nat, greedy: bool)
    requires Balanced(a) && OnlyLinear(FurtherCode(a, n, greedy))
    ensures n == 0
  {
    StarNotLinear(a, greedy);
    CountedNotLinear(a, n, greedy);
  }

  /** Straight code of a quantifier: no repetition, or exactly one. */
  lemma QuantLinear(c: seq<Byte>, b: Byte, g: nat, min: nat, max: nat, greedy: bool)
    requires Balanced(c) && min <= max <= INFINITY && b + g <= 256
    requires OnlyLinear(QuantCode(c, b, g, min, max, greedy))
    ensures !UsesSimpleLoop(c, max, greedy)
    ensures (max == 0 && QuantCode(c, b, g, min, max, greedy) == ResetCode(b, g))
         || (min == 1 && max == 1 && QuantCode(c, b, g, min, max, greedy) == c)
  {
    var a := Guarded(c, NeedCheck(c));
    GuardedBalanced(c, NeedCheck(c));
    if UsesSimpleLoop(c, max, greedy) {
      SimpleLoopNotLinear(c, min, max, CharCount(c));
    } else if min == 0 {
      QuantLinearOptional(a, b, g, max, greedy);
    } else if UsesPlus(c, min, max) {
      PlusNotLinear(c, greedy);
    } else {
      MandatoryBalanced(c, min);
      Joined(MandatoryCode(c, min), FurtherCode(a, Further(min, max), greedy));
      FurtherLinear(a, Further(min, max), greedy);
      if min != 1 { MandatoryNotLinear(c, min); }
      assert c + [] == c;
    }
  }

  lemma QuantLinearOptional(a: seq<Byte>, b: Byte, g: nat, max: nat, greedy: bool)
    requires Balanced(a) && b + g <= 256
    requires OnlyLinear(ResetCode(b, g) + OptionalCode(a, max, greedy))
    ensures max == 0
    ensures ResetCode(b, g) + OptionalCode(a, max, greedy) == ResetCode(b, g)
  {
    if g > 0 { Instruction(ResetCode(b, g)); }
    Joined(ResetCode(b, g), OptionalCode(a, max, greedy));
    StarNotLinear(a, greedy);
    if max != 1 { FurtherLinear(a, max, greedy); }
  }

  /** Repeating exactly once changes nothing. */
  lemma {:induction false} RepeatOnce(inp: Input, f: Config -> seq<Config>, greedy: bool, x: Config)
    ensures Repeat(inp, f, 1, 1, greedy, x) == f(x)
  {
    RepeatOnceAll(inp, f, greedy, f(x), x);
  }

  lemma {:induction false} RepeatOnceAll(inp: Input, f: Config -> seq<Config>, greedy: bool, ys: seq<Config>, x: Config)
    ensures RepeatAll(inp, f, 1, 1, greedy, ys, x) == ys
    decreases |ys|
  {
    if ys != [] {
      RepeatOnceAll(inp, f, greedy, ys[1..], x);
      assert Repeat(inp, f, 0, 0, greedy, ys[0]) == [ys[0]];
      assert [ys[0]] + ys[1..] == ys;
    }
  }

  /** Patterns whose code is straight: nothing in them is tried twice. */
  predicate Straight(e: Regex) {
    match e
    case Group(r) => Straight(r)
    case Concat(r1, r2) => Straight(r1) && Straight(r2)
    case Alt(_, _) => false
    case Look(_, _) => false
    case Quant(r, min, max, _) => max == 0 || (min == 1 && max == 1 && Straight(r))
    case _ => true
  }

  function Width(e: Regex): nat {
    match e
    case Group(r) => Width(r)
    case Concat(r1, r2) => Width(r1) + Width(r2)
    case Quant(r, _, max, _) => if max == 0 then 0 else Width(r)
    case _ => if IsSingle(e) then 1 else 0
  }

  lemma QuantScans(c: seq<Byte>, b: Byte, g: nat, min: nat, max: nat, greedy: bool)
    requires Balanced(c) && min <= max <= INFINITY && b + g <= 256
    ensures OnlyLinear(QuantCode(c, b, g, min, max, greedy)) ==>
      || (max == 0 && CharCount(QuantCode(c, b, g, min, max, greedy)) == 0)
      || (min == 1 && max == 1 && QuantCode(c, b, g, min, max, greedy) == c)
  {
    if OnlyLinear(QuantCode(c, b, g, min, max, greedy)) {
      QuantLinear(c, b, g, min, max, greedy);
      if g > 0 { Instruction(ResetCode(b, g)); }
    }
  }

  lemma ConcatParts(c1: seq<Byte>, c2: seq<Byte>, s: seq<Byte>)
    requires Balanced(c1) && s == c1 + c2
    ensures OnlyLinear(s) == (OnlyLinear(c1) && OnlyLinear(c2))
    ensures OnlySimple(s) == (OnlySimple(c1) && OnlySimple(c2))
    ensures CharCount(s) == CharCount(c1) + CharCount(c2)
  {
    Joined(c1, c2);
  }

  lemma {:induction false} LinearConcat(e: Regex, b: nat)
    requires e.Concat? && Encodable(e, b) && OnlyLinear(Code(e, b))
    ensures Straight(e) && CharCount(Code(e, b)) == Width(e)
    decreases e, 0
  {
    CodeBalanced(e.first, b);
    ConcatParts(Code(e.first, b), Code(e.second, b + Groups(e.first)), Code(e, b));
    LinearIsStraight(e.first, b);
    LinearIsStraight(e.second, b + Groups(e.first));
  }

  lemma {:induction false} LinearIsStraight(e: Regex, b: nat)
    requires Encodable(e, b) && OnlyLinear(Code(e, b))
    ensures Straight(e) && CharCount(Code(e, b)) == Width(e)
    decreases e, 1
  {
    match e
    case Empty =>
    case Assert(kind) => Instruction(AssertCode(kind));
    case Group(r) =>
      CodeBalanced(r, b + 1);
      GroupScans(Code(r, b + 1), b);
      LinearIsStraight(r, b + 1);
    case Concat(r1, r2) => LinearConcat(e, b);
    case Alt(r1, r2) =>
    case Quant(r, min, max, greedy) =>
      CodeBalanced(r, b);
      QuantScans(Code(r, b), b, Groups(r), min, max, greedy);
      if max > 0 { LinearIsStraight(r, b); }
    case Look(r, negative) =>
    case _ =>
      SingleInstr(e, b);
      Instruction(Code(e, b));
  }

  predicate AllAt(ys: seq<Config>, pos: nat) {
    forall i :: 0 <= i < |ys| ==> ys[i].pos == pos
  }

  /** Every match of `f` is `w` characters wide. */
  ghost predicate Wide(f: Config -> seq<Config>, w: nat) {
    forall x: Config {:trigger f(x)} :: AllAt(f(x), x.pos + w)
  }

  lemma {:induction false} FlatMapWide(ys: seq<Config>, g: Config -> seq<Config>, pos: nat, w: nat)
    requires AllAt(ys, pos) && Wide(g, w)
    ensures AllAt(FlatMap(ys, g), pos + w)
    decreases |ys|
  {
    if ys != [] {
      FlatMapWide(ys[1..], g, pos, w);
      assert AllAt(g(ys[0]), pos + w);
    }
  }

  /** All matches of a straight pattern have the same width. */
  lemma {:induction false} StraightWidth(inp: Input, e: Regex, b: nat, x: Config)
    requires Straight(e)
    ensures AllAt(Match(inp, e, b, x), x.pos + Width(e))
    decreases e, 0
  {
    if e.Group? {
      StraightWidth(inp, e.body, b + 1, SetMark(x, 2 * b));
      FlatMapWide(Match(inp, e.body, b + 1, SetMark(x, 2 * b)), Marker(2 * b + 1), x.pos + Width(e.body), 0);
    } else if e.Concat? {
      StraightWidth(inp, e.first, b, x);
      MatcherWide(inp, e.second, b + Groups(e.first));
      FlatMapWide(Match(inp, e.first, b, x), Matcher(inp, e.second, b + Groups(e.first)),
                  x.pos + Width(e.first), Width(e.second));
    } else if e.Quant? && e.max > 0 {
      RepeatOnce(inp, Matcher(inp, e.atom, b), e.greedy, x);
      StraightWidth(inp, e.atom, b, x);
    }
  }

  lemma {:induction false} MatcherWide(inp: Input, e: Regex, b: nat)
    requires Straight(e)
    ensures Wide(Matcher(inp, e, b), Width(e))
    decreases e, 1
  {
    forall x: Config ensures AllAt(Matcher(inp, e, b)(x), x.pos + Width(e)) {
      StraightWidth(inp, e, b, x);
    }
  }

  /** Leaving out the advance check is harmless: without it every match of the
      atom moves on. */
  lemma AdvanceUnneeded(inp: Input, e: Regex, b: nat, x: Config)
    requires Encodable(e, b) && !NeedCheck(Code(e, b))
    requires x.pos <= |inp.cbuf|
    ensures forall i :: 0 <= i < |Match(inp, e, b, x)| ==> Advanced(inp, x, Match(inp, e, b, x)[i])
  {
    LinearIsStraight(e, b);
    StraightWidth(inp, e, b, x);
    MatchFollows(inp, e, b, x);
  }

  // ---------------------------------------------------------------------
  // Simple atoms
  // ---------------------------------------------------------------------

  /** Patterns whose code is made of character and assertion instructions. */
  predicate Simple(e: Regex) {
    match e
    case Group(_) => false
    case Concat(r1, r2) => Simple(r1) && Simple(r2)
    case Alt(_, _) => false
    case Look(_, _) => false
    case Quant(r, min, max, greedy) =>
      (max == 0 && Groups(r) == 0) || (min == 1 && max == 1 && Simple(r) && (!greedy || Width(r) == 0))
    case _ => true
  }

  lemma {:induction false} SimpleIsLinear(s: seq<Byte>)
    requires OnlySimple(s)
    ensures OnlyLinear(s)
    decreases |s|
  {
    if s != [] { SimpleIsLinear(Rest(s)); }
  }

  lemma {:induction false} SimpleConcat(e: Regex, b: nat)
    requires e.Concat? && Encodable(e, b) && OnlySimple(Code(e, b))
    ensures Simple(e) && Groups(e) == 0
    decreases e, 0
  {
    ConcatSimple(e, b);
    SimpleIsSimple(e.first, b);
    SimpleIsSimple(e.second, b + Groups(e.first));
  }

  lemma ConcatSimple(e: Regex, b: nat)
    requires e.Concat? && Encodable(e, b) && OnlySimple(Code(e, b))
    ensures Encodable(e.first, b) && Encodable(e.second, b + Groups(e.first))
    ensures OnlySimple(Code(e.first, b)) && OnlySimple(Code(e.second, b + Groups(e.first)))
  {
    CodeBalanced(e.first, b);
    ConcatParts(Code(e.first, b), Code(e.second, b + Groups(e.first)), Code(e, b));
  }

  lemma {:induction false} SimpleQuant(e: Regex, b: nat)
    requires e.Quant? && Encodable(e, b) && OnlySimple(Code(e, b))
    ensures Simple(e) && Groups(e) == 0
    decreases e, 0
  {
    var c, g := Code(e.atom, b), Groups(e.atom);
    CodeBalanced(e.atom, b);
    SimpleIsLinear(QuantCode(c, b, g, e.min, e.max, e.greedy));
    QuantLinear(c, b, g, e.min, e.max, e.greedy);
    if e.max > 0 {
      SimpleIsSimple(e.atom, b);
      SimpleIsLinear(c);
      LinearIsStraight(e.atom, b);
    }
  }

  lemma {:induction false} SimpleIsSimple(e: Regex, b: nat)
    requires Encodable(e, b) && OnlySimple(Code(e, b))
    ensures Simple(e) && Groups(e) == 0
    decreases e, 1
  {
    match e
    case Concat(r1, r2) => SimpleConcat(e, b);
    case Quant(r, min, max, greedy) => SimpleQuant(e, b);
    case _ =>
  }

  /** A simple quantifier has no code, or that of its atom. */
  lemma SimpleQuantCode(e: Regex, b: nat)
    requires e.Quant? && Simple(e) && Encodable(e, b)
    ensures Code(e, b) == if e.max == 0 then [] else Code(e.atom, b)
  {
    var c := Code(e.atom, b);
    if UsesSimpleLoop(c, e.max, e.greedy) {
      SimpleIsLinear(c);
      LinearIsStraight(e.atom, b);
    }
    assert c + [] == c;
  }

  /** Does a simple pattern match at `pos`? */
  predicate MatchesAt(inp: Input, e: Regex, pos: nat)
    requires Simple(e) && pos <= |inp.cbuf|
    ensures MatchesAt(inp, e, pos) ==> pos + Width(e) <= |inp.cbuf|
  {
    if IsSingle(e) then pos < |inp.cbuf| && Accepts(e, inp.cbuf[pos]) else
      match e
      case Assert(kind) => Holds(kind, inp, pos)
      case Concat(r1, r2) => MatchesAt(inp, r1, pos) && MatchesAt(inp, r2, pos + Width(r1))
      case Quant(r, _, max, _) => max == 0 || MatchesAt(inp, r, pos)
      case _ => true
  }

  /** A simple pattern matches in at most one way and marks nothing. */
  lemma {:induction false} SimpleMatch(inp: Input, e: Regex, b: nat, x: Config)
    requires Simple(e) && x.pos <= |inp.cbuf|
    ensures Match(inp, e, b, x) == if MatchesAt(inp, e, x.pos) then [x.(pos := x.pos + Width(e))] else []
    decreases e
  {
    if e.Concat? {
      SimpleMatch(inp, e.first, b, x);
      if MatchesAt(inp, e.first, x.pos) {
        var y := x.(pos := x.pos + Width(e.first));
        SimpleMatch(inp, e.second, b + Groups(e.first), y);
        FlatMapOne(y, Matcher(inp, e.second, b + Groups(e.first)));
      }
    } else if e.Quant? {
      if e.max > 0 {
        RepeatOnce(inp, Matcher(inp, e.atom, b), e.greedy, x);
        SimpleMatch(inp, e.atom, b, x);
      } else {
        assert ResetMarks(x.caps, b, b) == x.caps;
      }
    }
  }

  lemma FlatMapOne(y: Config, g: Config -> seq<Config>)
    ensures FlatMap([y], g) == g(y)
  {
    assert [y][1..] == [];
    assert FlatMap<Config, Config>([], g) == [];
  }

  // ---------------------------------------------------------------------
  // Instructions that test the subject
  // ---------------------------------------------------------------------

  lemma CharInstruction(bc: seq<Byte>, p: nat, c: nat, inp: Input, cptr: nat)
    requires c <= 0x10FFFF && StandsAt(bc, p, CharCode(c)) && cptr < |inp.cbuf|
    ensures SimpleStep(bc, p, inp, cptr) == Test(inp.cbuf[cptr] == c, p + |CharCode(c)|, cptr + 1)
  {
    var s := CharCode(c);
    ByteOf(bc, p, s, 0);
    if c <= 0x7F {
      ByteOf(bc, p, s, 1);
    } else if c <= 0xFFFF {
      Parts(bc, p, [OP_CHAR16], U16(c));
      GetU16Bytes(bc, p + 1, c);
    } else {
      Parts(bc, p, [OP_CHAR32], U32Bytes(c));
      GetU32Bytes(bc, p + 1, c);
    }
  }

  lemma OneByte(bc: seq<Byte>, p: nat, op: Byte)
    requires StandsAt(bc, p, [op])
    ensures p < |bc| && bc[p] == op
  {
    ByteOf(bc, p, [op], 0);
  }

  lemma FirstByte(bc: seq<Byte>, p: nat, s: seq<Byte>)
    requires StandsAt(bc, p, s) && s != []
    ensures p < |bc| && bc[p] == s[0]
  {
    ByteOf(bc, p, s, 0);
  }

  /** The instruction of a single-character pattern does what the pattern says. */
  lemma SingleStep(bc: seq<Byte>, p: nat, e: Regex, b: nat, inp: Input, cptr: nat)
    requires IsSingle(e) && Encodable(e, b) && StandsAt(bc, p, Code(e, b))
    ensures p < |bc| && IsCharOp(bc[p])
    ensures SimpleStep(bc, p, inp, cptr)
         == Test(cptr < |inp.cbuf| && Accepts(e, inp.cbuf[cptr]), p + |Code(e, b)|, cptr + 1)
  {
    SingleInstr(e, b);
    FirstByte(bc, p, Code(e, b));
    if cptr < |inp.cbuf| {
      match e
      case Char(c) => CharInstruction(bc, p, c, inp, cptr);
      case Class(points) => RangeInstruction(bc, p, points, inp, cptr);
      case _ =>
    } else {
      PastEnd(bc, p, Code(e, b), inp, cptr);
    }
  }

  lemma PastEnd(bc: seq<Byte>, p: nat, s: seq<Byte>, inp: Input, cptr: nat)
    requires s != [] && StandsAt(bc, p, s) && InstrSize(s) == |s| && IsCharOp(s[0]) && cptr >= |inp.cbuf|
    ensures SimpleStep(bc, p, inp, cptr) == Reject
  {
    FirstByte(bc, p, s);
  }

  lemma AssertInstruction(bc: seq<Byte>, p: nat, kind: Assertion, inp: Input, cptr: nat)
    requires StandsAt(bc, p, AssertCode(kind)) && cptr <= |inp.cbuf|
    ensures p < |bc| && IsAssertOp(bc[p]) && |AssertCode(kind)| == 1
    ensures SimpleStep(bc, p, inp, cptr) == Test(Holds(kind, inp, cptr), p + 1, cptr)
  {
    FirstByte(bc, p, AssertCode(kind));
  }

  // ---------------------------------------------------------------------
  // The inner run
  // ---------------------------------------------------------------------

  /** `run` follows the instructions of simple atoms. */
  ghost predicate FollowsCode(run: (nat, nat) -> Inner, bc: seq<Byte>, inp: Input) {
    forall p: nat, cptr: nat {:trigger SimpleStep(bc, p, inp, cptr)} :: p < |bc| && (IsCharOp(bc[p]) || IsAssertOp(bc[p])) ==>
      match SimpleStep(bc, p, inp, cptr)
      case Go(p1, cptr1) => p1 > p ==> run(p, cptr) == run(p1, cptr1)
      case Reject => run(p, cptr) == NoMatch
      case Broken => true
  }

  /** `code` gives the code of patterns; proofs about patterns use it, and look
      at the definition of `Code` one constructor at a time. */
  ghost predicate IsCoder(code: (Regex, nat) -> seq<Byte>) {
    forall e, b: nat {:trigger Code(e, b)} :: Encodable(e, b) ==> code(e, b) == Code(e, b)
  }

  lemma ConcatStands(code: (Regex, nat) -> seq<Byte>, bc: seq<Byte>, p: nat, e: Regex, b: nat)
    requires IsCoder(code) && e.Concat? && Encodable(e, b) && StandsAt(bc, p, code(e, b))
    ensures Encodable(e.first, b) && Encodable(e.second, b + Groups(e.first))
    ensures StandsAt(bc, p, code(e.first, b))
    ensures StandsAt(bc, p + |code(e.first, b)|, code(e.second, b + Groups(e.first)))
    ensures |code(e, b)| == |code(e.first, b)| + |code(e.second, b + Groups(e.first))|
  {
    assert code(e, b) == Code(e, b);
    Parts(bc, p, Code(e.first, b), Code(e.second, b + Groups(e.first)));
  }

  lemma EmptyStands(code: (Regex, nat) -> seq<Byte>, e: Regex, b: nat)
    requires IsCoder(code) && e.Empty? && Encodable(e, b)
    ensures code(e, b) == []
  {
    assert code(e, b) == Code(e, b);
  }

  lemma SimpleLeaf(code: (Regex, nat) -> seq<Byte>, bc: seq<Byte>, p: nat, inp: Input, e: Regex, b: nat, pos: nat)
    requires IsCoder(code) && Encodable(e, b) && StandsAt(bc, p, code(e, b)) && IsSingle(e)
    requires pos <= |inp.cbuf|
    ensures p < |bc| && IsCharOp(bc[p]) && code(e, b) != []
    ensures SimpleStep(bc, p, inp, pos)
         == Test(pos < |inp.cbuf| && Accepts(e, inp.cbuf[pos]), p + |code(e, b)|, pos + 1)
  {
    assert code(e, b) == Code(e, b);
    SingleStep(bc, p, e, b, inp, pos);
  }

  lemma AssertLeaf(code: (Regex, nat) -> seq<Byte>, bc: seq<Byte>, p: nat, inp: Input, e: Regex, b: nat, pos: nat)
    requires IsCoder(code) && Encodable(e, b) && StandsAt(bc, p, code(e, b)) && e.Assert?
    requires pos <= |inp.cbuf|
    ensures p < |bc| && IsAssertOp(bc[p]) && |code(e, b)| == 1
    ensures SimpleStep(bc, p, inp, pos) == Test(Holds(e.kind, inp, pos), p + 1, pos)
  {
    assert code(e, b) == Code(e, b);
    AssertInstruction(bc, p, e.kind, inp, pos);
  }

  lemma SimpleQuantStands(code: (Regex, nat) -> seq<Byte>, bc: seq<Byte>, p: nat, e: Regex, b: nat)
    requires IsCoder(code) && e.Quant? && Simple(e) && Encodable(e, b) && StandsAt(bc, p, code(e, b))
    ensures Encodable(e.atom, b)
    ensures e.max == 0 ==> code(e, b) == []
    ensures e.max != 0 ==> code(e, b) == code(e.atom, b)
  {
    assert code(e, b) == Code(e, b);
    SimpleQuantCode(e, b);
  }

  /** What `run` does over the code of `e`: it stops where the pattern fails,
      and otherwise goes on at `q`, behind it. */
  ghost predicate Tries(run: (nat, nat) -> Inner, inp: Input, e: Regex, p: nat, q: nat, pos: nat)
    requires Simple(e) && pos <= |inp.cbuf|
  {
    run(p, pos) == if MatchesAt(inp, e, pos) then run(q, pos + Width(e)) else NoMatch
  }

  lemma TriesBoth(run: (nat, nat) -> Inner, inp: Input, e: Regex, p: nat, q: nat, r: nat, pos: nat)
    requires e.Concat? && Simple(e) && pos <= |inp.cbuf|
    requires Tries(run, inp, e.first, p, q, pos)
    requires MatchesAt(inp, e.first, pos) ==> Tries(run, inp, e.second, q, r, pos + Width(e.first))
    ensures Tries(run, inp, e, p, r, pos)
  {
    if MatchesAt(inp, e.first, pos) {
      assert pos + Width(e) == pos + Width(e.first) + Width(e.second);
    }
  }

  lemma TriesOnce(run: (nat, nat) -> Inner, inp: Input, e: Regex, p: nat, q: nat, pos: nat)
    requires e.Quant? && Simple(e) && pos <= |inp.cbuf|
    requires e.max == 0 ==> p == q
    requires e.max != 0 ==> Tries(run, inp, e.atom, p, q, pos)
    ensures Tries(run, inp, e, p, q, pos)
  {
  }

  lemma TriesLeaf(code: (Regex, nat) -> seq<Byte>, run: (nat, nat) -> Inner, bc: seq<Byte>, p: nat, inp: Input,
                  e: Regex, b: nat, pos: nat)
    requires IsCoder(code) && FollowsCode(run, bc, inp)
    requires Encodable(e, b) && StandsAt(bc, p, code(e, b)) && (IsSingle(e) || e.Assert?) && pos <= |inp.cbuf|
    ensures Tries(run, inp, e, p, p + |code(e, b)|, pos)
  {
    if e.Assert? { AssertLeaf(code, bc, p, inp, e, b, pos); } else { SimpleLeaf(code, bc, p, inp, e, b, pos); }
  }

  lemma {:induction false} AtomRun(code: (Regex, nat) -> seq<Byte>, run: (nat, nat) -> Inner, bc: seq<Byte>, p: nat,
                                   inp: Input, e: Regex, b: nat, pos: nat)
    requires IsCoder(code) && FollowsCode(run, bc, inp)
    requires Encodable(e, b) && Simple(e)
    requires pos <= |inp.cbuf| && StandsAt(bc, p, code(e, b))
    ensures Tries(run, inp, e, p, p + |code(e, b)|, pos)
    decreases e, 1
  {
    if e.Concat? {
      AtomRunConcat(code, run, bc, p, inp, e, b, pos);
    } else if e.Quant? {
      SimpleQuantStands(code, bc, p, e, b);
      if e.max > 0 { AtomRun(code, run, bc, p, inp, e.atom, b, pos); }
      TriesOnce(run, inp, e, p, p + |code(e, b)|, pos);
    } else if e.Empty? {
      EmptyStands(code, e, b);
    } else {
      TriesLeaf(code, run, bc, p, inp, e, b, pos);
    }
  }

  lemma {:induction false} AtomRunConcat(code: (Regex, nat) -> seq<Byte>, run: (nat, nat) -> Inner, bc: seq<Byte>,
                                         p: nat, inp: Input, e: Regex, b: nat, pos: nat)
    requires IsCoder(code) && FollowsCode(run, bc, inp)
    requires e.Concat? && Encodable(e, b) && Simple(e)
    requires pos <= |inp.cbuf| && StandsAt(bc, p, code(e, b))
    ensures Tries(run, inp, e, p, p + |code(e, b)|, pos)
    decreases e, 0
  {
    ConcatStands(code, bc, p, e, b);
    var q := p + |code(e.first, b)|;
    AtomRun(code, run, bc, p, inp, e.first, b, pos);
    if MatchesAt(inp, e.first, pos) {
      AtomRun(code, run, bc, q, inp, e.second, b + Groups(e.first), pos + Width(e.first));
    }
    TriesBoth(run, inp, e, p, q, p + |code(e, b)|, pos);
  }

  /** The inner run of a simple greedy loop: one attempt at the atom. */
  lemma InnerRun(code: (Regex, nat) -> seq<Byte>, bc: seq<Byte>, p: nat, inp: Input, e: Regex, b: nat, pos: nat)
    requires IsCoder(code) && Encodable(e, b) && Simple(e) && pos <= |inp.cbuf|
    requires StandsAt(bc, p, code(e, b)) && StandsAt(bc, p + |code(e, b)|, [OP_MATCH])
    ensures RunSimple(bc, p, inp, pos) == if MatchesAt(inp, e, pos) then MatchAt(pos + Width(e)) else NoMatch
  {
    var run: (nat, nat) -> Inner := (q: nat, cptr: nat) => RunSimple(bc, q, inp, cptr);
    var q := p + |code(e, b)|;
    RunFollowsCode(run, bc, inp);
    AtomRun(code, run, bc, p, inp, e, b, pos);
    OneByte(bc, q, OP_MATCH);
    RunEnds(run, bc, inp, q, pos + Width(e));
    TriesMeans(run, inp, e, p, q, pos);
  }

  lemma TriesMeans(run: (nat, nat) -> Inner, inp: Input, e: Regex, p: nat, q: nat, pos: nat)
    requires Simple(e) && pos <= |inp.cbuf| && Tries(run, inp, e, p, q, pos)
    requires run(q, pos + Width(e)) == MatchAt(pos + Width(e))
    ensures run(p, pos) == if MatchesAt(inp, e, pos) then MatchAt(pos + Width(e)) else NoMatch
  {
  }

  lemma RunEnds(run: (nat, nat) -> Inner, bc: seq<Byte>, inp: Input, q: nat, pos: nat)
    requires forall q: nat, cptr: nat :: run(q, cptr) == RunSimple(bc, q, inp, cptr)
    requires q < |bc| && bc[q] == OP_MATCH
    ensures run(q, pos) == MatchAt(pos)
  {
  }

  lemma RunFollowsCode(run: (nat, nat) -> Inner, bc: seq<Byte>, inp: Input)
    requires forall q: nat, cptr: nat :: run(q, cptr) == RunSimple(bc, q, inp, cptr)
    ensures FollowsCode(run, bc, inp)
  {
  }
}
