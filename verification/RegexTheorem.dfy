/** Compiler correctness: the machine running the compiled program finds the
    first match of the pattern, or that there is none. */
module RegexTheorem {
  import opened CharSets
  import opened Common
  import opened RegexSyntax
  import opened RegexCode
  import opened RegexMachine
  import opened RegexShape
  import opened RegexAtoms
  import opened RegexPaths
  import opened RegexMoves
  import opened RegexLoops
  import opened RegexGreedy
  import opened RegexCorrect
  import opened RegexQuantifiers

  // ---------------------------------------------------------------------
  // The code of a pattern, one constructor at a time
  // ---------------------------------------------------------------------

  lemma CodeOfConcat(code: (Regex, nat) -> seq<Byte>, e: Regex, b: nat)
    requires IsCoder(code) && e.Concat? && Encodable(e, b)
    ensures Encodable(e.first, b) && Encodable(e.second, b + Groups(e.first)) && Balanced(code(e.first, b))
    ensures code(e, b) == code(e.first, b) + code(e.second, b + Groups(e.first))
  {
    CodeBalanced(e.first, b);
    assert code(e, b) == Code(e, b);
  }

  lemma CodeOfAlt(code: (Regex, nat) -> seq<Byte>, e: Regex, b: nat)
    requires IsCoder(code) && e.Alt? && Encodable(e, b)
    ensures Encodable(e.left, b) && Encodable(e.right, b + Groups(e.left)) && Balanced(code(e.left, b))
    ensures code(e, b) == AltCode(code(e.left, b), code(e.right, b + Groups(e.left)))
  {
    CodeBalanced(e.left, b);
    assert code(e, b) == Code(e, b);
  }

  lemma CodeOfGroup(code: (Regex, nat) -> seq<Byte>, e: Regex, b: nat)
    requires IsCoder(code) && e.Group? && Encodable(e, b)
    ensures Encodable(e.body, b + 1) && Balanced(code(e.body, b + 1)) && b < 255
    ensures code(e, b) == GroupCode(code(e.body, b + 1), b)
  {
    CodeBalanced(e.body, b + 1);
    assert code(e, b) == Code(e, b);
  }

  lemma CodeOfLook(code: (Regex, nat) -> seq<Byte>, e: Regex, b: nat)
    requires IsCoder(code) && e.Look? && Encodable(e, b)
    ensures Encodable(e.ahead, b) && Balanced(code(e.ahead, b))
    ensures code(e, b) == LookCode(code(e.ahead, b), e.negative)
  {
    CodeBalanced(e.ahead, b);
    assert code(e, b) == Code(e, b);
  }

  lemma CodeOfQuant(code: (Regex, nat) -> seq<Byte>, e: Regex, b: nat)
    requires IsCoder(code) && e.Quant? && Encodable(e, b)
    ensures Encodable(e.atom, b) && Balanced(code(e.atom, b)) && b <= 255 && b + Groups(e.atom) <= 255
    ensures e.min <= e.max <= INFINITY
    ensures code(e, b) == QuantCode(code(e.atom, b), b, Groups(e.atom), e.min, e.max, e.greedy)
  {
    CodeBalanced(e.atom, b);
    assert code(e, b) == Code(e, b);
  }

  // ---------------------------------------------------------------------
  // Simple atoms
  // ---------------------------------------------------------------------

  function Attempt(inp: Input, e: Regex): nat -> bool {
    (pos: nat) => Simple(e) && pos <= |inp.cbuf| && MatchesAt(inp, e, pos)
  }

  lemma {:induction false} CharCountBound(s: seq<Byte>)
    ensures CharCount(s) <= |s|
    decreases |s|
  {
    if s != [] { CharCountBound(Rest(s)); }
  }

  lemma SimpleFacts(code: (Regex, nat) -> seq<Byte>, e: Regex, b: nat)
    requires IsCoder(code) && Encodable(e, b) && OnlySimple(code(e, b))
    ensures Simple(e) && Groups(e) == 0 && CharCount(code(e, b)) == Width(e) <= |code(e, b)|
  {
    assert code(e, b) == Code(e, b);
    CharCountBound(Code(e, b));
    SimpleIsSimple(e, b);
    SimpleIsLinear(Code(e, b));
    LinearIsStraight(e, b);
  }

  lemma SimpleFixedWidth(inp: Input, e: Regex, b: nat)
    requires Simple(e) && Width(e) > 0
    ensures FixedWidth(inp, Matcher(inp, e, b), Attempt(inp, e), Width(e))
  {
    forall x: Config | x.pos <= |inp.cbuf|
      ensures Matcher(inp, e, b)(x) == if Attempt(inp, e)(x.pos) then [x.(pos := x.pos + Width(e))] else []
    {
      SimpleMatch(inp, e, b, x);
    }
  }

  lemma SimpleInnerRuns(prog: Program, code: (Regex, nat) -> seq<Byte>, e: Regex, b: nat)
    requires IsCoder(code) && Encodable(e, b) && Simple(e)
    ensures InnerRuns(prog, code(e, b), Attempt(prog.inp, e), Width(e))
  {
    var c := code(e, b);
    forall p: nat | StandsAt(prog.code, p, c) && StandsAt(prog.code, p + |c|, [OP_MATCH])
      ensures RunsAtom(prog.code, p, prog.inp, Attempt(prog.inp, e), Width(e))
    {
      forall pos: nat | pos <= |prog.inp.cbuf|
        ensures RunSimple(prog.code, p, prog.inp, pos)
             == if Attempt(prog.inp, e)(pos) then MatchAt(pos + Width(e)) else NoMatch
      {
        InnerRun(code, prog.code, p, prog.inp, e, b, pos);
      }
    }
  }

  lemma AtomAdvances(inp: Input, code: (Regex, nat) -> seq<Byte>, e: Regex, b: nat)
    requires IsCoder(code) && Encodable(e, b) && !NeedCheck(code(e, b))
    ensures Advances(inp, Matcher(inp, e, b))
  {
    assert code(e, b) == Code(e, b);
    forall x: Config | x.pos <= |inp.cbuf|
      ensures forall i :: 0 <= i < |Matcher(inp, e, b)(x)| ==> Advanced(inp, x, Matcher(inp, e, b)(x)[i])
    {
      AdvanceUnneeded(inp, e, b, x);
    }
  }

  // ---------------------------------------------------------------------
  // Single instructions
  // ---------------------------------------------------------------------

  lemma LeafSize(code: (Regex, nat) -> seq<Byte>, bc: seq<Byte>, p: nat, e: Regex, b: nat)
    requires IsCoder(code) && Encodable(e, b) && IsSingle(e) && StandsAt(bc, p, code(e, b))
    ensures p < |bc| && p + OpSize(bc[p]) <= |bc|
  {
    assert code(e, b) == Code(e, b);
    SingleInstr(e, b);
    ByteOf(bc, p, Code(e, b), 0);
  }

  lemma LeafStep(prog: Program, code: (Regex, nat) -> seq<Byte>, p: nat, e: Regex, b: nat,
                 x: Config, st: seq<nat>, bt: seq<Saved>)
    requires IsCoder(code) && Encodable(e, b) && (IsSingle(e) || e.Assert?) && StandsAt(prog.code, p, code(e, b))
    requires Ready(prog, x)
    ensures Moves(prog, p, p + |code(e, b)|, Matcher(prog.inp, e, b), x, st, bt)
  {
    if e.Assert? {
      AssertLeaf(code, prog.code, p, prog.inp, e, b, x.pos);
    } else {
      SimpleLeaf(code, prog.code, p, prog.inp, e, b, x.pos);
      LeafSize(code, prog.code, p, e, b);
    }
    SimpleStepIs(prog, p, x, st, bt);
  }

  lemma LeafBehaves(prog: Program, code: (Regex, nat) -> seq<Byte>, e: Regex, b: nat)
    requires IsCoder(code) && Encodable(e, b) && (IsSingle(e) || e.Assert?)
    ensures Behaves(prog, code(e, b), Matcher(prog.inp, e, b))
  {
    var f := Matcher(prog.inp, e, b);
    forall p: nat, d: nat | Lies(prog.code, p, code(e, b), d)
      ensures Does(prog, p, p + |code(e, b)|, d, f)
    {
      var q := p + |code(e, b)|;
      forall x, st, bt | Ready(prog, x) && |st| == d
        ensures Moves(prog, p, q, f, x, st, bt)
      {
        LeafStep(prog, code, p, e, b, x, st, bt);
      }
      OneMove(prog, p, q, d, f);
    }
  }

  // ---------------------------------------------------------------------
  // The meaning of a pattern, one constructor at a time
  // ---------------------------------------------------------------------

  lemma MatcherOfGroup(inp: Input, e: Regex, b: nat)
    requires e.Group?
    ensures forall x {:trigger Matcher(inp, e, b)(x)} ::
      Matcher(inp, e, b)(x) == FlatMap(Matcher(inp, e.body, b + 1)(SetMark(x, 2 * b)), Marker(2 * b + 1))
  {
    forall x ensures Match(inp, e, b, x)
                  == FlatMap(Match(inp, e.body, b + 1, SetMark(x, 2 * b)), Marker(2 * b + 1)) {}
  }

  lemma MatcherOfConcat(inp: Input, e: Regex, b: nat)
    requires e.Concat?
    ensures Composes(Matcher(inp, e.first, b), Matcher(inp, e.second, b + Groups(e.first)), Matcher(inp, e, b))
  {
    forall x ensures Match(inp, e, b, x)
                  == FlatMap(Match(inp, e.first, b, x), Matcher(inp, e.second, b + Groups(e.first))) {}
  }

  lemma MatcherOfAlt(inp: Input, e: Regex, b: nat)
    requires e.Alt?
    ensures forall x {:trigger Matcher(inp, e, b)(x)} ::
      Matcher(inp, e, b)(x) == Matcher(inp, e.left, b)(x) + Matcher(inp, e.right, b + Groups(e.left))(x)
  {
    forall x ensures Match(inp, e, b, x)
                  == Match(inp, e.left, b, x) + Match(inp, e.right, b + Groups(e.left), x) {}
  }

  lemma MatcherOfLook(inp: Input, e: Regex, b: nat)
    requires e.Look?
    ensures forall x {:trigger Matcher(inp, e, b)(x)} ::
      Matcher(inp, e, b)(x) == Looked(Matcher(inp, e.ahead, b)(x), e.negative, x)
  {
    forall x ensures Match(inp, e, b, x) == Looked(Match(inp, e.ahead, b, x), e.negative, x) {}
  }

  lemma MatcherOfQuant(inp: Input, e: Regex, b: nat)
    requires e.Quant?
    ensures Agree(inp, Quantified(inp, Matcher(inp, e.atom, b), b, Groups(e.atom), e.min, e.max, e.greedy),
                  Matcher(inp, e, b))
  {
    var f := Matcher(inp, e.atom, b);
    forall x: Config | x.pos <= |inp.cbuf|
      ensures Quantified(inp, f, b, Groups(e.atom), e.min, e.max, e.greedy)(x) == Matcher(inp, e, b)(x)
    {
      QuantMeans(inp, e, b, x);
    }
  }

  lemma QuantMeans(inp: Input, e: Regex, b: nat, x: Config)
    requires e.Quant?
    ensures Match(inp, e, b, x) == Repeat(inp, Matcher(inp, e.atom, b), e.min, e.max, e.greedy,
                                          if e.min == 0 then x.(caps := ResetMarks(x.caps, b, b + Groups(e.atom))) else x)
  {
  }

  // ---------------------------------------------------------------------
  // All patterns
  // ---------------------------------------------------------------------

  /** The code of every pattern, wherever it lies, tries exactly the matches of
      the pattern, in the order of the backtracking matcher. */
  lemma {:induction false} Compiled(prog: Program, code: (Regex, nat) -> seq<Byte>, e: Regex, b: nat)
    requires IsCoder(code) && Roomy(prog) && Encodable(e, b) && b + Groups(e) <= prog.captures <= 255
    ensures Behaves(prog, code(e, b), Matcher(prog.inp, e, b))
    decreases e, 1
  {
    match e
    case Empty =>
      EmptyStands(code, e, b);
      NothingBehaves(prog, Matcher(prog.inp, e, b));
    case Group(r) => CompiledGroup(prog, code, e, b);
    case Concat(r1, r2) => CompiledConcat(prog, code, e, b);
    case Alt(r1, r2) => CompiledAlt(prog, code, e, b);
    case Quant(r, min, max, greedy) => CompiledQuant(prog, code, e, b);
    case Look(r, negative) => CompiledLook(prog, code, e, b);
    case _ => LeafBehaves(prog, code, e, b);
  }

  lemma {:induction false} CompiledGroup(prog: Program, code: (Regex, nat) -> seq<Byte>, e: Regex, b: nat)
    requires IsCoder(code) && Roomy(prog) && e.Group? && Encodable(e, b) && b + Groups(e) <= prog.captures <= 255
    ensures Behaves(prog, code(e, b), Matcher(prog.inp, e, b))
    decreases e, 0
  {
    CodeOfGroup(code, e, b);
    Compiled(prog, code, e.body, b + 1);
    MatcherForward(prog.inp, e.body, b + 1);
    MatcherOfGroup(prog.inp, e, b);
    GroupBehaves(prog, code(e.body, b + 1), b, Matcher(prog.inp, e.body, b + 1), Matcher(prog.inp, e, b));
  }

  lemma {:induction false} CompiledConcat(prog: Program, code: (Regex, nat) -> seq<Byte>, e: Regex, b: nat)
    requires IsCoder(code) && Roomy(prog) && e.Concat? && Encodable(e, b) && b + Groups(e) <= prog.captures <= 255
    ensures Behaves(prog, code(e, b), Matcher(prog.inp, e, b))
    decreases e, 0
  {
    var b2 := b + Groups(e.first);
    CodeOfConcat(code, e, b);
    Compiled(prog, code, e.first, b);
    Compiled(prog, code, e.second, b2);
    MatcherForward(prog.inp, e.first, b);
    MatcherOfConcat(prog.inp, e, b);
    JoinBehaves(prog, code(e, b), code(e.first, b), code(e.second, b2),
                Matcher(prog.inp, e.first, b), Matcher(prog.inp, e.second, b2), Matcher(prog.inp, e, b));
  }

  lemma JoinBehaves(prog: Program, c: seq<Byte>, c1: seq<Byte>, c2: seq<Byte>,
                    f: Config -> seq<Config>, g: Config -> seq<Config>, h: Config -> seq<Config>)
    requires Behaves(prog, c1, f) && Behaves(prog, c2, g) && Balanced(c1) && c == c1 + c2
    requires Forward(prog.inp, f) && Composes(f, g, h)
    ensures Behaves(prog, c, h)
  {
    ConcatBehaves(prog, c1, c2, f, g, h);
  }

  lemma {:induction false} CompiledAlt(prog: Program, code: (Regex, nat) -> seq<Byte>, e: Regex, b: nat)
    requires IsCoder(code) && Roomy(prog) && e.Alt? && Encodable(e, b) && b + Groups(e) <= prog.captures <= 255
    ensures Behaves(prog, code(e, b), Matcher(prog.inp, e, b))
    decreases e, 0
  {
    var b2 := b + Groups(e.left);
    CodeOfAlt(code, e, b);
    Compiled(prog, code, e.left, b);
    Compiled(prog, code, e.right, b2);
    MatcherForward(prog.inp, e.left, b);
    MatcherOfAlt(prog.inp, e, b);
    AltBehaves(prog, code(e.left, b), code(e.right, b2),
               Matcher(prog.inp, e.left, b), Matcher(prog.inp, e.right, b2), Matcher(prog.inp, e, b));
  }

  lemma {:induction false} CompiledLook(prog: Program, code: (Regex, nat) -> seq<Byte>, e: Regex, b: nat)
    requires IsCoder(code) && Roomy(prog) && e.Look? && Encodable(e, b) && b + Groups(e) <= prog.captures <= 255
    ensures Behaves(prog, code(e, b), Matcher(prog.inp, e, b))
    decreases e, 0
  {
    CodeOfLook(code, e, b);
    Compiled(prog, code, e.ahead, b);
    MatcherForward(prog.inp, e.ahead, b);
    MatcherOfLook(prog.inp, e, b);
    LookBehaves(prog, code(e.ahead, b), e.negative, Matcher(prog.inp, e.ahead, b), Matcher(prog.inp, e, b));
  }

  lemma {:induction false} CompiledQuant(prog: Program, code: (Regex, nat) -> seq<Byte>, e: Regex, b: nat)
    requires IsCoder(code) && Roomy(prog) && e.Quant? && Encodable(e, b) && b + Groups(e) <= prog.captures <= 255
    ensures Behaves(prog, code(e, b), Matcher(prog.inp, e, b))
    decreases e, 0
  {
    var c, g, f := code(e.atom, b), Groups(e.atom), Matcher(prog.inp, e.atom, b);
    CodeOfQuant(code, e, b);
    Compiled(prog, code, e.atom, b);
    MatcherForward(prog.inp, e.atom, b);
    if !NeedCheck(c) { AtomAdvances(prog.inp, code, e.atom, b); }
    if UsesSimpleLoop(c, e.max, e.greedy) {
      SimpleFacts(code, e.atom, b);
      SimpleFixedWidth(prog.inp, e.atom, b);
      SimpleInnerRuns(prog, code, e.atom, b);
    }
    QuantBehaves(prog, c, b, g, e.min, e.max, e.greedy, f, Attempt(prog.inp, e.atom));
    MatcherOfQuant(prog.inp, e, b);
    BehavesSame(prog, code(e, b), Quantified(prog.inp, f, b, g, e.min, e.max, e.greedy), Matcher(prog.inp, e, b));
  }
}
