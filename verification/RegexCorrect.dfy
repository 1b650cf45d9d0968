/** The compiled code of a pattern does what the pattern means. */
module RegexCorrect {
  import opened CharSets
  import opened Common
  import opened RegexSyntax
  import opened RegexCode
  import opened RegexMachine
  import opened RegexShape
  import opened RegexAtoms
  import opened RegexPaths
  import opened RegexMoves
  import opened RegexLoops
  import opened RegexGreedy

  /** Balanced code `s` stands at `p`, where the value stack has depth `d`. */
  ghost predicate Lies(bc: seq<Byte>, p: nat, s: seq<Byte>, d: int) {
    StandsAt(bc, p, s) && AtDepth(bc, p, d) && AtDepth(bc, p + |s|, d)
  }

  lemma LiesParts(bc: seq<Byte>, p: nat, s: seq<Byte>, t: seq<Byte>, d: int)
    requires Lies(bc, p, s + t, d) && Balanced(s)
    ensures Lies(bc, p, s, d) && Lies(bc, p + |s|, t, d)
  {
    Parts(bc, p, s, t);
    Walk(bc, p, s, d);
  }

  lemma LiesOp(bc: seq<Byte>, p: nat, op: seq<Byte>, t: seq<Byte>, d: int)
    requires Lies(bc, p, op + t, d)
    requires op != [] && InstrSize(op) == |op| && Delta(op[0]) == 0
    ensures Lies(bc, p, op, d) && Lies(bc, p + |op|, t, d)
  {
    BalancedOp(op);
    LiesParts(bc, p, op, t, d);
  }

  // ---------------------------------------------------------------------
  // Where the parts of a pattern's code lie
  // ---------------------------------------------------------------------

  /** The code `c` does `f` wherever it lies: jumps are relative, so code may be
      moved and copied. */
  ghost predicate Behaves(prog: Program, c: seq<Byte>, f: Config -> seq<Config>) {
    forall p: nat, d: nat {:trigger Lies(prog.code, p, c, d)} :: Lies(prog.code, p, c, d) ==>
      Does(prog, p, p + |c|, d, f)
  }

  lemma BehavesAt(prog: Program, c: seq<Byte>, f: Config -> seq<Config>, p: nat, d: nat)
    requires Behaves(prog, c, f) && Lies(prog.code, p, c, d)
    ensures Does(prog, p, p + |c|, d, f)
  {
  }

  function Just(): Config -> seq<Config> {
    x => [x]
  }

  lemma {:induction false} FlatMapJust(ys: seq<Config>)
    ensures FlatMap(ys, Just()) == ys
  {
    if ys != [] {
      FlatMapJust(ys[1..]);
      assert [ys[0]] + ys[1..] == ys;
    }
  }

  lemma ComposesJust(f: Config -> seq<Config>)
    ensures Composes(f, Just(), f)
  {
    forall x ensures f(x) == FlatMap(f(x), Just()) {
      FlatMapJust(f(x));
    }
  }

  // ---------------------------------------------------------------------
  // Sequences and alternatives
  // ---------------------------------------------------------------------

  lemma ConcatBehaves(prog: Program, c1: seq<Byte>, c2: seq<Byte>,
                      f: Config -> seq<Config>, g: Config -> seq<Config>, h: Config -> seq<Config>)
    requires Behaves(prog, c1, f) && Behaves(prog, c2, g) && Balanced(c1)
    requires Forward(prog.inp, f) && Composes(f, g, h)
    ensures Behaves(prog, c1 + c2, h)
  {
    forall p: nat, d: nat | Lies(prog.code, p, c1 + c2, d)
      ensures Does(prog, p, p + |c1 + c2|, d, h)
    {
      LiesParts(prog.code, p, c1, c2, d);
      BehavesAt(prog, c1, f, p, d);
      BehavesAt(prog, c2, g, p + |c1|, d);
      Sequence(prog, p, p + |c1|, p + |c1| + |c2|, d, f, g, h);
    }
  }

  lemma AltParts(bc: seq<Byte>, p: nat, c1: seq<Byte>, c2: seq<Byte>, d: int)
    requires Lies(bc, p, AltCode(c1, c2), d) && Balanced(c1)
    ensures Lies(bc, p, Op5(OP_SPLIT_NEXT_FIRST, |c1| + 5), d)
    ensures Lies(bc, p + 5, c1, d)
    ensures Lies(bc, p + 5 + |c1|, Op5(OP_GOTO, |c2|), d)
    ensures Lies(bc, p + 5 + |c1| + 5, c2, d)
  {
    var split, goto := Op5(OP_SPLIT_NEXT_FIRST, |c1| + 5), Op5(OP_GOTO, |c2|);
    assert AltCode(c1, c2) == split + (c1 + (goto + c2));
    LiesOp(bc, p, split, c1 + (goto + c2), d);
    LiesParts(bc, p + 5, c1, goto + c2, d);
    LiesOp(bc, p + 5 + |c1|, goto, c2, d);
  }

  lemma AltBehaves(prog: Program, c1: seq<Byte>, c2: seq<Byte>,
                   f: Config -> seq<Config>, g: Config -> seq<Config>, h: Config -> seq<Config>)
    requires Roomy(prog) && Behaves(prog, c1, f) && Behaves(prog, c2, g) && Balanced(c1)
    requires Forward(prog.inp, f) && forall x {:trigger h(x)} :: h(x) == f(x) + g(x)
    ensures Behaves(prog, AltCode(c1, c2), h)
  {
    forall p: nat, d: nat | Lies(prog.code, p, AltCode(c1, c2), d)
      ensures Does(prog, p, p + |AltCode(c1, c2)|, d, h)
    {
      var q, r := p + 5 + |c1|, p + 10 + |c1| + |c2|;
      AltParts(prog.code, p, c1, c2, d);
      BehavesAt(prog, c1, f, p + 5, d);
      BehavesAt(prog, c2, g, q + 5, d);
      Jumps(prog, q, |c2|, d, Just());
      ComposesJust(f);
      Sequence(prog, p + 5, q, r, d, f, Just(), f);
      SplitSaves(prog, p, false, |c1| + 5, d);
      Either(prog, p, p + 5, q + 5, r, d, f, g, h);
    }
  }

  // ---------------------------------------------------------------------
  // Groups
  // ---------------------------------------------------------------------

  lemma MarkStep(prog: Program, p: nat, op: Byte, b: Byte, x: Config, st: seq<nat>, bt: seq<Saved>)
    requires StandsAt(prog.code, p, [op, b]) && (op == OP_SAVE_START || op == OP_SAVE_END)
    requires b < prog.captures && Ready(prog, x)
    ensures Step(prog, Here(p, x, st, bt)) == Here(p + 2, SetMark(x, 2 * b + (op - OP_SAVE_START as int)), st, bt)
  {
    ByteOf(prog.code, p, [op, b], 0);
    ByteOf(prog.code, p, [op, b], 1);
  }

  lemma MarkBehaves(prog: Program, op: Byte, b: Byte)
    requires (op == OP_SAVE_START || op == OP_SAVE_END) && b < prog.captures
    ensures Behaves(prog, [op, b], Marker(2 * b + (op - OP_SAVE_START as int)))
  {
    var f := Marker(2 * b + (op - OP_SAVE_START as int));
    forall p: nat, d: nat | Lies(prog.code, p, [op, b], d)
      ensures Does(prog, p, p + |[op, b]|, d, f)
    {
      var q := p + 2;
      forall x, st, bt | Ready(prog, x) && |st| == d
        ensures Moves(prog, p, q, f, x, st, bt)
      {
        MarkStep(prog, p, op, b, x, st, bt);
      }
      OneMove(prog, p, q, d, f);
    }
  }

  function Grouped(f: Config -> seq<Config>, b: nat): Config -> seq<Config> {
    x => f(SetMark(x, 2 * b))
  }

  lemma MarkerForward(inp: Input, k: nat)
    ensures Forward(inp, Marker(k))
  {
  }

  lemma GroupBehaves(prog: Program, c: seq<Byte>, b: Byte, f: Config -> seq<Config>, h: Config -> seq<Config>)
    requires Behaves(prog, c, f) && Balanced(c) && Forward(prog.inp, f) && b < prog.captures
    requires forall x {:trigger h(x)} :: h(x) == FlatMap(f(SetMark(x, 2 * b)), Marker(2 * b + 1))
    ensures Behaves(prog, GroupCode(c, b), h)
  {
    var g := Grouped(f, b);
    MarkBehaves(prog, OP_SAVE_START, b);
    MarkBehaves(prog, OP_SAVE_END, b);
    BalancedOp([OP_SAVE_START, b]);
    MarkerForward(prog.inp, 2 * b);
    forall x ensures g(x) == FlatMap(Marker(2 * b)(x), f) {
      FlatMapOne(SetMark(x, 2 * b), f);
    }
    ConcatBehaves(prog, [OP_SAVE_START, b], c, Marker(2 * b), f, g);
    BalancedJoin([OP_SAVE_START, b], c);
    GroupedForward(prog.inp, f, b);
    ConcatBehaves(prog, [OP_SAVE_START, b] + c, [OP_SAVE_END, b], g, Marker(2 * b + 1), h);
  }

  lemma GroupedForward(inp: Input, f: Config -> seq<Config>, b: nat)
    requires Forward(inp, f)
    ensures Forward(inp, Grouped(f, b))
  {
    forall x: Config | x.pos <= |inp.cbuf|
      ensures AllFollow(inp, x, Grouped(f, b)(x))
    {
      assert AllFollow(inp, SetMark(x, 2 * b), f(SetMark(x, 2 * b)));
    }
  }

  // ---------------------------------------------------------------------
  // Lookaheads
  // ---------------------------------------------------------------------

  function LookOp(negative: bool): Byte {
    if negative then OP_NEGATIVE_LOOKAHEAD else OP_LOOKAHEAD
  }

  lemma LookParts(bc: seq<Byte>, p: nat, c: seq<Byte>, negative: bool, d: int)
    requires Lies(bc, p, LookCode(c, negative), d) && Balanced(c)
    ensures Lies(bc, p, Op5(LookOp(negative), |c| + 1), d)
    ensures Lies(bc, p + 5, c, d)
    ensures Lies(bc, p + 5 + |c|, [OP_MATCH], d)
  {
    var op := Op5(LookOp(negative), |c| + 1);
    assert LookCode(c, negative) == op + (c + [OP_MATCH]);
    LiesOp(bc, p, op, c + [OP_MATCH], d);
    LiesParts(bc, p + 5, c, [OP_MATCH], d);
  }

  lemma LookBehaves(prog: Program, c: seq<Byte>, negative: bool, f: Config -> seq<Config>, h: Config -> seq<Config>)
    requires Roomy(prog) && Behaves(prog, c, f) && Balanced(c) && Forward(prog.inp, f)
    requires forall x {:trigger h(x)} :: h(x) == Looked(f(x), negative, x)
    ensures Behaves(prog, LookCode(c, negative), h)
  {
    forall p: nat, d: nat | Lies(prog.code, p, LookCode(c, negative), d)
      ensures Does(prog, p, p + |LookCode(c, negative)|, d, h)
    {
      LookParts(prog.code, p, c, negative, d);
      BehavesAt(prog, c, f, p + 5, d);
      LookSaves(prog, p, negative, |c| + 1, d);
      Lookahead(prog, p, p + 5, negative, p + 5 + |c|, p + 5 + (|c| + 1), d, f, h);
    }
  }

  // ---------------------------------------------------------------------
  // Single instructions
  // ---------------------------------------------------------------------

  lemma SimpleStepIs(prog: Program, p: nat, x: Config, st: seq<nat>, bt: seq<Saved>)
    requires p < |prog.code| && p + OpSize(prog.code[p]) <= |prog.code|
    requires IsCharOp(prog.code[p]) || IsAssertOp(prog.code[p])
    requires Ready(prog, x)
    ensures Step(prog, Here(p, x, st, bt))
         == match SimpleStep(prog.code, p, prog.inp, x.pos)
            case Go(pc, cptr) => Here(pc, x.(pos := cptr), st, bt)
            case Reject => Failing(bt)
            case Broken => Stuck
  {
  }
}
