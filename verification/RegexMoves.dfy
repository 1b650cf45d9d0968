/** What pieces of code do, told by where they stand, and how the pieces fit
    together: sequences, choices, lookaheads and loops. */
module RegexMoves {
  import opened CharSets
  import opened Common
  import opened RegexSyntax
  import opened RegexCode
  import opened RegexMachine
  import opened RegexPaths

  /** The machine may be in configuration `x`. */
  predicate Ready(prog: Program, x: Config) {
    x.pos <= |prog.inp.cbuf| && |x.caps| == 2 * prog.captures
  }

  predicate AllReady(prog: Program, ys: seq<Config>) {
    forall i :: 0 <= i < |ys| ==> Ready(prog, ys[i])
  }

  /** The code from `p` to `q`, with `d` values on the stack, tries the
      configurations `f` lists. */
  ghost predicate Does(prog: Program, p: nat, q: nat, d: nat, f: Config -> seq<Config>) {
    && AtDepth(prog.code, p, d)
    && AtDepth(prog.code, q, d)
    && forall x, st, bt {:trigger Explores(prog, Here(p, x, st, bt), f(x), q, st, bt)} ::
         Ready(prog, x) && |st| == d ==> Explores(prog, Here(p, x, st, bt), f(x), q, st, bt)
  }

  lemma DoesAt(prog: Program, p: nat, q: nat, d: nat, f: Config -> seq<Config>, x: Config, st: seq<nat>, bt: seq<Saved>)
    requires Does(prog, p, q, d, f) && Ready(prog, x) && |st| == d
    ensures Explores(prog, Here(p, x, st, bt), f(x), q, st, bt)
  {
  }

  lemma ForwardReady(prog: Program, f: Config -> seq<Config>, x: Config)
    requires Forward(prog.inp, f) && Ready(prog, x)
    ensures AllReady(prog, f(x)) && AllFollow(prog.inp, x, f(x))
  {
    var ys := f(x);
    assert AllFollow(prog.inp, x, ys);
    forall i | 0 <= i < |ys| ensures Ready(prog, ys[i]) {
      assert Follows(prog.inp, x, ys[i]);
    }
  }

  /** The first way a piece of code succeeds. */
  lemma FirstWay(prog: Program, s: State, ys: seq<Config>, q: nat, st: seq<nat>, bt: seq<Saved>) returns (extra: seq<Saved>)
    requires ys != [] && Explores(prog, s, ys, q, st, bt)
    ensures Plain(extra)
    ensures Reaches(prog, s, Here(q, ys[0], st, bt + extra))
    ensures Explores(prog, Failing(bt + extra), ys[1..], q, st, bt)
  {
    extra :| Plain(extra) && Reaches(prog, s, Here(q, ys[0], st, bt + extra))
      && Explores(prog, Failing(bt + extra), ys[1..], q, st, bt);
  }

  // ---------------------------------------------------------------------
  // Sequences
  // ---------------------------------------------------------------------

  /** From `p` in any of the configurations `ys` the code tries what `g` lists. */
  ghost predicate Continues(prog: Program, p: nat, st1: seq<nat>, ys: seq<Config>, g: Config -> seq<Config>,
                            q: nat, st: seq<nat>) {
    forall i, bt {:trigger Explores(prog, Here(p, ys[i], st1, bt), g(ys[i]), q, st, bt)} ::
      0 <= i < |ys| ==> Explores(prog, Here(p, ys[i], st1, bt), g(ys[i]), q, st, bt)
  }

  lemma {:induction false} EachThen(prog: Program, s: State, ys: seq<Config>, p: nat, st1: seq<nat>,
                                    g: Config -> seq<Config>, q: nat, st: seq<nat>, bt: seq<Saved>)
    requires Explores(prog, s, ys, p, st1, bt) && Continues(prog, p, st1, ys, g, q, st)
    ensures Explores(prog, s, FlatMap(ys, g), q, st, bt)
    decreases |ys|
  {
    if ys != [] {
      var y, rest := ys[0], ys[1..];
      var extra := FirstWay(prog, s, ys, p, st1, bt);
      assert Explores(prog, Here(p, ys[0], st1, bt + extra), g(ys[0]), q, st, bt + extra);
      ContinuesRest(prog, p, st1, ys, g, q, st);
      EachThen(prog, Failing(bt + extra), rest, p, st1, g, q, st, bt);
      ExploreThen(prog, s, y, p, st1, g(y), FlatMap(rest, g), q, st, bt, extra);
    }
  }

  lemma ContinuesRest(prog: Program, p: nat, st1: seq<nat>, ys: seq<Config>, g: Config -> seq<Config>,
                      q: nat, st: seq<nat>)
    requires ys != [] && Continues(prog, p, st1, ys, g, q, st)
    ensures Continues(prog, p, st1, ys[1..], g, q, st)
  {
    var rest := ys[1..];
    forall i, bt | 0 <= i < |rest|
      ensures Explores(prog, Here(p, rest[i], st1, bt), g(rest[i]), q, st, bt)
    {
      assert Explores(prog, Here(p, ys[i + 1], st1, bt), g(ys[i + 1]), q, st, bt);
    }
  }

  ghost predicate Composes(f: Config -> seq<Config>, g: Config -> seq<Config>, h: Config -> seq<Config>) {
    forall x {:trigger h(x)} :: h(x) == FlatMap(f(x), g)
  }

  lemma Sequence(prog: Program, p: nat, q: nat, r: nat, d: nat,
                 f: Config -> seq<Config>, g: Config -> seq<Config>, h: Config -> seq<Config>)
    requires Does(prog, p, q, d, f) && Does(prog, q, r, d, g)
    requires Forward(prog.inp, f) && Composes(f, g, h)
    ensures Does(prog, p, r, d, h)
  {
    forall x, st, bt | Ready(prog, x) && |st| == d
      ensures Explores(prog, Here(p, x, st, bt), h(x), r, st, bt)
    {
      DoesAt(prog, p, q, d, f, x, st, bt);
      ForwardReady(prog, f, x);
      DoesEach(prog, q, r, d, g, f(x), st);
      EachThen(prog, Here(p, x, st, bt), f(x), q, st, g, r, st, bt);
    }
  }

  lemma DoesEach(prog: Program, q: nat, r: nat, d: nat, g: Config -> seq<Config>, ys: seq<Config>, st: seq<nat>)
    requires Does(prog, q, r, d, g) && AllReady(prog, ys) && |st| == d
    ensures Continues(prog, q, st, ys, g, r, st)
  {
  }

  /** A place where nothing happens. */
  lemma Nothing(prog: Program, p: nat, d: nat, f: Config -> seq<Config>)
    requires AtDepth(prog.code, p, d) && forall x {:trigger f(x)} :: f(x) == [x]
    ensures Does(prog, p, p, d, f)
  {
    forall x, st, bt | Ready(prog, x) && |st| == d
      ensures Explores(prog, Here(p, x, st, bt), f(x), p, st, bt)
    {
      ExploreOne(prog, x, p, st, bt);
    }
  }

  // ---------------------------------------------------------------------
  // Single instructions
  // ---------------------------------------------------------------------

  lemma OpByte(code: seq<Byte>, p: nat, s: seq<Byte>)
    requires StandsAt(code, p, s) && s != []
    ensures p < |code| && code[p] == s[0]
  {
    ByteOf(code, p, s, 0);
  }

  lemma Operand(code: seq<Byte>, p: nat, op: Byte, v: int)
    requires StandsAt(code, p, Op5(op, v))
    ensures p + 5 <= |code| && code[p] == op
    ensures 0 <= v < 0x1_0000_0000 ==> GetU32(code, p + 1) == v
    ensures -0x8000_0000 <= v < 0x8000_0000 ==> Signed(GetU32(code, p + 1)) == v
  {
    OpByte(code, p, Op5(op, v));
    Parts(code, p, [op], U32Bytes(v));
    GetU32Bytes(code, p + 1, v);
  }

  predicate IsOperandOp(op: Byte) {
    op == OP_GOTO || op == OP_SPLIT_GOTO_FIRST || op == OP_SPLIT_NEXT_FIRST || op == OP_LOOP || op == OP_PUSH_I32
    || op == OP_LOOKAHEAD || op == OP_NEGATIVE_LOOKAHEAD
  }

  lemma OperandDispatch(prog: Program, s: State, op: Byte)
    requires s.Run? && s.pc + 5 <= |prog.code| && prog.code[s.pc] == op && IsOperandOp(op)
    requires |s.caps| == 2 * prog.captures
    ensures Step(prog, s) == OperandStep(prog, s, op, s.pc + 5, GetU32(prog.code, s.pc + 1))
  {
  }

  /** From `p` one instruction fails, or goes to `q` in the configuration `f` lists. */
  ghost predicate Moves(prog: Program, p: nat, q: nat, f: Config -> seq<Config>, x: Config, st: seq<nat>, bt: seq<Saved>) {
    || (f(x) == [] && Step(prog, Here(p, x, st, bt)) == Failing(bt))
    || (|f(x)| == 1 && Step(prog, Here(p, x, st, bt)) == Here(q, f(x)[0], st, bt))
  }

  lemma OneMove(prog: Program, p: nat, q: nat, d: nat, f: Config -> seq<Config>)
    requires AtDepth(prog.code, p, d) && AtDepth(prog.code, q, d)
    requires forall x, st, bt {:trigger Moves(prog, p, q, f, x, st, bt)} ::
      Ready(prog, x) && |st| == d ==> Moves(prog, p, q, f, x, st, bt)
    ensures Does(prog, p, q, d, f)
  {
    forall x, st, bt | Ready(prog, x) && |st| == d
      ensures Explores(prog, Here(p, x, st, bt), f(x), q, st, bt)
    {
      assert Moves(prog, p, q, f, x, st, bt);
      if f(x) == [] {
        ExploreNone(prog, q, st, bt);
      } else {
        ExploreOne(prog, f(x)[0], q, st, bt);
        assert f(x) == [f(x)[0]];
      }
      ExploreStep(prog, Here(p, x, st, bt), f(x), q, st, bt);
    }
  }

  lemma JumpStep(prog: Program, p: nat, v: int, x: Config, st: seq<nat>, bt: seq<Saved>)
    requires StandsAt(prog.code, p, Op5(OP_GOTO, v)) && -0x8000_0000 <= v < 0x8000_0000 && p + 5 + v >= 0
    requires Ready(prog, x)
    ensures Step(prog, Here(p, x, st, bt)) == Here(p + 5 + v, x, st, bt)
  {
    Operand(prog.code, p, OP_GOTO, v);
    OperandDispatch(prog, Here(p, x, st, bt), OP_GOTO);
  }

  lemma Jumps(prog: Program, p: nat, v: int, d: nat, f: Config -> seq<Config>)
    requires StandsAt(prog.code, p, Op5(OP_GOTO, v)) && -0x8000_0000 <= v < 0x8000_0000 && p + 5 + v >= 0
    requires AtDepth(prog.code, p, d) && AtDepth(prog.code, p + 5 + v, d)
    requires forall x {:trigger f(x)} :: f(x) == [x]
    ensures Does(prog, p, p + 5 + v, d, f)
  {
    var q := p + 5 + v;
    forall x, st, bt | Ready(prog, x) && |st| == d
      ensures Moves(prog, p, q, f, x, st, bt)
    {
      JumpStep(prog, p, v, x, st, bt);
    }
    OneMove(prog, p, q, d, f);
  }

  /** The entry a split pushes to try `x` again at `pc`. */
  function Again(kind: Kind, pc: nat, x: Config, st: seq<nat>): Saved {
    Saved(kind, pc, x.pos, x.caps, st, 0)
  }

  /** The instruction at `p` goes on at `a`, and saves an entry to come back to
      at `c`. */
  ghost predicate Saves(prog: Program, p: nat, a: nat, kind: Kind, c: nat, d: nat) {
    && AtDepth(prog.code, p, d)
    && AtDepth(prog.code, a, d)
    && AtDepth(prog.code, c, d)
    && forall x, st, bt {:trigger Reaches(prog, Here(p, x, st, bt), Here(a, x, st, bt + [Again(kind, c, x, st)]))} ::
         Ready(prog, x) && |st| == d ==>
           Reaches(prog, Here(p, x, st, bt), Here(a, x, st, bt + [Again(kind, c, x, st)]))
  }

  lemma SaveOp(prog: Program, p: nat, a: nat, kind: Kind, c: nat, d: nat)
    requires AtDepth(prog.code, p, d) && AtDepth(prog.code, a, d) && AtDepth(prog.code, c, d)
    requires forall x, st, bt :: Ready(prog, x) && |st| == d ==>
      Step(prog, Here(p, x, st, bt)) == Here(a, x, st, bt + [Again(kind, c, x, st)])
    ensures Saves(prog, p, a, kind, c, d)
  {
    forall x, st, bt | Ready(prog, x) && |st| == d
      ensures Reaches(prog, Here(p, x, st, bt), Here(a, x, st, bt + [Again(kind, c, x, st)]))
    {
      Goes(prog, Here(p, x, st, bt), Here(a, x, st, bt + [Again(kind, c, x, st)]));
    }
  }

  lemma SplitStep(prog: Program, p: nat, goto: bool, v: int, x: Config, st: seq<nat>, bt: seq<Saved>)
    requires StandsAt(prog.code, p, Op5(if goto then OP_SPLIT_GOTO_FIRST else OP_SPLIT_NEXT_FIRST, v))
    requires -0x8000_0000 <= v < 0x8000_0000 && p + 5 + v >= 0 && Ready(prog, x)
    ensures Step(prog, Here(p, x, st, bt))
         == if goto then Here(p + 5 + v, x, st, bt + [Again(Split, p + 5, x, st)])
            else Here(p + 5, x, st, bt + [Again(Split, p + 5 + v, x, st)])
  {
    var op := if goto then OP_SPLIT_GOTO_FIRST else OP_SPLIT_NEXT_FIRST;
    Operand(prog.code, p, op, v);
    OperandDispatch(prog, Here(p, x, st, bt), op);
  }

  lemma SplitSaves(prog: Program, p: nat, goto: bool, v: int, d: nat)
    requires StandsAt(prog.code, p, Op5(if goto then OP_SPLIT_GOTO_FIRST else OP_SPLIT_NEXT_FIRST, v))
    requires -0x8000_0000 <= v < 0x8000_0000 && p + 5 + v >= 0
    requires AtDepth(prog.code, p, d) && AtDepth(prog.code, p + 5, d) && AtDepth(prog.code, p + 5 + v, d)
    ensures goto ==> Saves(prog, p, p + 5 + v, Split, p + 5, d)
    ensures !goto ==> Saves(prog, p, p + 5, Split, p + 5 + v, d)
  {
    var a, c := if goto then p + 5 + v else p + 5, if goto then p + 5 else p + 5 + v;
    forall x, st, bt | Ready(prog, x) && |st| == d
      ensures Step(prog, Here(p, x, st, bt)) == Here(a, x, st, bt + [Again(Split, c, x, st)])
    {
      SplitStep(prog, p, goto, v, x, st, bt);
    }
    SaveOp(prog, p, a, Split, c, d);
  }

  /** When everything tried first has failed, the split tries its other side. */
  lemma Retry(prog: Program, c: nat, x: Config, st: seq<nat>, bt: seq<Saved>)
    ensures Step(prog, Failing(bt + [Again(Split, c, x, st)])) == Here(c, x, st, bt)
  {
    var states := bt + [Again(Split, c, x, st)];
    assert states[..|states| - 1] == bt;
  }

  lemma Choice(prog: Program, p: nat, a: nat, c: nat, x: Config, st: seq<nat>, bt: seq<Saved>,
               ys: seq<Config>, zs: seq<Config>, q: nat, st1: seq<nat>)
    requires Saves(prog, p, a, Split, c, |st|) && Ready(prog, x)
    requires Explores(prog, Here(a, x, st, bt + [Again(Split, c, x, st)]), ys, q, st1, bt + [Again(Split, c, x, st)])
    requires Explores(prog, Here(c, x, st, bt), zs, q, st1, bt)
    ensures Explores(prog, Here(p, x, st, bt), ys + zs, q, st1, bt)
  {
    var extra := [Again(Split, c, x, st)];
    Retry(prog, c, x, st, bt);
    ExploreStep(prog, Failing(bt + extra), zs, q, st1, bt);
    ExploreJoin(prog, Here(a, x, st, bt + extra), ys, zs, q, st1, bt, extra);
    assert Reaches(prog, Here(p, x, st, bt), Here(a, x, st, bt + [Again(Split, c, x, st)]));
    ExploreAfter(prog, Here(p, x, st, bt), Here(a, x, st, bt + extra), ys + zs, q, st1, bt);
  }
}
