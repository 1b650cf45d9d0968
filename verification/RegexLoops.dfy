/** Choices, lookaheads and loops: what they do, given what their parts do. */
module RegexLoops {
  import opened CharSets
  import opened RegexSyntax
  import opened RegexCode
  import opened RegexMachine
  import opened RegexPaths
  import opened RegexMoves

  /** Two alternatives behind a split. */
  lemma Either(prog: Program, p: nat, a: nat, c: nat, q: nat, d: nat,
               f: Config -> seq<Config>, g: Config -> seq<Config>, h: Config -> seq<Config>)
    requires Saves(prog, p, a, Split, c, d)
    requires Does(prog, a, q, d, f) && Does(prog, c, q, d, g)
    requires forall x {:trigger h(x)} :: h(x) == f(x) + g(x)
    ensures Does(prog, p, q, d, h)
  {
    forall x, st, bt | Ready(prog, x) && |st| == d
      ensures Explores(prog, Here(p, x, st, bt), h(x), q, st, bt)
    {
      DoesAt(prog, a, q, d, f, x, st, bt + [Again(Split, c, x, st)]);
      DoesAt(prog, c, q, d, g, x, st, bt);
      Choice(prog, p, a, c, x, st, bt, f(x), g(x), q, st);
    }
  }

  // ---------------------------------------------------------------------
  // Lookaheads
  // ---------------------------------------------------------------------

  function LookKind(negative: bool): Kind {
    if negative then NegativeLookAhead else LookAhead
  }

  lemma LookStep(prog: Program, p: nat, negative: bool, v: nat, x: Config, st: seq<nat>, bt: seq<Saved>)
    requires StandsAt(prog.code, p, Op5(if negative then OP_NEGATIVE_LOOKAHEAD else OP_LOOKAHEAD, v)) && v < 0x8000_0000
    requires Ready(prog, x)
    ensures Step(prog, Here(p, x, st, bt)) == Here(p + 5, x, st, bt + [Again(LookKind(negative), p + 5 + v, x, st)])
  {
    var op := if negative then OP_NEGATIVE_LOOKAHEAD else OP_LOOKAHEAD;
    Operand(prog.code, p, op, v);
    OperandDispatch(prog, Here(p, x, st, bt), op);
  }

  lemma LookSaves(prog: Program, p: nat, negative: bool, v: nat, d: nat)
    requires StandsAt(prog.code, p, Op5(if negative then OP_NEGATIVE_LOOKAHEAD else OP_LOOKAHEAD, v)) && v < 0x8000_0000
    requires AtDepth(prog.code, p, d) && AtDepth(prog.code, p + 5, d) && AtDepth(prog.code, p + 5 + v, d)
    ensures Saves(prog, p, p + 5, LookKind(negative), p + 5 + v, d)
  {
    forall x, st, bt | Ready(prog, x) && |st| == d
      ensures Step(prog, Here(p, x, st, bt)) == Here(p + 5, x, st, bt + [Again(LookKind(negative), p + 5 + v, x, st)])
    {
      LookStep(prog, p, negative, v, x, st, bt);
    }
    SaveOp(prog, p, p + 5, LookKind(negative), p + 5 + v, d);
  }

  /** The end of a lookahead whose body failed. */
  lemma LookFails(prog: Program, negative: bool, q: nat, x: Config, st: seq<nat>, bt: seq<Saved>)
    ensures Step(prog, Failing(bt + [Again(LookKind(negative), q, x, st)]))
         == if negative then Here(q, x, st, bt) else Failing(bt)
  {
    var states := bt + [Again(LookKind(negative), q, x, st)];
    assert states[..|states| - 1] == bt;
  }

  /** The end of a lookahead whose body matched with captures `caps`. */
  lemma LookMatches(prog: Program, negative: bool, q: nat, x: Config, st: seq<nat>, bt: seq<Saved>, caps: seq<Mark>)
    ensures Step(prog, Matching(caps, bt + [Again(LookKind(negative), q, x, st)]))
         == if negative then Failing(bt) else Here(q, x.(caps := caps), st, bt)
  {
    var states := bt + [Again(LookKind(negative), q, x, st)];
    assert states[..|states| - 1] == bt;
  }

  lemma MatchStep(prog: Program, q: nat, y: Config, st: seq<nat>, bt: seq<Saved>)
    requires StandsAt(prog.code, q, [OP_MATCH]) && Ready(prog, y)
    ensures Step(prog, Here(q, y, st, bt)) == Matching(y.caps, bt)
  {
    ByteOf(prog.code, q, [OP_MATCH], 0);
  }

  /** A body that can match ends in its first way, with everything it left on
      the backtrack stack removed. */
  lemma BodyMatches(prog: Program, s: State, ys: seq<Config>, q: nat, st: seq<nat>, bt: seq<Saved>)
    requires ys != [] && Explores(prog, s, ys, q, st, bt)
    requires StandsAt(prog.code, q, [OP_MATCH]) && Ready(prog, ys[0]) && AtDepth(prog.code, q, |st|)
    ensures Reaches(prog, s, Matching(ys[0].caps, bt))
  {
    var extra := FirstWay(prog, s, ys, q, st, bt);
    MatchStep(prog, q, ys[0], st, bt + extra);
    SkipPlain(prog, ys[0].caps, bt, extra);
    OneStep(prog, Here(q, ys[0], st, bt + extra), Matching(ys[0].caps, bt));
    Onward(prog, s, Here(q, ys[0], st, bt + extra), Matching(ys[0].caps, bt));
  }

  /** What is left of a lookahead once its body has been tried. */
  lemma LookNone(prog: Program, negative: bool, r: nat, x: Config, st: seq<nat>, bt: seq<Saved>)
    requires AtDepth(prog.code, r, |st|)
    ensures Explores(prog, Failing(bt + [Again(LookKind(negative), r, x, st)]), Looked([], negative, x), r, st, bt)
  {
    LookFails(prog, negative, r, x, st, bt);
    if negative { ExploreOne(prog, x, r, st, bt); } else { ExploreNone(prog, r, st, bt); }
    ExploreStep(prog, Failing(bt + [Again(LookKind(negative), r, x, st)]), Looked([], negative, x), r, st, bt);
  }

  lemma LookSome(prog: Program, negative: bool, r: nat, x: Config, st: seq<nat>, bt: seq<Saved>, ys: seq<Config>)
    requires AtDepth(prog.code, r, |st|) && ys != []
    ensures Explores(prog, Matching(ys[0].caps, bt + [Again(LookKind(negative), r, x, st)]),
                     Looked(ys, negative, x), r, st, bt)
  {
    LookMatches(prog, negative, r, x, st, bt, ys[0].caps);
    if negative { ExploreNone(prog, r, st, bt); } else { ExploreOne(prog, x.(caps := ys[0].caps), r, st, bt); }
    ExploreStep(prog, Matching(ys[0].caps, bt + [Again(LookKind(negative), r, x, st)]),
                Looked(ys, negative, x), r, st, bt);
  }

  lemma LookBody(prog: Program, negative: bool, s: State, ys: seq<Config>, q: nat, r: nat,
                 x: Config, st: seq<nat>, bt: seq<Saved>)
    requires Explores(prog, s, ys, q, st, bt + [Again(LookKind(negative), r, x, st)]) && AllReady(prog, ys)
    requires StandsAt(prog.code, q, [OP_MATCH])
    requires AtDepth(prog.code, q, |st|) && AtDepth(prog.code, r, |st|)
    ensures Explores(prog, s, Looked(ys, negative, x), r, st, bt)
  {
    var saved := Again(LookKind(negative), r, x, st);
    if ys == [] {
      LookNone(prog, negative, r, x, st, bt);
      ExploreAfter(prog, s, Failing(bt + [saved]), Looked(ys, negative, x), r, st, bt);
    } else {
      BodyMatches(prog, s, ys, q, st, bt + [saved]);
      LookSome(prog, negative, r, x, st, bt, ys);
      ExploreAfter(prog, s, Matching(ys[0].caps, bt + [saved]), Looked(ys, negative, x), r, st, bt);
    }
  }

  lemma LookAt(prog: Program, p: nat, a: nat, negative: bool, q: nat, r: nat, f: Config -> seq<Config>,
               x: Config, st: seq<nat>, bt: seq<Saved>)
    requires Saves(prog, p, a, LookKind(negative), r, |st|) && StandsAt(prog.code, q, [OP_MATCH])
    requires Does(prog, a, q, |st|, f) && Forward(prog.inp, f) && Ready(prog, x)
    ensures Explores(prog, Here(p, x, st, bt), Looked(f(x), negative, x), r, st, bt)
  {
    var bt1 := bt + [Again(LookKind(negative), r, x, st)];
    DoesAt(prog, a, q, |st|, f, x, st, bt1);
    ForwardReady(prog, f, x);
    LookBody(prog, negative, Here(a, x, st, bt1), f(x), q, r, x, st, bt);
    assert Reaches(prog, Here(p, x, st, bt), Here(a, x, st, bt + [Again(LookKind(negative), r, x, st)]));
    ExploreAfter(prog, Here(p, x, st, bt), Here(a, x, st, bt1), Looked(f(x), negative, x), r, st, bt);
  }

  lemma Lookahead(prog: Program, p: nat, a: nat, negative: bool, q: nat, r: nat, d: nat,
                  f: Config -> seq<Config>, h: Config -> seq<Config>)
    requires Saves(prog, p, a, LookKind(negative), r, d) && StandsAt(prog.code, q, [OP_MATCH])
    requires Does(prog, a, q, d, f) && Forward(prog.inp, f)
    requires forall x {:trigger h(x)} :: h(x) == Looked(f(x), negative, x)
    ensures Does(prog, p, r, d, h)
  {
    forall x, st, bt | Ready(prog, x) && |st| == d
      ensures Explores(prog, Here(p, x, st, bt), h(x), r, st, bt)
    {
      LookAt(prog, p, a, negative, q, r, f, x, st, bt);
    }
  }

  // ---------------------------------------------------------------------
  // The advance check
  // ---------------------------------------------------------------------

  /** The configurations of `ys` that are not at position `pos`. */
  function Moved(ys: seq<Config>, pos: nat): seq<Config> {
    if ys == [] then [] else (if ys[0].pos == pos then [] else [ys[0]]) + Moved(ys[1..], pos)
  }

  lemma PushPosStep(prog: Program, p: nat, x: Config, st: seq<nat>, bt: seq<Saved>)
    requires StandsAt(prog.code, p, [OP_PUSH_CHAR_POS]) && Ready(prog, x) && |st| < prog.stackMax
    ensures Step(prog, Here(p, x, st, bt)) == Here(p + 1, x, st + [x.pos], bt)
  {
    ByteOf(prog.code, p, [OP_PUSH_CHAR_POS], 0);
  }

  lemma CheckStep(prog: Program, q: nat, y: Config, pos: nat, st: seq<nat>, bt: seq<Saved>)
    requires StandsAt(prog.code, q, [OP_CHECK_ADVANCE]) && Ready(prog, y)
    ensures Step(prog, Here(q, y, st + [pos], bt)) == if y.pos == pos then Failing(bt) else Here(q + 1, y, st, bt)
  {
    ByteOf(prog.code, q, [OP_CHECK_ADVANCE], 0);
    assert (st + [pos])[..|st + [pos]| - 1] == st;
  }

  lemma CheckOne(prog: Program, q: nat, y: Config, pos: nat, st: seq<nat>, bt: seq<Saved>)
    requires StandsAt(prog.code, q, [OP_CHECK_ADVANCE]) && Ready(prog, y)
    requires AtDepth(prog.code, q, |st| + 1) && AtDepth(prog.code, q + 1, |st|)
    ensures Explores(prog, Here(q, y, st + [pos], bt), if y.pos == pos then [] else [y], q + 1, st, bt)
  {
    CheckStep(prog, q, y, pos, st, bt);
    var zs := if y.pos == pos then [] else [y];
    if y.pos == pos { ExploreNone(prog, q + 1, st, bt); } else { ExploreOne(prog, y, q + 1, st, bt); }
    ExploreStep(prog, Here(q, y, st + [pos], bt), zs, q + 1, st, bt);
  }

  lemma {:induction false} CheckAll(prog: Program, s: State, ys: seq<Config>, pos: nat, q: nat, d: nat,
                                    st: seq<nat>, bt: seq<Saved>)
    requires Explores(prog, s, ys, q, st + [pos], bt) && AllReady(prog, ys) && |st| == d
    requires StandsAt(prog.code, q, [OP_CHECK_ADVANCE])
    requires AtDepth(prog.code, q, d + 1) && AtDepth(prog.code, q + 1, d)
    ensures Explores(prog, s, Moved(ys, pos), q + 1, st, bt)
    decreases |ys|
  {
    if ys != [] {
      var y := ys[0];
      var extra := FirstWay(prog, s, ys, q, st + [pos], bt);
      CheckAll(prog, Failing(bt + extra), ys[1..], pos, q, d, st, bt);
      CheckOne(prog, q, y, pos, st, bt + extra);
      var zs := if y.pos == pos then [] else [y];
      ExploreThen(prog, s, y, q, st + [pos], zs, Moved(ys[1..], pos), q + 1, st, bt, extra);
    }
  }

  /** An atom between the two halves of the advance check. */
  lemma Checked(prog: Program, p: nat, q: nat, d: nat, f: Config -> seq<Config>, h: Config -> seq<Config>)
    requires Roomy(prog)
    requires StandsAt(prog.code, p, [OP_PUSH_CHAR_POS]) && StandsAt(prog.code, q, [OP_CHECK_ADVANCE])
    requires AtDepth(prog.code, p, d) && AtDepth(prog.code, q + 1, d)
    requires Does(prog, p + 1, q, d + 1, f) && Forward(prog.inp, f)
    requires forall x {:trigger h(x)} :: h(x) == Moved(f(x), x.pos)
    ensures Does(prog, p, q + 1, d, h)
  {
    forall x, st, bt | Ready(prog, x) && |st| == d
      ensures Explores(prog, Here(p, x, st, bt), h(x), q + 1, st, bt)
    {
      var s := Here(p + 1, x, st + [x.pos], bt);
      PushPosStep(prog, p, x, st, bt);
      DoesAt(prog, p + 1, q, d + 1, f, x, st + [x.pos], bt);
      ForwardReady(prog, f, x);
      CheckAll(prog, s, f(x), x.pos, q, d, st, bt);
      ExploreStep(prog, Here(p, x, st, bt), h(x), q + 1, st, bt);
    }
  }

  // ---------------------------------------------------------------------
  // Loops
  // ---------------------------------------------------------------------

  /** The split of a loop at `p`: into the body at `a` first if greedy, to the
      exit at `c` first if lazy. */
  ghost predicate LoopSplit(prog: Program, p: nat, a: nat, c: nat, greedy: bool, d: nat) {
    if greedy then Saves(prog, p, a, Split, c, d) else Saves(prog, p, c, Split, a, d)
  }

  /** Either side of a loop's split. */
  lemma LoopChoice(prog: Program, p: nat, a: nat, c: nat, greedy: bool, x: Config, st: seq<nat>, bt: seq<Saved>,
                   more: seq<Config>, q: nat, st1: seq<nat>)
    requires LoopSplit(prog, p, a, c, greedy, |st|) && Ready(prog, x)
    requires forall bt1 {:trigger Explores(prog, Here(a, x, st, bt1), more, q, st1, bt1)} ::
      Explores(prog, Here(a, x, st, bt1), more, q, st1, bt1)
    requires forall bt1 {:trigger Explores(prog, Here(c, x, st, bt1), [x], q, st1, bt1)} ::
      Explores(prog, Here(c, x, st, bt1), [x], q, st1, bt1)
    ensures Explores(prog, Here(p, x, st, bt), if greedy then more + [x] else [x] + more, q, st1, bt)
  {
    if greedy {
      var bt1 := bt + [Again(Split, c, x, st)];
      assert Explores(prog, Here(a, x, st, bt1), more, q, st1, bt1);
      assert Explores(prog, Here(c, x, st, bt), [x], q, st1, bt);
      Choice(prog, p, a, c, x, st, bt, more, [x], q, st1);
    } else {
      var bt1 := bt + [Again(Split, a, x, st)];
      assert Explores(prog, Here(c, x, st, bt1), [x], q, st1, bt1);
      assert Explores(prog, Here(a, x, st, bt), more, q, st1, bt);
      Choice(prog, p, c, a, x, st, bt, [x], more, q, st1);
    }
  }

  /** Every match of `f` moves on. */
  ghost predicate Advances(inp: Input, f: Config -> seq<Config>) {
    forall x: Config {:trigger f(x)} :: x.pos <= |inp.cbuf| ==>
      forall i :: 0 <= i < |f(x)| ==> Advanced(inp, x, f(x)[i])
  }

  function Before(min: nat): nat {
    if min == 0 then 0 else min - 1
  }

  /** The repetitions after one, when all of these have moved on. */
  lemma {:induction false} RepeatAllFlat(inp: Input, f: Config -> seq<Config>, min: nat, max: nat, greedy: bool,
                                         ys: seq<Config>, x: Config)
    requires min > 0 || forall i :: 0 <= i < |ys| ==> Advanced(inp, x, ys[i])
    ensures RepeatAll(inp, f, min, max, greedy, ys, x) == FlatMap(ys, Repeater(inp, f, Before(min), OneLess(max), greedy))
    decreases |ys|
  {
    if ys != [] {
      RepeatAllFlat(inp, f, min, max, greedy, ys[1..], x);
    }
  }

  /** After one more repetition from `x`, everything `Repeat` lists. */
  lemma EachRepeats(prog: Program, s: State, p: nat, st1: seq<nat>, f: Config -> seq<Config>, min: nat, max: nat,
                    greedy: bool, x: Config, q: nat, st: seq<nat>, bt: seq<Saved>)
    requires Explores(prog, s, f(x), p, st1, bt)
    requires Continues(prog, p, st1, f(x), Repeater(prog.inp, f, Before(min), OneLess(max), greedy), q, st)
    requires min > 0 || forall i :: 0 <= i < |f(x)| ==> Advanced(prog.inp, x, f(x)[i])
    ensures Explores(prog, s, RepeatAll(prog.inp, f, min, max, greedy, f(x), x), q, st, bt)
  {
    RepeatAllFlat(prog.inp, f, min, max, greedy, f(x), x);
    EachThen(prog, s, f(x), p, st1, Repeater(prog.inp, f, Before(min), OneLess(max), greedy), q, st, bt);
  }

  /** A loop without a bound: its head at `p` chooses between the exit at `c`
      and the body at `a`, which comes back to the head. */
  lemma {:induction false} StarAt(prog: Program, p: nat, a: nat, c: nat, greedy: bool, f: Config -> seq<Config>,
                                  x: Config, st: seq<nat>, bt: seq<Saved>)
    requires LoopSplit(prog, p, a, c, greedy, |st|) && AtDepth(prog.code, c, |st|)
    requires Does(prog, a, p, |st|, f) && Forward(prog.inp, f) && Advances(prog.inp, f)
    requires Ready(prog, x)
    ensures Explores(prog, Here(p, x, st, bt), Repeat(prog.inp, f, 0, INFINITY, greedy, x), c, st, bt)
    decreases Remaining(prog.inp, x)
  {
    var g := Repeater(prog.inp, f, 0, INFINITY, greedy);
    var ys := f(x);
    ForwardReady(prog, f, x);
    forall i, bt1 | 0 <= i < |ys|
      ensures Explores(prog, Here(p, ys[i], st, bt1), g(ys[i]), c, st, bt1)
    {
      assert Advanced(prog.inp, x, ys[i]);
      StarAt(prog, p, a, c, greedy, f, ys[i], st, bt1);
    }
    StarTurn(prog, p, a, c, greedy, f, x, st, bt);
  }

  lemma StarTurn(prog: Program, p: nat, a: nat, c: nat, greedy: bool, f: Config -> seq<Config>,
                 x: Config, st: seq<nat>, bt: seq<Saved>)
    requires LoopSplit(prog, p, a, c, greedy, |st|) && AtDepth(prog.code, c, |st|)
    requires Does(prog, a, p, |st|, f) && Advances(prog.inp, f) && Ready(prog, x)
    requires Continues(prog, p, st, f(x), Repeater(prog.inp, f, 0, INFINITY, greedy), c, st)
    ensures Explores(prog, Here(p, x, st, bt), Repeat(prog.inp, f, 0, INFINITY, greedy, x), c, st, bt)
  {
    var more := RepeatAll(prog.inp, f, 0, INFINITY, greedy, f(x), x);
    forall bt1: seq<Saved>
      ensures Explores(prog, Here(a, x, st, bt1), more, c, st, bt1)
    {
      DoesAt(prog, a, p, |st|, f, x, st, bt1);
      EachRepeats(prog, Here(a, x, st, bt1), p, st, f, 0, INFINITY, greedy, x, c, st, bt1);
    }
    forall bt1: seq<Saved>
      ensures Explores(prog, Here(c, x, st, bt1), [x], c, st, bt1)
    {
      ExploreOne(prog, x, c, st, bt1);
    }
    LoopChoice(prog, p, a, c, greedy, x, st, bt, more, c, st);
  }

  lemma Star(prog: Program, p: nat, a: nat, c: nat, greedy: bool, d: nat, f: Config -> seq<Config>)
    requires LoopSplit(prog, p, a, c, greedy, d) && AtDepth(prog.code, p, d) && AtDepth(prog.code, c, d)
    requires Does(prog, a, p, d, f) && Forward(prog.inp, f) && Advances(prog.inp, f)
    ensures Does(prog, p, c, d, Repeater(prog.inp, f, 0, INFINITY, greedy))
  {
    forall x, st, bt | Ready(prog, x) && |st| == d
      ensures Explores(prog, Here(p, x, st, bt), Repeat(prog.inp, f, 0, INFINITY, greedy, x), c, st, bt)
    {
      StarAt(prog, p, a, c, greedy, f, x, st, bt);
    }
  }

  // ---------------------------------------------------------------------
  // Counted loops
  // ---------------------------------------------------------------------

  function With(st: seq<nat>, k: nat): seq<nat> {
    st + [k]
  }

  lemma PushStep(prog: Program, p: nat, n: nat, x: Config, st: seq<nat>, bt: seq<Saved>)
    requires StandsAt(prog.code, p, Op5(OP_PUSH_I32, n)) && n < 0x1_0000_0000
    requires Ready(prog, x) && |st| < prog.stackMax
    ensures Step(prog, Here(p, x, st, bt)) == Here(p + 5, x, st + [n], bt)
  {
    Operand(prog.code, p, OP_PUSH_I32, n);
    OperandDispatch(prog, Here(p, x, st, bt), OP_PUSH_I32);
  }

  lemma PushGoes(prog: Program, p: nat, n: nat, x: Config, st: seq<nat>, bt: seq<Saved>)
    requires Roomy(prog) && StandsAt(prog.code, p, Op5(OP_PUSH_I32, n)) && n < 0x1_0000_0000 && Ready(prog, x)
    requires AtDepth(prog.code, p, |st|) && AtDepth(prog.code, p + 5, |st| + 1)
    ensures Reaches(prog, Here(p, x, st, bt), Here(p + 5, x, st + [n], bt))
  {
    PushStep(prog, p, n, x, st, bt);
    Goes(prog, Here(p, x, st, bt), Here(p + 5, x, st + [n], bt));
  }

  lemma LoopStep(prog: Program, p: nat, h: nat, j: nat, x: Config, st: seq<nat>, bt: seq<Saved>)
    requires StandsAt(prog.code, p, Op5(OP_LOOP, h - (p + 5))) && -0x8000_0000 <= h - (p + 5) < 0x8000_0000
    requires Ready(prog, x) && j < U64 - 1
    ensures Step(prog, Here(p, x, With(st, j + 1), bt)) == Here(if j > 0 then h else p + 5, x, With(st, j), bt)
  {
    Operand(prog.code, p, OP_LOOP, h - (p + 5));
    OperandDispatch(prog, Here(p, x, With(st, j + 1), bt), OP_LOOP);
    LoopOperand(prog, p, h, GetU32(prog.code, p + 1), j, x, st, bt);
  }

  lemma LoopOperand(prog: Program, p: nat, h: nat, val: nat, j: nat, x: Config, st: seq<nat>, bt: seq<Saved>)
    requires Signed(val) == h - (p + 5) && j < U64 - 1
    ensures OperandStep(prog, Here(p, x, With(st, j + 1), bt), OP_LOOP, p + 5, val)
         == Here(if j > 0 then h else p + 5, x, With(st, j), bt)
  {
    assert With(st, j + 1)[|st| := j] == With(st, j);
  }

  lemma DropStep(prog: Program, p: nat, k: nat, x: Config, st: seq<nat>, bt: seq<Saved>)
    requires StandsAt(prog.code, p, [OP_DROP]) && Ready(prog, x)
    ensures Step(prog, Here(p, x, st + [k], bt)) == Here(p + 1, x, st, bt)
  {
    ByteOf(prog.code, p, [OP_DROP], 0);
    assert (st + [k])[..|st + [k]| - 1] == st;
  }

  /** The loop instruction at `p` counts down to `k` and goes back to `h`. */
  ghost predicate CountsDown(prog: Program, p: nat, h: nat, k: nat, d: nat) {
    forall x, st, bt {:trigger Here(h, x, With(st, k), bt)} :: Ready(prog, x) && |st| == d ==>
      Reaches(prog, Here(p, x, With(st, k + 1), bt), Here(h, x, With(st, k), bt))
  }

  /** From `p` the machine drops a counter with value `k` and goes to `q`. */
  ghost predicate Drops(prog: Program, p: nat, q: nat, k: nat, d: nat) {
    forall x, st, bt {:trigger Here(p, x, With(st, k), bt)} :: Ready(prog, x) && |st| == d ==>
      Reaches(prog, Here(p, x, With(st, k), bt), Here(q, x, st, bt))
  }

  lemma DropGoes(prog: Program, p: nat, d: nat, x: Config, st: seq<nat>, bt: seq<Saved>, k: nat)
    requires StandsAt(prog.code, p, [OP_DROP]) && Ready(prog, x) && |st| == d
    requires AtDepth(prog.code, p, d + 1) && AtDepth(prog.code, p + 1, d)
    ensures Reaches(prog, Here(p, x, st + [k], bt), Here(p + 1, x, st, bt))
  {
    DropStep(prog, p, k, x, st, bt);
    Goes(prog, Here(p, x, st + [k], bt), Here(p + 1, x, st, bt));
  }

  lemma LoopCounts(prog: Program, p: nat, h: nat, d: nat, k: nat)
    requires StandsAt(prog.code, p, Op5(OP_LOOP, h - (p + 5))) && -0x8000_0000 <= h - (p + 5) < 0x8000_0000
    requires 1 <= k < U64 - 1
    requires AtDepth(prog.code, p, d + 1) && AtDepth(prog.code, h, d + 1)
    ensures CountsDown(prog, p, h, k, d)
  {
    forall x, st, bt | Ready(prog, x) && |st| == d
      ensures Reaches(prog, Here(p, x, With(st, k + 1), bt), Here(h, x, With(st, k), bt))
    {
      LoopStep(prog, p, h, k, x, st, bt);
      Goes(prog, Here(p, x, With(st, k + 1), bt), Here(h, x, With(st, k), bt));
    }
  }

  lemma LoopGoes(prog: Program, p: nat, h: nat, j: nat, x: Config, st: seq<nat>, bt: seq<Saved>)
    requires StandsAt(prog.code, p, Op5(OP_LOOP, h - (p + 5))) && -0x8000_0000 <= h - (p + 5) < 0x8000_0000
    requires Ready(prog, x) && j < U64 - 1
    requires AtDepth(prog.code, p, |st| + 1) && AtDepth(prog.code, if j > 0 then h else p + 5, |st| + 1)
    ensures Reaches(prog, Here(p, x, With(st, j + 1), bt), Here(if j > 0 then h else p + 5, x, With(st, j), bt))
  {
    LoopStep(prog, p, h, j, x, st, bt);
    Goes(prog, Here(p, x, With(st, j + 1), bt), Here(if j > 0 then h else p + 5, x, With(st, j), bt));
  }

  lemma LoopDrops(prog: Program, p: nat, h: nat, d: nat)
    requires StandsAt(prog.code, p, Op5(OP_LOOP, h - (p + 5))) && -0x8000_0000 <= h - (p + 5) < 0x8000_0000
    requires Drops(prog, p + 5, p + 6, 0, d)
    requires AtDepth(prog.code, p, d + 1) && AtDepth(prog.code, p + 5, d + 1)
    ensures Drops(prog, p, p + 6, 1, d)
  {
    forall x, st, bt | Ready(prog, x) && |st| == d
      ensures Reaches(prog, Here(p, x, With(st, 1), bt), Here(p + 6, x, st, bt))
    {
      LoopGoes(prog, p, h, 0, x, st, bt);
      assert Reaches(prog, Here(p + 5, x, With(st, 0), bt), Here(p + 6, x, st, bt));
      Onward(prog, Here(p, x, With(st, 1), bt), Here(p + 5, x, With(st, 0), bt), Here(p + 6, x, st, bt));
    }
  }

  lemma DropDrops(prog: Program, p: nat, d: nat, k: nat)
    requires StandsAt(prog.code, p, [OP_DROP])
    requires AtDepth(prog.code, p, d + 1) && AtDepth(prog.code, p + 1, d)
    ensures Drops(prog, p, p + 1, k, d)
  {
    forall x, st, bt | Ready(prog, x) && |st| == d
      ensures Reaches(prog, Here(p, x, With(st, k), bt), Here(p + 1, x, st, bt))
    {
      DropGoes(prog, p, d, x, st, bt, k);
    }
  }

  /** What is needed of a counted loop: its head at `h` chooses between the body
      at `a` and the drop at `c`; the body ends at the loop instruction `p`,
      which goes back to the head or falls through the drop to `q`. */
  ghost predicate CountedLoop(prog: Program, h: nat, a: nat, p: nat, c: nat, q: nat, greedy: bool, d: nat,
                              f: Config -> seq<Config>) {
    && LoopSplit(prog, h, a, c, greedy, d + 1)
    && Does(prog, a, p, d + 1, f) && Forward(prog.inp, f) && Advances(prog.inp, f)
    && (forall k: nat {:trigger CountsDown(prog, p, h, k, d)} :: 1 <= k < INFINITY ==> CountsDown(prog, p, h, k, d))
    && Drops(prog, p, q, 1, d)
    && (forall k: nat {:trigger Drops(prog, c, q, k, d)} :: Drops(prog, c, q, k, d))
    && AtDepth(prog.code, q, d)
  }

  /** The exit of a counted loop. */
  lemma CountedExit(prog: Program, c: nat, q: nat, k: nat, x: Config, st: seq<nat>, bt: seq<Saved>)
    requires Drops(prog, c, q, k, |st|) && Ready(prog, x) && AtDepth(prog.code, q, |st|)
    ensures Explores(prog, Here(c, x, With(st, k), bt), [x], q, st, bt)
  {
    ExploreOne(prog, x, q, st, bt);
    ExploreAfter(prog, Here(c, x, With(st, k), bt), Here(q, x, st, bt), [x], q, st, bt);
  }

  lemma RepeatNone(inp: Input, f: Config -> seq<Config>, min: nat, greedy: bool, y: Config)
    ensures Repeat(inp, f, min, 0, greedy, y) == [y]
  {
  }

  lemma GoBack(prog: Program, p: nat, h: nat, j: nat, q: nat, y: Config, st: seq<nat>, bt: seq<Saved>, zs: seq<Config>)
    requires CountsDown(prog, p, h, j, |st|) && Ready(prog, y)
    requires Explores(prog, Here(h, y, With(st, j), bt), zs, q, st, bt)
    ensures Explores(prog, Here(p, y, With(st, j + 1), bt), zs, q, st, bt)
  {
    ExploreAfter(prog, Here(p, y, With(st, j + 1), bt), Here(h, y, With(st, j), bt), zs, q, st, bt);
  }

  /** A loop with at most `k + 1` passes left. */
  lemma {:induction false} CountedAt(prog: Program, h: nat, a: nat, p: nat, c: nat, q: nat, greedy: bool,
                                     f: Config -> seq<Config>, k: nat, x: Config, st: seq<nat>, bt: seq<Saved>)
    requires CountedLoop(prog, h, a, p, c, q, greedy, |st|, f)
    requires Ready(prog, x) && k < INFINITY - 1
    ensures Explores(prog, Here(h, x, With(st, k + 1), bt), Repeat(prog.inp, f, 0, k + 1, greedy, x), q, st, bt)
    decreases k, 1
  {
    var g := Repeater(prog.inp, f, 0, k, greedy);
    var ys, st1 := f(x), With(st, k + 1);
    ForwardReady(prog, f, x);
    forall i, bt1 | 0 <= i < |ys|
      ensures Explores(prog, Here(p, ys[i], st1, bt1), g(ys[i]), q, st, bt1)
    {
      CountedPass(prog, h, a, p, c, q, greedy, f, k, ys[i], st, bt1);
    }
    CountedTurn(prog, h, a, p, c, q, greedy, f, k, x, st, bt);
  }

  /** After a pass that leaves `k` passes. */
  lemma {:induction false} CountedPass(prog: Program, h: nat, a: nat, p: nat, c: nat, q: nat, greedy: bool,
                                       f: Config -> seq<Config>, k: nat, y: Config, st: seq<nat>, bt: seq<Saved>)
    requires CountedLoop(prog, h, a, p, c, q, greedy, |st|, f)
    requires Ready(prog, y) && k < INFINITY - 1
    ensures Explores(prog, Here(p, y, With(st, k + 1), bt), Repeat(prog.inp, f, 0, k, greedy, y), q, st, bt)
    decreases k, 0
  {
    if k == 0 {
      CountedExit(prog, p, q, 1, y, st, bt);
      RepeatNone(prog.inp, f, 0, greedy, y);
    } else {
      var j: nat := k - 1;
      CountedAt(prog, h, a, p, c, q, greedy, f, j, y, st, bt);
      CountedBack(prog, h, a, p, c, q, greedy, f, k, y, st, bt, Repeat(prog.inp, f, 0, k, greedy, y));
    }
  }

  lemma CountedBack(prog: Program, h: nat, a: nat, p: nat, c: nat, q: nat, greedy: bool,
                    f: Config -> seq<Config>, k: nat, y: Config, st: seq<nat>, bt: seq<Saved>, zs: seq<Config>)
    requires CountedLoop(prog, h, a, p, c, q, greedy, |st|, f)
    requires Ready(prog, y) && 1 <= k < INFINITY
    requires Explores(prog, Here(h, y, With(st, k), bt), zs, q, st, bt)
    ensures Explores(prog, Here(p, y, With(st, k + 1), bt), zs, q, st, bt)
  {
    assert CountsDown(prog, p, h, k, |st|);
    GoBack(prog, p, h, k, q, y, st, bt, zs);
  }

  lemma CountedTurn(prog: Program, h: nat, a: nat, p: nat, c: nat, q: nat, greedy: bool,
                    f: Config -> seq<Config>, k: nat, x: Config, st: seq<nat>, bt: seq<Saved>)
    requires CountedLoop(prog, h, a, p, c, q, greedy, |st|, f)
    requires Ready(prog, x) && k < INFINITY - 1
    requires Continues(prog, p, With(st, k + 1), f(x), Repeater(prog.inp, f, 0, k, greedy), q, st)
    ensures Explores(prog, Here(h, x, With(st, k + 1), bt), Repeat(prog.inp, f, 0, k + 1, greedy, x), q, st, bt)
  {
    var st1 := With(st, k + 1);
    var more := RepeatAll(prog.inp, f, 0, k + 1, greedy, f(x), x);
    assert OneLess(k + 1) == k;
    assert Drops(prog, c, q, k + 1, |st|);
    forall bt1: seq<Saved>
      ensures Explores(prog, Here(a, x, st1, bt1), more, q, st, bt1)
    {
      DoesAt(prog, a, p, |st| + 1, f, x, st1, bt1);
      EachRepeats(prog, Here(a, x, st1, bt1), p, st1, f, 0, k + 1, greedy, x, q, st, bt1);
    }
    forall bt1: seq<Saved>
      ensures Explores(prog, Here(c, x, st1, bt1), [x], q, st, bt1)
    {
      CountedExit(prog, c, q, k + 1, x, st, bt1);
    }
    LoopChoice(prog, h, a, c, greedy, x, st1, bt, more, q, st);
  }

  /** A counted loop, from the push of its counter. */
  lemma CountedFrom(prog: Program, p0: nat, h: nat, a: nat, p: nat, c: nat, q: nat, greedy: bool, d: nat,
                f: Config -> seq<Config>, n: nat)
    requires Roomy(prog) && StandsAt(prog.code, p0, Op5(OP_PUSH_I32, n)) && 1 <= n < INFINITY && h == p0 + 5
    requires AtDepth(prog.code, p0, d) && AtDepth(prog.code, h, d + 1)
    requires CountedLoop(prog, h, a, p, c, q, greedy, d, f)
    ensures Does(prog, p0, q, d, Repeater(prog.inp, f, 0, n, greedy))
  {
    forall x, st, bt | Ready(prog, x) && |st| == d
      ensures Explores(prog, Here(p0, x, st, bt), Repeat(prog.inp, f, 0, n, greedy, x), q, st, bt)
    {
      var k: nat := n - 1;
      assert With(st, k + 1) == st + [n];
      PushGoes(prog, p0, n, x, st, bt);
      CountedAt(prog, h, a, p, c, q, greedy, f, k, x, st, bt);
      ExploreAfter(prog, Here(p0, x, st, bt), Here(h, x, With(st, k + 1), bt),
                   Repeat(prog.inp, f, 0, n, greedy, x), q, st, bt);
    }
  }

  // ---------------------------------------------------------------------
  // Mandatory repetitions
  // ---------------------------------------------------------------------

  /** The body at `m` ends at the loop instruction `p`, which goes back to it or
      falls through a drop to `q2`, where up to `n` further repetitions start. */
  ghost predicate MandatoryLoop(prog: Program, m: nat, p: nat, q2: nat, q: nat, greedy: bool, d: nat,
                                f: Config -> seq<Config>, n: nat) {
    && Does(prog, m, p, d + 1, f) && Forward(prog.inp, f)
    && (forall k: nat {:trigger CountsDown(prog, p, m, k, d)} :: 1 <= k < INFINITY ==> CountsDown(prog, p, m, k, d))
    && Drops(prog, p, q2, 1, d)
    && Does(prog, q2, q, d, Repeater(prog.inp, f, 0, n, greedy))
  }

  /** `k + 1` mandatory repetitions are left, of at most `max`. */
  lemma {:induction false} MandatoryAt(prog: Program, m: nat, p: nat, q2: nat, q: nat, greedy: bool,
                                       f: Config -> seq<Config>, n: nat, k: nat, max: nat,
                                       x: Config, st: seq<nat>, bt: seq<Saved>)
    requires MandatoryLoop(prog, m, p, q2, q, greedy, |st|, f, n)
    requires Ready(prog, x) && k < INFINITY && k + 1 <= max <= INFINITY && n == Further(k + 1, max)
    ensures Explores(prog, Here(m, x, With(st, k + 1), bt), Repeat(prog.inp, f, k + 1, max, greedy, x), q, st, bt)
    decreases k, 1
  {
    var g := Repeater(prog.inp, f, k, OneLess(max), greedy);
    var ys, st1 := f(x), With(st, k + 1);
    ForwardReady(prog, f, x);
    forall i, bt1 | 0 <= i < |ys|
      ensures Explores(prog, Here(p, ys[i], st1, bt1), g(ys[i]), q, st, bt1)
    {
      MandatoryPass(prog, m, p, q2, q, greedy, f, n, k, OneLess(max), ys[i], st, bt1);
    }
    MandatoryTurn(prog, m, p, q2, q, greedy, f, n, k, max, x, st, bt);
  }

  lemma MandatoryTurn(prog: Program, m: nat, p: nat, q2: nat, q: nat, greedy: bool,
                      f: Config -> seq<Config>, n: nat, k: nat, max: nat, x: Config, st: seq<nat>, bt: seq<Saved>)
    requires MandatoryLoop(prog, m, p, q2, q, greedy, |st|, f, n) && Ready(prog, x) && max > 0
    requires Continues(prog, p, With(st, k + 1), f(x), Repeater(prog.inp, f, k, OneLess(max), greedy), q, st)
    ensures Explores(prog, Here(m, x, With(st, k + 1), bt), Repeat(prog.inp, f, k + 1, max, greedy, x), q, st, bt)
  {
    var st1 := With(st, k + 1);
    assert Before(k + 1) == k;
    DoesAt(prog, m, p, |st| + 1, f, x, st1, bt);
    EachRepeats(prog, Here(m, x, st1, bt), p, st1, f, k + 1, max, greedy, x, q, st, bt);
  }

  lemma {:induction false} MandatoryPass(prog: Program, m: nat, p: nat, q2: nat, q: nat, greedy: bool,
                                         f: Config -> seq<Config>, n: nat, k: nat, max: nat,
                                         y: Config, st: seq<nat>, bt: seq<Saved>)
    requires MandatoryLoop(prog, m, p, q2, q, greedy, |st|, f, n)
    requires Ready(prog, y) && k < INFINITY && k <= max <= INFINITY && n == Further(k, max)
    ensures Explores(prog, Here(p, y, With(st, k + 1), bt), Repeat(prog.inp, f, k, max, greedy, y), q, st, bt)
    decreases k, 0
  {
    var zs := Repeat(prog.inp, f, k, max, greedy, y);
    if k == 0 {
      DoesAt(prog, q2, q, |st|, Repeater(prog.inp, f, 0, n, greedy), y, st, bt);
      assert Reaches(prog, Here(p, y, With(st, 1), bt), Here(q2, y, st, bt));
      ExploreAfter(prog, Here(p, y, With(st, 1), bt), Here(q2, y, st, bt), zs, q, st, bt);
    } else {
      var j: nat := k - 1;
      MandatoryAt(prog, m, p, q2, q, greedy, f, n, j, max, y, st, bt);
      assert CountsDown(prog, p, m, k, |st|);
      GoBack(prog, p, m, k, q, y, st, bt, zs);
    }
  }

  /** `min` mandatory repetitions, from the push of their counter. */
  lemma Mandatory(prog: Program, p0: nat, m: nat, p: nat, q2: nat, q: nat, greedy: bool, d: nat,
                  f: Config -> seq<Config>, n: nat, min: nat, max: nat)
    requires Roomy(prog) && StandsAt(prog.code, p0, Op5(OP_PUSH_I32, min)) && m == p0 + 5
    requires 1 <= min <= max <= INFINITY && n == Further(min, max)
    requires AtDepth(prog.code, p0, d) && AtDepth(prog.code, m, d + 1)
    requires MandatoryLoop(prog, m, p, q2, q, greedy, d, f, n)
    ensures Does(prog, p0, q, d, Repeater(prog.inp, f, min, max, greedy))
  {
    forall x, st, bt | Ready(prog, x) && |st| == d
      ensures Explores(prog, Here(p0, x, st, bt), Repeat(prog.inp, f, min, max, greedy, x), q, st, bt)
    {
      var k: nat := min - 1;
      assert With(st, k + 1) == st + [min];
      PushGoes(prog, p0, min, x, st, bt);
      MandatoryAt(prog, m, p, q2, q, greedy, f, n, k, max, x, st, bt);
      ExploreAfter(prog, Here(p0, x, st, bt), Here(m, x, With(st, k + 1), bt),
                   Repeat(prog.inp, f, min, max, greedy, x), q, st, bt);
    }
  }

  /** One mandatory repetition, and up to `n` further ones. */
  lemma MandatoryOnce(prog: Program, p: nat, q2: nat, q: nat, greedy: bool, d: nat, f: Config -> seq<Config>, max: nat)
    requires Does(prog, p, q2, d, f) && Forward(prog.inp, f) && 1 <= max <= INFINITY
    requires Does(prog, q2, q, d, Repeater(prog.inp, f, 0, Further(1, max), greedy))
    ensures Does(prog, p, q, d, Repeater(prog.inp, f, 1, max, greedy))
  {
    forall x ensures Repeater(prog.inp, f, 1, max, greedy)(x)
                  == FlatMap(f(x), Repeater(prog.inp, f, 0, Further(1, max), greedy)) {
      RepeatAllFlat(prog.inp, f, 1, max, greedy, f(x), x);
    }
    Sequence(prog, p, q2, q, d, f, Repeater(prog.inp, f, 0, Further(1, max), greedy),
             Repeater(prog.inp, f, 1, max, greedy));
  }

  // ---------------------------------------------------------------------
  // Atoms that move on
  // ---------------------------------------------------------------------

  /** `g` lists what `f` lists, without what has not moved. */
  ghost predicate OnlyMoved(inp: Input, f: Config -> seq<Config>, g: Config -> seq<Config>) {
    forall x: Config {:trigger g(x)} :: x.pos <= |inp.cbuf| ==> g(x) == Moved(f(x), x.pos)
  }

  lemma {:induction false} MovedAdvances(inp: Input, ys: seq<Config>, x: Config)
    requires AllFollow(inp, x, ys)
    ensures AllFollow(inp, x, Moved(ys, x.pos))
    ensures forall i :: 0 <= i < |Moved(ys, x.pos)| ==> Advanced(inp, x, Moved(ys, x.pos)[i])
    decreases |ys|
  {
    if ys != [] {
      assert Follows(inp, x, ys[0]);
      forall i | 0 <= i < |ys[1..]| ensures Follows(inp, x, ys[1..][i]) { assert Follows(inp, x, ys[i + 1]); }
      MovedAdvances(inp, ys[1..], x);
    }
  }

  lemma OnlyMovedAdvances(inp: Input, f: Config -> seq<Config>, g: Config -> seq<Config>)
    requires Forward(inp, f) && OnlyMoved(inp, f, g)
    ensures Forward(inp, g) && Advances(inp, g)
  {
    forall x: Config | x.pos <= |inp.cbuf|
      ensures AllFollow(inp, x, g(x))
      ensures forall i :: 0 <= i < |g(x)| ==> Advanced(inp, x, g(x)[i])
    {
      assert AllFollow(inp, x, f(x));
      MovedAdvances(inp, f(x), x);
    }
  }

  /** Leaving out what has not moved does not change further repetitions. */
  lemma {:induction false} RepeatMoved(inp: Input, f: Config -> seq<Config>, g: Config -> seq<Config>,
                                       max: nat, greedy: bool, x: Config)
    requires Forward(inp, f) && OnlyMoved(inp, f, g) && x.pos <= |inp.cbuf|
    ensures Repeat(inp, g, 0, max, greedy, x) == Repeat(inp, f, 0, max, greedy, x)
    decreases Remaining(inp, x), 1, 0
  {
    if max > 0 {
      assert AllFollow(inp, x, f(x));
      RepeatMovedAll(inp, f, g, max, greedy, f(x), x);
    }
  }

  lemma {:induction false} RepeatMovedAll(inp: Input, f: Config -> seq<Config>, g: Config -> seq<Config>,
                                          max: nat, greedy: bool, ys: seq<Config>, x: Config)
    requires Forward(inp, f) && OnlyMoved(inp, f, g) && AllFollow(inp, x, ys)
    ensures RepeatAll(inp, g, 0, max, greedy, Moved(ys, x.pos), x) == RepeatAll(inp, f, 0, max, greedy, ys, x)
    decreases Remaining(inp, x), 0, |ys|
  {
    if ys != [] {
      assert Follows(inp, x, ys[0]);
      forall i | 0 <= i < |ys[1..]| ensures Follows(inp, x, ys[1..][i]) { assert Follows(inp, x, ys[i + 1]); }
      var rest := Moved(ys[1..], x.pos);
      RepeatMovedAll(inp, f, g, max, greedy, ys[1..], x);
      if ys[0].pos != x.pos {
        RepeatMoved(inp, f, g, OneLess(max), greedy, ys[0]);
        assert Moved(ys, x.pos) == [ys[0]] + rest && ([ys[0]] + rest)[1..] == rest;
      } else {
        assert Moved(ys, x.pos) == rest;
        assert RepeatAll(inp, f, 0, max, greedy, ys, x) == RepeatAll(inp, f, 0, max, greedy, ys[1..], x);
      }
    }
  }
}
