/** The code of quantifiers does what repetition means, in every form the
    compiler chooses. */
module RegexQuantifiers {
  import opened CharSets
  import opened Common
  import opened RegexSyntax
  import opened RegexCode
  import opened RegexMachine
  import opened RegexShape
  import opened RegexAtoms
  import opened RegexPaths
  import opened RegexMoves
  import opened RegexLoops
  import opened RegexGreedy
  import opened RegexCorrect

  // ---------------------------------------------------------------------
  // The guarded atom
  // ---------------------------------------------------------------------

  function Mover(f: Config -> seq<Config>): Config -> seq<Config> {
    x => Moved(f(x), x.pos)
  }

  lemma {:induction false} MovedSame(ys: seq<Config>, pos: nat)
    requires forall i :: 0 <= i < |ys| ==> ys[i].pos != pos
    ensures Moved(ys, pos) == ys
  {
    if ys != [] {
      MovedSame(ys[1..], pos);
      assert [ys[0]] + ys[1..] == ys;
    }
  }

  /** Two lists of ways that agree on every configuration inside the subject. */
  ghost predicate Agree(inp: Input, f: Config -> seq<Config>, g: Config -> seq<Config>) {
    forall x: Config {:trigger g(x)} :: x.pos <= |inp.cbuf| ==> f(x) == g(x)
  }

  lemma BehavesSame(prog: Program, c: seq<Byte>, f: Config -> seq<Config>, g: Config -> seq<Config>)
    requires Behaves(prog, c, f) && Agree(prog.inp, f, g)
    ensures Behaves(prog, c, g)
  {
    forall p: nat, d: nat | Lies(prog.code, p, c, d)
      ensures Does(prog, p, p + |c|, d, g)
    {
      BehavesAt(prog, c, f, p, d);
      forall x, st, bt | Ready(prog, x) && |st| == d
        ensures Explores(prog, Here(p, x, st, bt), g(x), p + |c|, st, bt)
      {
        DoesAt(prog, p, p + |c|, d, f, x, st, bt);
        assert f(x) == g(x);
      }
    }
  }

  lemma CheckedParts(bc: seq<Byte>, p: nat, c: seq<Byte>, d: int)
    requires Lies(bc, p, Guarded(c, true), d) && Balanced(c)
    ensures Lies(bc, p + 1, c, d + 1)
    ensures StandsAt(bc, p, [OP_PUSH_CHAR_POS]) && StandsAt(bc, p + 1 + |c|, [OP_CHECK_ADVANCE])
  {
    assert Guarded(c, true) == [OP_PUSH_CHAR_POS] + (c + [OP_CHECK_ADVANCE]);
    Parts(bc, p, [OP_PUSH_CHAR_POS], c + [OP_CHECK_ADVANCE]);
    Instruction([OP_PUSH_CHAR_POS]);
    Walk(bc, p, [OP_PUSH_CHAR_POS], d);
    Parts(bc, p + 1, c, [OP_CHECK_ADVANCE]);
    Walk(bc, p + 1, c, d + 1);
  }

  lemma CheckedBehaves(prog: Program, c: seq<Byte>, f: Config -> seq<Config>)
    requires Roomy(prog) && Behaves(prog, c, f) && Balanced(c) && Forward(prog.inp, f)
    ensures Behaves(prog, Guarded(c, true), Mover(f))
  {
    forall p: nat, d: nat | Lies(prog.code, p, Guarded(c, true), d)
      ensures Does(prog, p, p + |Guarded(c, true)|, d, Mover(f))
    {
      CheckedParts(prog.code, p, c, d);
      BehavesAt(prog, c, f, p + 1, d + 1);
      Checked(prog, p, p + 1 + |c|, d, f, Mover(f));
    }
  }

  lemma GuardedBehaves(prog: Program, c: seq<Byte>, check: bool, f: Config -> seq<Config>)
    requires Roomy(prog) && Behaves(prog, c, f) && Balanced(c) && Forward(prog.inp, f)
    requires !check ==> Advances(prog.inp, f)
    ensures Behaves(prog, Guarded(c, check), Mover(f))
  {
    if check {
      CheckedBehaves(prog, c, f);
    } else {
      forall x: Config | x.pos <= |prog.inp.cbuf| ensures f(x) == Mover(f)(x) {
        var ys := f(x);
        forall i | 0 <= i < |ys| ensures ys[i].pos != x.pos { assert Advanced(prog.inp, x, ys[i]); }
        MovedSame(ys, x.pos);
      }
      BehavesSame(prog, c, f, Mover(f));
    }
  }

  // ---------------------------------------------------------------------
  // Optional repetitions
  // ---------------------------------------------------------------------

  lemma StarParts(bc: seq<Byte>, p: nat, a: seq<Byte>, greedy: bool, d: int)
    requires Lies(bc, p, StarCode(a, greedy), d) && Balanced(a)
    ensures Lies(bc, p, Op5(SplitOp(greedy), |a| + 5), d)
    ensures Lies(bc, p + 5, a, d)
    ensures Lies(bc, p + 5 + |a|, Op5(OP_GOTO, -(|a| + 10)), d)
  {
    var split, goto := Op5(SplitOp(greedy), |a| + 5), Op5(OP_GOTO, -(|a| + 10));
    assert StarCode(a, greedy) == split + (a + goto);
    LiesOp(bc, p, split, a + goto, d);
    LiesParts(bc, p + 5, a, goto, d);
  }

  lemma LoopSplits(prog: Program, p: nat, v: int, greedy: bool, d: nat)
    requires StandsAt(prog.code, p, Op5(SplitOp(greedy), v)) && -0x8000_0000 <= v < 0x8000_0000 && p + 5 + v >= 0
    requires AtDepth(prog.code, p, d) && AtDepth(prog.code, p + 5, d) && AtDepth(prog.code, p + 5 + v, d)
    ensures LoopSplit(prog, p, p + 5, p + 5 + v, greedy, d)
  {
    SplitSaves(prog, p, !greedy, v, d);
  }

  lemma StarBehaves(prog: Program, a: seq<Byte>, greedy: bool, g: Config -> seq<Config>)
    requires Roomy(prog) && Behaves(prog, a, g) && Balanced(a) && Forward(prog.inp, g) && Advances(prog.inp, g)
    ensures Behaves(prog, StarCode(a, greedy), Repeater(prog.inp, g, 0, INFINITY, greedy))
  {
    forall p: nat, d: nat | Lies(prog.code, p, StarCode(a, greedy), d)
      ensures Does(prog, p, p + |StarCode(a, greedy)|, d, Repeater(prog.inp, g, 0, INFINITY, greedy))
    {
      StarParts(prog.code, p, a, greedy, d);
      BehavesAt(prog, a, g, p + 5, d);
      Jumps(prog, p + 5 + |a|, -(|a| + 10), d, Just());
      ComposesJust(g);
      Sequence(prog, p + 5, p + 5 + |a|, p, d, g, Just(), g);
      LoopSplits(prog, p, |a| + 5, greedy, d);
      Star(prog, p, p + 5, p + 5 + (|a| + 5), greedy, d, g);
    }
  }

  lemma RepeatAtMostOnce(inp: Input, g: Config -> seq<Config>, greedy: bool, x: Config)
    requires Advances(inp, g) && x.pos <= |inp.cbuf|
    ensures Repeat(inp, g, 0, 1, greedy, x) == if greedy then g(x) + [x] else [x] + g(x)
  {
    forall i | 0 <= i < |g(x)| ensures Advanced(inp, x, g(x)[i]) {}
    RepeatAllFlat(inp, g, 0, 1, greedy, g(x), x);
    FlatMapLast(inp, g, greedy, g(x));
  }

  lemma {:induction false} FlatMapLast(inp: Input, g: Config -> seq<Config>, greedy: bool, ys: seq<Config>)
    ensures FlatMap(ys, Repeater(inp, g, 0, 0, greedy)) == ys
  {
    if ys != [] {
      FlatMapLast(inp, g, greedy, ys[1..]);
      assert [ys[0]] + ys[1..] == ys;
    }
  }

  lemma OnceBehaves(prog: Program, a: seq<Byte>, greedy: bool, g: Config -> seq<Config>)
    requires Roomy(prog) && Behaves(prog, a, g) && Balanced(a) && Forward(prog.inp, g) && Advances(prog.inp, g)
    ensures Behaves(prog, OnceCode(a, greedy), Repeater(prog.inp, g, 0, 1, greedy))
  {
    var h: Config -> seq<Config> := x => if greedy then g(x) + [x] else [x] + g(x);
    forall p: nat, d: nat | Lies(prog.code, p, OnceCode(a, greedy), d)
      ensures Does(prog, p, p + |OnceCode(a, greedy)|, d, h)
    {
      var q := p + 5 + |a|;
      LiesOp(prog.code, p, Op5(SplitOp(greedy), |a|), a, d);
      BehavesAt(prog, a, g, p + 5, d);
      LoopSplits(prog, p, |a|, greedy, d);
      Nothing(prog, q, d, Just());
      if greedy {
        Either(prog, p, p + 5, q, q, d, g, Just(), h);
      } else {
        Either(prog, p, q, p + 5, q, d, Just(), g, h);
      }
    }
    forall x: Config | x.pos <= |prog.inp.cbuf| ensures h(x) == Repeater(prog.inp, g, 0, 1, greedy)(x) {
      RepeatAtMostOnce(prog.inp, g, greedy, x);
    }
    BehavesSame(prog, OnceCode(a, greedy), h, Repeater(prog.inp, g, 0, 1, greedy));
  }

  lemma CountedRegroup(push: seq<Byte>, split: seq<Byte>, a: seq<Byte>, loop: seq<Byte>, drop: seq<Byte>)
    ensures push + split + a + loop + drop == push + ((split + (a + loop)) + drop)
  {
  }

  /** A body that starts with a split and ends with the loop instruction. */
  lemma LoopParts(bc: seq<Byte>, p: nat, split: seq<Byte>, a: seq<Byte>, loop: seq<Byte>, d: int)
    requires StandsAt(bc, p, split + (a + loop)) && AtDepth(bc, p, d) && Balanced(a)
    requires split != [] && InstrSize(split) == |split| && Delta(split[0]) == 0
    requires loop != [] && InstrSize(loop) == |loop| && Delta(loop[0]) == 0
    ensures Lies(bc, p, split, d) && Lies(bc, p + |split|, a, d) && Lies(bc, p + |split| + |a|, loop, d)
  {
    BalancedOp(split);
    BalancedOp(loop);
    Parts(bc, p, split, a + loop);
    Parts(bc, p + |split|, a, loop);
    Walk(bc, p, split, d);
    Walk(bc, p + |split|, a, d);
    Walk(bc, p + |split| + |a|, loop, d);
  }

  lemma CountedParts(bc: seq<Byte>, p: nat, a: seq<Byte>, n: nat, greedy: bool, d: int)
    requires Lies(bc, p, CountedCode(a, n, greedy), d) && Balanced(a)
    ensures StandsAt(bc, p, Op5(OP_PUSH_I32, n))
    ensures Lies(bc, p + 5, Op5(SplitOp(greedy), |a| + 5), d + 1)
    ensures Lies(bc, p + 10, a, d + 1)
    ensures Lies(bc, p + 10 + |a|, Op5(OP_LOOP, -(|a| + 10)), d + 1)
    ensures StandsAt(bc, p + 15 + |a|, [OP_DROP])
  {
    var push, split, loop := Op5(OP_PUSH_I32, n), Op5(SplitOp(greedy), |a| + 5), Op5(OP_LOOP, -(|a| + 10));
    var drop: seq<Byte> := [OP_DROP];
    CountedRegroup(push, split, a, loop, drop);
    Parts(bc, p, push, (split + (a + loop)) + drop);
    Instruction(push);
    Walk(bc, p, push, d);
    Parts(bc, p + 5, split + (a + loop), drop);
    LoopParts(bc, p + 5, split, a, loop, d + 1);
  }

  lemma CountedLies(prog: Program, p: nat, a: seq<Byte>, n: nat, greedy: bool, d: nat, g: Config -> seq<Config>)
    requires Roomy(prog) && Lies(prog.code, p, CountedCode(a, n, greedy), d) && Balanced(a)
    requires Behaves(prog, a, g) && Forward(prog.inp, g) && Advances(prog.inp, g)
    ensures CountedLoop(prog, p + 5, p + 10, p + 10 + |a|, p + 15 + |a|, p + 16 + |a|, greedy, d, g)
  {
    var h, lp := p + 5, p + 10 + |a|;
    var drop, end := lp + 5, lp + 6;
    CountedParts(prog.code, p, a, n, greedy, d);
    LoopSplits(prog, h, |a| + 5, greedy, d + 1);
    BehavesAt(prog, a, g, p + 10, d + 1);
    forall k: nat | 1 <= k < INFINITY ensures CountsDown(prog, lp, h, k, d) {
      LoopCounts(prog, lp, h, d, k);
    }
    forall k: nat ensures Drops(prog, drop, end, k, d) {
      DropDrops(prog, drop, d, k);
    }
    LoopDrops(prog, lp, h, d);
  }

  lemma CountedBehaves(prog: Program, a: seq<Byte>, n: nat, greedy: bool, g: Config -> seq<Config>)
    requires Roomy(prog) && Behaves(prog, a, g) && Balanced(a) && Forward(prog.inp, g) && Advances(prog.inp, g)
    requires 1 <= n < INFINITY
    ensures Behaves(prog, CountedCode(a, n, greedy), Repeater(prog.inp, g, 0, n, greedy))
  {
    forall p: nat, d: nat | Lies(prog.code, p, CountedCode(a, n, greedy), d)
      ensures Does(prog, p, p + |CountedCode(a, n, greedy)|, d, Repeater(prog.inp, g, 0, n, greedy))
    {
      CountedParts(prog.code, p, a, n, greedy, d);
      CountedLies(prog, p, a, n, greedy, d, g);
      CountedFrom(prog, p, p + 5, p + 10, p + 10 + |a|, p + 15 + |a|, p + 16 + |a|, greedy, d, g, n);
    }
  }

  lemma NothingBehaves(prog: Program, f: Config -> seq<Config>)
    requires forall x {:trigger f(x)} :: f(x) == [x]
    ensures Behaves(prog, [], f)
  {
    forall p: nat, d: nat | Lies(prog.code, p, [], d)
      ensures Does(prog, p, p + 0, d, f)
    {
      Nothing(prog, p, d, f);
    }
  }

  lemma FurtherBehaves(prog: Program, a: seq<Byte>, n: nat, greedy: bool, g: Config -> seq<Config>)
    requires Roomy(prog) && Behaves(prog, a, g) && Balanced(a) && Forward(prog.inp, g) && Advances(prog.inp, g)
    requires n <= INFINITY
    ensures Behaves(prog, FurtherCode(a, n, greedy), Repeater(prog.inp, g, 0, n, greedy))
  {
    if n == INFINITY {
      StarBehaves(prog, a, greedy, g);
    } else if n > 0 {
      CountedBehaves(prog, a, n, greedy, g);
    } else {
      forall x ensures Repeater(prog.inp, g, 0, 0, greedy)(x) == [x] {
        RepeatNone(prog.inp, g, 0, greedy, x);
      }
      NothingBehaves(prog, Repeater(prog.inp, g, 0, 0, greedy));
    }
  }

  /** Further repetitions of a guarded atom are further repetitions of the atom. */
  lemma RepeatersAgree(inp: Input, f: Config -> seq<Config>, n: nat, greedy: bool)
    requires Forward(inp, f)
    ensures Agree(inp, Repeater(inp, Mover(f), 0, n, greedy), Repeater(inp, f, 0, n, greedy))
  {
    forall x: Config | x.pos <= |inp.cbuf|
      ensures Repeater(inp, Mover(f), 0, n, greedy)(x) == Repeater(inp, f, 0, n, greedy)(x)
    {
      RepeatMoved(inp, f, Mover(f), n, greedy, x);
    }
  }

  lemma FurtherRepeats(prog: Program, c: seq<Byte>, check: bool, n: nat, greedy: bool, f: Config -> seq<Config>)
    requires Roomy(prog) && Behaves(prog, c, f) && Balanced(c) && Forward(prog.inp, f) && n <= INFINITY
    requires !check ==> Advances(prog.inp, f)
    ensures Behaves(prog, FurtherCode(Guarded(c, check), n, greedy), Repeater(prog.inp, f, 0, n, greedy))
  {
    GuardedBehaves(prog, c, check, f);
    GuardedBalanced(c, check);
    OnlyMovedAdvances(prog.inp, f, Mover(f));
    FurtherBehaves(prog, Guarded(c, check), n, greedy, Mover(f));
    RepeatersAgree(prog.inp, f, n, greedy);
    BehavesSame(prog, FurtherCode(Guarded(c, check), n, greedy),
                Repeater(prog.inp, Mover(f), 0, n, greedy), Repeater(prog.inp, f, 0, n, greedy));
  }

  lemma OptionalRepeats(prog: Program, c: seq<Byte>, check: bool, max: nat, greedy: bool, f: Config -> seq<Config>)
    requires Roomy(prog) && Behaves(prog, c, f) && Balanced(c) && Forward(prog.inp, f) && max <= INFINITY
    requires !check ==> Advances(prog.inp, f)
    ensures Behaves(prog, OptionalCode(Guarded(c, check), max, greedy), Repeater(prog.inp, f, 0, max, greedy))
  {
    if max == 1 {
      GuardedBehaves(prog, c, check, f);
      GuardedBalanced(c, check);
      OnlyMovedAdvances(prog.inp, f, Mover(f));
      OnceBehaves(prog, Guarded(c, check), greedy, Mover(f));
      RepeatersAgree(prog.inp, f, 1, greedy);
      BehavesSame(prog, OnceCode(Guarded(c, check), greedy),
                  Repeater(prog.inp, Mover(f), 0, 1, greedy), Repeater(prog.inp, f, 0, 1, greedy));
    } else {
      FurtherRepeats(prog, c, check, max, greedy, f);
    }
  }

  // ---------------------------------------------------------------------
  // Mandatory repetitions
  // ---------------------------------------------------------------------

  lemma PlusBehaves(prog: Program, c: seq<Byte>, greedy: bool, f: Config -> seq<Config>)
    requires Roomy(prog) && Behaves(prog, c, f) && Balanced(c) && Forward(prog.inp, f) && Advances(prog.inp, f)
    ensures Behaves(prog, PlusCode(c, greedy), Repeater(prog.inp, f, 1, INFINITY, greedy))
  {
    forall p: nat, d: nat | Lies(prog.code, p, PlusCode(c, greedy), d)
      ensures Does(prog, p, p + |PlusCode(c, greedy)|, d, Repeater(prog.inp, f, 1, INFINITY, greedy))
    {
      var h := p + |c|;
      LiesParts(prog.code, p, c, Op5(SplitOp(!greedy), -(|c| + 5)), d);
      BehavesAt(prog, c, f, p, d);
      SplitSaves(prog, h, greedy, -(|c| + 5), d);
      Star(prog, h, p, h + 5, greedy, d, f);
      MandatoryOnce(prog, p, h, h + 5, greedy, d, f, INFINITY);
    }
  }

  /** Mandatory repetitions, followed by code `t` for the further ones. */
  lemma MandatoryBehaves(prog: Program, c: seq<Byte>, min: nat, max: nat, greedy: bool, f: Config -> seq<Config>,
                         t: seq<Byte>)
    requires Roomy(prog) && Behaves(prog, c, f) && Balanced(c) && Forward(prog.inp, f)
    requires 1 <= min <= max <= INFINITY
    requires Behaves(prog, t, Repeater(prog.inp, f, 0, Further(min, max), greedy))
    ensures Behaves(prog, MandatoryCode(c, min) + t, Repeater(prog.inp, f, min, max, greedy))
  {
    ThenBehaves(prog, c, min, max, greedy, f, t, Repeater(prog.inp, f, 0, Further(min, max), greedy),
                Repeater(prog.inp, f, min, max, greedy), MandatoryCode(c, min) + t);
  }

  lemma ThenBehaves(prog: Program, c: seq<Byte>, min: nat, max: nat, greedy: bool, f: Config -> seq<Config>, t: seq<Byte>,
                    g: Config -> seq<Config>, h: Config -> seq<Config>, s: seq<Byte>)
    requires Roomy(prog) && Behaves(prog, c, f) && Balanced(c) && Forward(prog.inp, f)
    requires 1 <= min <= max <= INFINITY && g == Repeater(prog.inp, f, 0, Further(min, max), greedy)
    requires h == Repeater(prog.inp, f, min, max, greedy) && Behaves(prog, t, g) && s == MandatoryCode(c, min) + t
    ensures Behaves(prog, s, h)
  {
    forall p: nat, d: nat | Lies(prog.code, p, s, d)
      ensures Does(prog, p, p + |s|, d, h)
    {
      MandatoryLies(prog, c, min, max, greedy, f, t, s, p, d, g, h);
    }
  }

  lemma MandatoryLies(prog: Program, c: seq<Byte>, min: nat, max: nat, greedy: bool, f: Config -> seq<Config>,
                      t: seq<Byte>, s: seq<Byte>, p: nat, d: nat, g: Config -> seq<Config>, h: Config -> seq<Config>)
    requires Roomy(prog) && Behaves(prog, c, f) && Balanced(c) && Forward(prog.inp, f)
    requires 1 <= min <= max <= INFINITY && g == Repeater(prog.inp, f, 0, Further(min, max), greedy)
    requires h == Repeater(prog.inp, f, min, max, greedy) && Behaves(prog, t, g)
    requires s == MandatoryCode(c, min) + t && Lies(prog.code, p, s, d)
    ensures Does(prog, p, p + |s|, d, h)
  {
    MandatoryBalanced(c, min);
    LiesParts(prog.code, p, MandatoryCode(c, min), t, d);
    BehavesAt(prog, t, g, p + |MandatoryCode(c, min)|, d);
    if min == 1 {
      OnceThen(prog, c, max, greedy, f, p, p + |c| + |t|, d);
    } else {
      CountedTimes(prog, c, min, max, greedy, f, p, p + |MandatoryCode(c, min)| + |t|, d);
    }
  }

  lemma OnceThen(prog: Program, c: seq<Byte>, max: nat, greedy: bool, f: Config -> seq<Config>, p: nat, q: nat, d: nat)
    requires Roomy(prog) && Behaves(prog, c, f) && Balanced(c) && Forward(prog.inp, f)
    requires 1 <= max <= INFINITY && Lies(prog.code, p, MandatoryCode(c, 1), d)
    requires Does(prog, p + |MandatoryCode(c, 1)|, q, d, Repeater(prog.inp, f, 0, Further(1, max), greedy))
    ensures Does(prog, p, q, d, Repeater(prog.inp, f, 1, max, greedy))
  {
    BehavesAt(prog, c, f, p, d);
    MandatoryOnce(prog, p, p + |c|, q, greedy, d, f, max);
  }

  lemma TimesRegroup(push: seq<Byte>, a: seq<Byte>, loop: seq<Byte>, drop: seq<Byte>)
    ensures push + a + loop + drop == push + ((a + loop) + drop)
  {
  }

  lemma TimesParts(bc: seq<Byte>, p: nat, c: seq<Byte>, min: nat, d: int)
    requires Lies(bc, p, MandatoryCode(c, min), d) && Balanced(c) && min != 1
    ensures StandsAt(bc, p, Op5(OP_PUSH_I32, min))
    ensures Lies(bc, p + 5, c, d + 1)
    ensures Lies(bc, p + 5 + |c|, Op5(OP_LOOP, -(|c| + 5)), d + 1)
    ensures StandsAt(bc, p + 10 + |c|, [OP_DROP])
  {
    var push, loop := Op5(OP_PUSH_I32, min), Op5(OP_LOOP, -(|c| + 5));
    var drop: seq<Byte> := [OP_DROP];
    TimesRegroup(push, c, loop, drop);
    Parts(bc, p, push, (c + loop) + drop);
    Instruction(push);
    Walk(bc, p, push, d);
    Parts(bc, p + 5, c + loop, drop);
    Parts(bc, p + 5, c, loop);
    Walk(bc, p + 5, c, d + 1);
    BalancedOp(loop);
    Walk(bc, p + 5 + |c|, loop, d + 1);
  }

  lemma CountedTimes(prog: Program, c: seq<Byte>, min: nat, max: nat, greedy: bool, f: Config -> seq<Config>,
                     p: nat, q: nat, d: nat)
    requires Roomy(prog) && Behaves(prog, c, f) && Balanced(c) && Forward(prog.inp, f)
    requires 1 < min <= max <= INFINITY && Lies(prog.code, p, MandatoryCode(c, min), d)
    requires Does(prog, p + 11 + |c|, q, d, Repeater(prog.inp, f, 0, Further(min, max), greedy))
    ensures Does(prog, p, q, d, Repeater(prog.inp, f, min, max, greedy))
  {
    var m, lp := p + 5, p + 5 + |c|;
    var drop, end := lp + 5, lp + 6;
    TimesParts(prog.code, p, c, min, d);
    BehavesAt(prog, c, f, m, d + 1);
    forall k: nat | 1 <= k < INFINITY ensures CountsDown(prog, lp, m, k, d) {
      LoopCounts(prog, lp, m, d, k);
    }
    DropDrops(prog, drop, d, 0);
    LoopDrops(prog, lp, m, d);
    Mandatory(prog, p, m, lp, end, q, greedy, d, f, Further(min, max), min, max);
  }

  // ---------------------------------------------------------------------
  // Capture reset
  // ---------------------------------------------------------------------

  function Resetter(b: nat, g: nat): Config -> seq<Config> {
    (x: Config) => [x.(caps := ResetMarks(x.caps, b, b + g))]
  }

  lemma ResetStep(prog: Program, p: nat, b: Byte, g: nat, x: Config, st: seq<nat>, bt: seq<Saved>)
    requires g > 0 && b + g <= prog.captures <= 255 && Ready(prog, x)
    requires StandsAt(prog.code, p, ResetCode(b, g))
    ensures Step(prog, Here(p, x, st, bt)) == Here(p + 3, x.(caps := ResetMarks(x.caps, b, b + g)), st, bt)
  {
    ByteOf(prog.code, p, ResetCode(b, g), 0);
    ByteOf(prog.code, p, ResetCode(b, g), 1);
    ByteOf(prog.code, p, ResetCode(b, g), 2);
  }

  lemma ResetBehaves(prog: Program, b: Byte, g: nat)
    requires b + g <= prog.captures <= 255
    ensures Behaves(prog, ResetCode(b, g), Resetter(b, g)) && Balanced(ResetCode(b, g))
  {
    var f, c := Resetter(b, g), ResetCode(b, g);
    if g == 0 {
      forall x ensures f(x) == [x] {
        assert ResetMarks(x.caps, b, b) == x.caps;
      }
      NothingBehaves(prog, f);
    } else {
      BalancedOp(c);
      forall p: nat, d: nat | Lies(prog.code, p, c, d)
        ensures Does(prog, p, p + |c|, d, f)
      {
        var q := p + 3;
        forall x, st, bt | Ready(prog, x) && |st| == d
          ensures Moves(prog, p, q, f, x, st, bt)
        {
          ResetStep(prog, p, b, g, x, st, bt);
        }
        OneMove(prog, p, q, d, f);
      }
    }
  }

  lemma ResetterForward(inp: Input, b: nat, g: nat)
    ensures Forward(inp, Resetter(b, g))
  {
  }

  // ---------------------------------------------------------------------
  // Simple greedy loops
  // ---------------------------------------------------------------------

  /** Wherever the atom and a match instruction lie, the inner run is one
      attempt at the atom. */
  ghost predicate InnerRuns(prog: Program, c: seq<Byte>, m: nat -> bool, w: nat) {
    forall p: nat {:trigger StandsAt(prog.code, p, c)} ::
      StandsAt(prog.code, p, c) && StandsAt(prog.code, p + |c|, [OP_MATCH]) ==> RunsAtom(prog.code, p, prog.inp, m, w)
  }

  lemma SimpleRegroup(head: seq<Byte>, c: seq<Byte>, end: seq<Byte>)
    ensures head + c + end == head + (c + end)
  {
  }

  lemma SimpleLoopParts(bc: seq<Byte>, p: nat, c: seq<Byte>, min: nat, max: nat, w: nat)
    requires StandsAt(bc, p, SimpleLoopCode(c, min, max, w))
    ensures StandsAt(bc, p, GreedyHead(|c|, min, max, w)) && StandsAt(bc, p + 17, c)
    ensures StandsAt(bc, p + 17 + |c|, [OP_MATCH])
    ensures |SimpleLoopCode(c, min, max, w)| == 17 + |c| + 1
  {
    var head := GreedyHead(|c|, min, max, w);
    SimpleRegroup(head, c, [OP_MATCH]);
    Parts(bc, p, head, c + [OP_MATCH]);
    Parts(bc, p + 17, c, [OP_MATCH]);
  }

  lemma SimpleLoopBehaves(prog: Program, c: seq<Byte>, min: nat, max: nat, w: nat,
                          f: Config -> seq<Config>, m: nat -> bool)
    requires Roomy(prog) && min <= max <= INFINITY && 0 < max && w <= |c|
    requires FixedWidth(prog.inp, f, m, w) && InnerRuns(prog, c, m, w)
    ensures Behaves(prog, SimpleLoopCode(c, min, max, w), Repeater(prog.inp, f, min, max, true))
  {
    forall p: nat, d: nat | Lies(prog.code, p, SimpleLoopCode(c, min, max, w), d)
      ensures Does(prog, p, p + |SimpleLoopCode(c, min, max, w)|, d, Repeater(prog.inp, f, min, max, true))
    {
      SimpleLoopLies(prog, c, min, max, w, f, m, p, d);
    }
  }

  lemma SimpleLoopLies(prog: Program, c: seq<Byte>, min: nat, max: nat, w: nat,
                       f: Config -> seq<Config>, m: nat -> bool, p: nat, d: nat)
    requires Roomy(prog) && min <= max <= INFINITY && 0 < max && w <= |c|
    requires FixedWidth(prog.inp, f, m, w) && InnerRuns(prog, c, m, w)
    requires Lies(prog.code, p, SimpleLoopCode(c, min, max, w), d)
    ensures Does(prog, p, p + |SimpleLoopCode(c, min, max, w)|, d, Repeater(prog.inp, f, min, max, true))
  {
    SimpleLoopParts(prog.code, p, c, min, max, w);
    assert RunsAtom(prog.code, p + 17, prog.inp, m, w);
    GreedyLoop(prog, p, |c|, min, max, w, d, f, m);
  }

  // ---------------------------------------------------------------------
  // All forms
  // ---------------------------------------------------------------------

  /** What a quantifier means: reset the captures of the atom if it need not be
      tried, then repeat. */
  function Quantified(inp: Input, f: Config -> seq<Config>, b: nat, g: nat, min: nat, max: nat, greedy: bool)
    : Config -> seq<Config>
  {
    (x: Config) => Repeat(inp, f, min, max, greedy, if min == 0 then x.(caps := ResetMarks(x.caps, b, b + g)) else x)
  }

  lemma OptionalBehaves(prog: Program, c: seq<Byte>, check: bool, b: Byte, g: nat, max: nat, greedy: bool,
                        f: Config -> seq<Config>)
    requires Roomy(prog) && Behaves(prog, c, f) && Balanced(c) && Forward(prog.inp, f) && max <= INFINITY
    requires !check ==> Advances(prog.inp, f)
    requires b + g <= prog.captures <= 255
    ensures Behaves(prog, ResetCode(b, g) + OptionalCode(Guarded(c, check), max, greedy),
                    Quantified(prog.inp, f, b, g, 0, max, greedy))
  {
    var h, r := Quantified(prog.inp, f, b, g, 0, max, greedy), Repeater(prog.inp, f, 0, max, greedy);
    ResetBehaves(prog, b, g);
    ResetterForward(prog.inp, b, g);
    OptionalRepeats(prog, c, check, max, greedy, f);
    forall x ensures h(x) == FlatMap(Resetter(b, g)(x), r) {
      FlatMapOne(x.(caps := ResetMarks(x.caps, b, b + g)), r);
    }
    ConcatBehaves(prog, ResetCode(b, g), OptionalCode(Guarded(c, check), max, greedy), Resetter(b, g), r, h);
  }

  /** The code of a quantifier, in every form, does what the quantifier means. */
  lemma QuantBehaves(prog: Program, c: seq<Byte>, b: Byte, g: nat, min: nat, max: nat, greedy: bool,
                     f: Config -> seq<Config>, m: nat -> bool)
    requires Roomy(prog) && Behaves(prog, c, f) && Balanced(c) && Forward(prog.inp, f)
    requires min <= max <= INFINITY && b + g <= prog.captures <= 255
    requires !NeedCheck(c) ==> Advances(prog.inp, f)
    requires UsesSimpleLoop(c, max, greedy) ==>
      g == 0 && CharCount(c) <= |c| && FixedWidth(prog.inp, f, m, CharCount(c)) && InnerRuns(prog, c, m, CharCount(c))
    ensures Behaves(prog, QuantCode(c, b, g, min, max, greedy), Quantified(prog.inp, f, b, g, min, max, greedy))
  {
    var h := Quantified(prog.inp, f, b, g, min, max, greedy);
    var r := Repeater(prog.inp, f, min, max, greedy);
    if UsesSimpleLoop(c, max, greedy) {
      SimpleLoopBehaves(prog, c, min, max, CharCount(c), f, m);
      forall x: Config ensures r(x) == h(x) {
        assert ResetMarks(x.caps, b, b) == x.caps;
      }
      BehavesSame(prog, SimpleLoopCode(c, min, max, CharCount(c)), r, h);
    } else if min == 0 {
      OptionalBehaves(prog, c, NeedCheck(c), b, g, max, greedy, f);
    } else if UsesPlus(c, min, max) {
      PlusBehaves(prog, c, greedy, f);
      BehavesSame(prog, PlusCode(c, greedy), r, h);
    } else {
      var t := FurtherCode(Guarded(c, NeedCheck(c)), Further(min, max), greedy);
      FurtherRepeats(prog, c, NeedCheck(c), Further(min, max), greedy, f);
      MandatoryBehaves(prog, c, min, max, greedy, f, t);
      BehavesSame(prog, MandatoryCode(c, min) + t, r, h);
    }
  }
}
