/** Whole programs: the search prefix, the stack size of the header, and the
    result of a run. */
module RegexProgram {
  import opened CharSets
  import opened Common
  import opened RegexSyntax
  import opened RegexCode
  import opened RegexMachine
  import opened RegexShape
  import opened RegexAtoms
  import Runs
  import opened RegexPaths
  import opened RegexMoves
  import opened RegexLoops
  import opened RegexCorrect
  import opened RegexTheorem

  // ---------------------------------------------------------------------
  // Programs
  // ---------------------------------------------------------------------

  /** Tries the rest of the program at every position, the first one first. */
  function SearchPrefix(): (s: seq<Byte>)
    ensures |s| == 11
  {
    Op5(OP_SPLIT_GOTO_FIRST, 6) + [OP_ANY] + Op5(OP_GOTO, -11)
  }

  /** A pattern can be compiled when capture 0 and its own captures are not too
      many and its classes fit. */
  predicate Compilable(e: Regex) {
    Encodable(Group(e), 0)
  }

  /** A program around the code `c` of a pattern. */
  function Framed(c: seq<Byte>, sticky: bool): seq<Byte> {
    (if sticky then [] else SearchPrefix()) + c + [OP_MATCH]
  }

  function ProgramCode(e: Regex, sticky: bool): seq<Byte>
    requires Compilable(e)
  {
    Framed(Code(Group(e), 0), sticky)
  }

  /** The greatest depth the linear scan sees from `pos` on, and `max`. */
  function ScanMax(code: seq<Byte>, pos: nat, cur: int, max: int): int
    decreases |code| - pos
  {
    if pos >= |code| then max else
      var next := cur + Delta(code[pos]);
      ScanMax(code, pos + SizeAt(code, pos), next, if next > max then next else max)
  }

  lemma {:induction false} ScanMaxCovers(code: seq<Byte>, pos: nat, cur: int, max: int, p: nat, d: int)
    requires ScanGoes(code, pos, cur, p, d) && cur <= max
    ensures d <= ScanMax(code, pos, cur, max)
    decreases |code| - pos
  {
    if pos < p {
      var next := cur + Delta(code[pos]);
      ScanMaxCovers(code, pos + SizeAt(code, pos), next, if next > max then next else max, p, d);
    } else {
      ScanMaxGrows(code, pos, cur, max);
    }
  }

  lemma {:induction false} ScanMaxGrows(code: seq<Byte>, pos: nat, cur: int, max: int)
    ensures max <= ScanMax(code, pos, cur, max)
    decreases |code| - pos
  {
    if pos < |code| {
      var next := cur + Delta(code[pos]);
      ScanMaxGrows(code, pos + SizeAt(code, pos), next, if next > max then next else max);
    }
  }

  /** The stack size of the header. */
  function StackSize(code: seq<Byte>): nat {
    ScanMaxGrows(code, 0, 0, 0);
    ScanMax(code, 0, 0, 0)
  }

  lemma {:induction false} ScanMaxAttained(code: seq<Byte>, pos: nat, cur: int, max: int) returns (p: nat, d: int)
    requires cur <= max
    ensures ScanMax(code, pos, cur, max) == max || (d == ScanMax(code, pos, cur, max) && ScanGoes(code, pos, cur, p, d))
    decreases |code| - pos
  {
    p, d := pos, cur;
    if pos < |code| {
      var next := cur + Delta(code[pos]);
      if ScanMax(code, pos, cur, max) == next > max {
        p, d := pos + SizeAt(code, pos), next;
      } else {
        p, d := ScanMaxAttained(code, pos + SizeAt(code, pos), next, if next > max then next else max);
      }
    }
  }

  /** It is the greatest depth that the linear scan computes. */
  lemma StackSizeExact(code: seq<Byte>)
    ensures forall p, d :: ScanGoes(code, 0, 0, p, d) ==> d <= StackSize(code)
    ensures exists p, d :: ScanGoes(code, 0, 0, p, d) && d == StackSize(code)
  {
    forall p, d | ScanGoes(code, 0, 0, p, d) ensures d <= StackSize(code) {
      ScanMaxCovers(code, 0, 0, 0, p, d);
    }
    var p, d := ScanMaxAttained(code, 0, 0, 0);
    assert ScanGoes(code, 0, 0, 0, 0);
  }

  /** The compiled program of `e` on a subject, with the header the compiler
      writes. */
  function Linked(e: Regex, sticky: bool, inp: Input): Program
    requires Compilable(e)
  {
    var code := ProgramCode(e, sticky);
    Program(code, inp, 1 + Groups(e), StackSize(code))
  }

  /** The initial state at index `start`: no captures, empty stacks. */
  function Start(e: Regex, start: nat): State {
    Run(0, start, seq(2 * (1 + Groups(e)), _ => Null), [], [])
  }

  function StartConfig(e: Regex, start: nat): Config {
    Config(start, seq(2 * (1 + Groups(e)), _ => Null))
  }

  lemma LinkedRoomy(e: Regex, sticky: bool, inp: Input)
    requires Compilable(e) && |ProgramCode(e, sticky)| < 0x8000_0000
    ensures Roomy(Linked(e, sticky, inp))
  {
    var code := ProgramCode(e, sticky);
    forall p, d | AtDepth(code, p, d) ensures d <= StackSize(code) {
      ScanMaxCovers(code, 0, 0, 0, p, d);
    }
  }

  // ---------------------------------------------------------------------
  // What a search means
  // ---------------------------------------------------------------------

  /** The ways to match from `x.pos`, then from the next position, and so on. */
  function SearchAll(inp: Input, f: Config -> seq<Config>, x: Config): seq<Config>
    decreases Remaining(inp, x), 1
  {
    f(x) + SearchRest(inp, f, x)
  }

  /** The ways to match from the positions after `x.pos`. */
  function SearchRest(inp: Input, f: Config -> seq<Config>, x: Config): seq<Config>
    decreases Remaining(inp, x), 0
  {
    if x.pos < |inp.cbuf| then SearchAll(inp, f, x.(pos := x.pos + 1)) else []
  }

  function Ways(e: Regex, sticky: bool, inp: Input, start: nat): seq<Config> {
    Tried(inp, Matcher(inp, Group(e), 0), sticky, StartConfig(e, start))
  }

  function MatchesFrom(e: Regex, inp: Input, pos: nat): seq<Config> {
    Match(inp, Group(e), 0, StartConfig(e, pos))
  }

  function Shifted(x: Config, pos: nat): Config {
    x.(pos := pos)
  }

  lemma {:induction false} SearchEmpty(inp: Input, f: Config -> seq<Config>, x: Config)
    requires x.pos <= |inp.cbuf|
    ensures SearchAll(inp, f, x) == [] <==> forall p :: x.pos <= p <= |inp.cbuf| ==> f(Shifted(x, p)) == []
    decreases Remaining(inp, x)
  {
    assert Shifted(x, x.pos) == x;
    if x.pos < |inp.cbuf| {
      var y := Shifted(x, x.pos + 1);
      SearchEmpty(inp, f, y);
      assert forall p :: y.pos <= p <= |inp.cbuf| ==> Shifted(y, p) == Shifted(x, p);
    }
  }

  lemma {:induction false} SearchFirst(inp: Input, f: Config -> seq<Config>, x: Config, p: nat)
    requires x.pos <= p <= |inp.cbuf| && f(Shifted(x, p)) != []
    requires forall q :: x.pos <= q < p ==> f(Shifted(x, q)) == []
    ensures SearchAll(inp, f, x) != [] && SearchAll(inp, f, x)[0] == f(Shifted(x, p))[0]
    decreases Remaining(inp, x)
  {
    assert Shifted(x, x.pos) == x;
    if x.pos < p {
      var y := Shifted(x, x.pos + 1);
      forall q: nat | y.pos <= q <= p ensures Shifted(y, q) == Shifted(x, q) {}
      SearchFirst(inp, f, y, p);
    }
  }

  /** A search fails exactly if no position matches. */
  lemma SearchFails(e: Regex, inp: Input, start: nat)
    requires start <= |inp.cbuf|
    ensures Ways(e, false, inp, start) == [] <==> forall p :: start <= p <= |inp.cbuf| ==> MatchesFrom(e, inp, p) == []
  {
    var f, x := Matcher(inp, Group(e), 0), StartConfig(e, start);
    SearchEmpty(inp, f, x);
    forall p: nat ensures f(Shifted(x, p)) == MatchesFrom(e, inp, p) {}
  }

  /** Otherwise it finds the first match at the leftmost position that matches. */
  lemma SearchIsLeftmost(e: Regex, inp: Input, start: nat, p: nat)
    requires start <= p <= |inp.cbuf| && MatchesFrom(e, inp, p) != []
    requires forall q :: start <= q < p ==> MatchesFrom(e, inp, q) == []
    ensures Ways(e, false, inp, start) != []
    ensures Ways(e, false, inp, start)[0] == MatchesFrom(e, inp, p)[0]
  {
    var f, x := Matcher(inp, Group(e), 0), StartConfig(e, start);
    forall q: nat ensures f(Shifted(x, q)) == MatchesFrom(e, inp, q) {}
    SearchFirst(inp, f, x, p);
  }

  // ---------------------------------------------------------------------
  // The search prefix
  // ---------------------------------------------------------------------

  lemma PrefixParts(bc: seq<Byte>, p: nat, t: seq<Byte>, d: int)
    requires StandsAt(bc, p, SearchPrefix() + t) && AtDepth(bc, p, d)
    ensures StandsAt(bc, p, Op5(OP_SPLIT_GOTO_FIRST, 6)) && StandsAt(bc, p + 5, [OP_ANY])
    ensures StandsAt(bc, p + 6, Op5(OP_GOTO, -11)) && StandsAt(bc, p + 11, t)
    ensures AtDepth(bc, p + 5, d) && AtDepth(bc, p + 6, d) && AtDepth(bc, p + 11, d)
  {
    var split, any, goto := Op5(OP_SPLIT_GOTO_FIRST, 6), [OP_ANY], Op5(OP_GOTO, -11);
    Parts(bc, p, split + any + goto, t);
    Parts(bc, p, split + any, goto);
    Parts(bc, p, split, any);
    BalancedOp(split);
    BalancedOp(any);
    BalancedOp(goto);
    Walk(bc, p, split, d);
    Walk(bc, p + 5, any, d);
    Walk(bc, p + 6, goto, d);
  }

  lemma AnyStep(prog: Program, p: nat, x: Config, st: seq<nat>, bt: seq<Saved>)
    requires StandsAt(prog.code, p, [OP_ANY]) && Ready(prog, x)
    ensures Step(prog, Here(p, x, st, bt))
         == if x.pos < |prog.inp.cbuf| then Here(p + 1, x.(pos := x.pos + 1), st, bt) else Failing(bt)
  {
    ByteOf(prog.code, p, [OP_ANY], 0);
  }

  /** The search prefix at `p`, before code for `f` that ends at `q`. */
  ghost predicate Searches(prog: Program, p: nat, q: nat, d: nat, f: Config -> seq<Config>) {
    && Saves(prog, p, p + 11, Split, p + 5, d)
    && StandsAt(prog.code, p + 5, [OP_ANY]) && AtDepth(prog.code, p + 5, d)
    && StandsAt(prog.code, p + 6, Op5(OP_GOTO, -11)) && AtDepth(prog.code, p + 6, d)
    && Does(prog, p + 11, q, d, f)
  }

  /** Running the prefix tries the pattern at `x`, then at the next position. */
  lemma {:induction false} SearchAt(prog: Program, p: nat, q: nat, f: Config -> seq<Config>, x: Config,
                                    st: seq<nat>, bt: seq<Saved>)
    requires Searches(prog, p, q, |st|, f) && Ready(prog, x)
    ensures Explores(prog, Here(p, x, st, bt), SearchAll(prog.inp, f, x), q, st, bt)
    decreases Remaining(prog.inp, x), 1
  {
    SearchNext(prog, p, q, f, x, st, bt);
    SearchTurn(prog, p, q, f, x, st, bt, SearchRest(prog.inp, f, x));
  }

  lemma SearchTurn(prog: Program, p: nat, q: nat, f: Config -> seq<Config>, x: Config, st: seq<nat>, bt: seq<Saved>,
                   rest: seq<Config>)
    requires Saves(prog, p, p + 11, Split, p + 5, |st|) && Does(prog, p + 11, q, |st|, f) && Ready(prog, x)
    requires Explores(prog, Here(p + 5, x, st, bt), rest, q, st, bt)
    ensures Explores(prog, Here(p, x, st, bt), f(x) + rest, q, st, bt)
  {
    DoesAt(prog, p + 11, q, |st|, f, x, st, bt + [Again(Split, p + 5, x, st)]);
    Choice(prog, p, p + 11, p + 5, x, st, bt, f(x), rest, q, st);
  }

  lemma {:induction false} SearchNext(prog: Program, p: nat, q: nat, f: Config -> seq<Config>, x: Config,
                                      st: seq<nat>, bt: seq<Saved>)
    requires Searches(prog, p, q, |st|, f) && Ready(prog, x)
    ensures Explores(prog, Here(p + 5, x, st, bt), SearchRest(prog.inp, f, x), q, st, bt)
    decreases Remaining(prog.inp, x), 0
  {
    AnyStep(prog, p + 5, x, st, bt);
    if x.pos < |prog.inp.cbuf| {
      var y := x.(pos := x.pos + 1);
      SearchAt(prog, p, q, f, y, st, bt);
      BackToStart(prog, p, q, y, st, bt, SearchAll(prog.inp, f, y));
    } else {
      ExploreNone(prog, q, st, bt);
    }
    ExploreStep(prog, Here(p + 5, x, st, bt), SearchRest(prog.inp, f, x), q, st, bt);
  }

  lemma BackToStart(prog: Program, p: nat, q: nat, y: Config, st: seq<nat>, bt: seq<Saved>, rest: seq<Config>)
    requires StandsAt(prog.code, p + 6, Op5(OP_GOTO, -11)) && AtDepth(prog.code, p + 6, |st|) && Ready(prog, y)
    requires Explores(prog, Here(p, y, st, bt), rest, q, st, bt)
    ensures Explores(prog, Here(p + 6, y, st, bt), rest, q, st, bt)
  {
    JumpStep(prog, p + 6, -11, y, st, bt);
    ExploreStep(prog, Here(p + 6, y, st, bt), rest, q, st, bt);
  }

  // ---------------------------------------------------------------------
  // Whole runs
  // ---------------------------------------------------------------------

  /** Where the pattern's code stands in a program. */
  function BodyAt(sticky: bool): nat {
    if sticky then 0 else 11
  }

  lemma FramedParts(bc: seq<Byte>, p: nat, c: seq<Byte>, sticky: bool, d: int)
    requires Balanced(c) && StandsAt(bc, p, Framed(c, sticky)) && AtDepth(bc, p, d)
    ensures Lies(bc, p + BodyAt(sticky), c, d)
    ensures StandsAt(bc, p + BodyAt(sticky) + |c|, [OP_MATCH])
    ensures !sticky ==> StandsAt(bc, p, SearchPrefix() + (c + [OP_MATCH]))
  {
    if sticky {
      assert Framed(c, true) == c + [OP_MATCH];
    } else {
      SearchRegroup(SearchPrefix(), c, [OP_MATCH]);
      PrefixParts(bc, p, c + [OP_MATCH], d);
    }
    Parts(bc, p + BodyAt(sticky), c, [OP_MATCH]);
    Walk(bc, p + BodyAt(sticky), c, d);
  }

  lemma SearchRegroup(a: seq<Byte>, b: seq<Byte>, c: seq<Byte>)
    ensures a + b + c == a + (b + c)
  {
  }

  lemma PrefixSearches(prog: Program, p: nat, c: seq<Byte>, d: nat, f: Config -> seq<Config>)
    requires Balanced(c) && StandsAt(prog.code, p, Framed(c, false)) && AtDepth(prog.code, p, d)
    requires Does(prog, p + 11, p + 11 + |c|, d, f)
    ensures Searches(prog, p, p + 11 + |c|, d, f)
  {
    FramedParts(prog.code, p, c, false, d);
    PrefixParts(prog.code, p, c + [OP_MATCH], d);
    SplitSaves(prog, p, true, 6, d);
  }

  function Tried(inp: Input, f: Config -> seq<Config>, sticky: bool, x: Config): seq<Config> {
    if sticky then f(x) else SearchAll(inp, f, x)
  }

  /** A program around code for `f`. */
  lemma RunTries(prog: Program, p: nat, c: seq<Byte>, f: Config -> seq<Config>, sticky: bool,
                 x: Config, st: seq<nat>, bt: seq<Saved>)
    requires Balanced(c) && Behaves(prog, c, f) && Ready(prog, x)
    requires StandsAt(prog.code, p, Framed(c, sticky)) && AtDepth(prog.code, p, |st|)
    ensures Explores(prog, Here(p, x, st, bt), Tried(prog.inp, f, sticky, x), p + BodyAt(sticky) + |c|, st, bt)
  {
    var q := p + BodyAt(sticky) + |c|;
    if sticky {
      assert q == p + |c|;
      RunSticks(prog, p, c, f, x, st, bt, q);
    } else {
      assert q == p + 11 + |c|;
      RunSearches(prog, p, c, f, x, st, bt, q);
    }
  }

  lemma RunSticks(prog: Program, p: nat, c: seq<Byte>, f: Config -> seq<Config>, x: Config, st: seq<nat>, bt: seq<Saved>,
                  q: nat)
    requires q == p + |c|
    requires Balanced(c) && Behaves(prog, c, f) && Ready(prog, x)
    requires StandsAt(prog.code, p, Framed(c, true)) && AtDepth(prog.code, p, |st|)
    ensures Explores(prog, Here(p, x, st, bt), f(x), q, st, bt)
  {
    FramedParts(prog.code, p, c, true, |st|);
    BehavesAt(prog, c, f, p, |st|);
    DoesAt(prog, p, p + |c|, |st|, f, x, st, bt);
  }

  lemma FrameSearches(prog: Program, p: nat, c: seq<Byte>, f: Config -> seq<Config>, d: nat)
    requires Balanced(c) && Behaves(prog, c, f)
    requires StandsAt(prog.code, p, Framed(c, false)) && AtDepth(prog.code, p, d)
    ensures Searches(prog, p, p + 11 + |c|, d, f)
  {
    FramedParts(prog.code, p, c, false, d);
    BehavesAt(prog, c, f, p + 11, d);
    PrefixSearches(prog, p, c, d, f);
  }

  lemma RunSearches(prog: Program, p: nat, c: seq<Byte>, f: Config -> seq<Config>, x: Config, st: seq<nat>, bt: seq<Saved>,
                    q: nat)
    requires q == p + 11 + |c|
    requires Balanced(c) && Behaves(prog, c, f) && Ready(prog, x)
    requires StandsAt(prog.code, p, Framed(c, false)) && AtDepth(prog.code, p, |st|)
    ensures Explores(prog, Here(p, x, st, bt), SearchAll(prog.inp, f, x), q, st, bt)
  {
    FrameSearches(prog, p, c, f, |st|);
    SearchAt(prog, p, q, f, x, st, bt);
  }

  /** The answer the ways to match call for: the captures of the first one. */
  function Answer(ys: seq<Config>): State {
    if ys == [] then NotFound else Found(ys[0].caps)
  }

  /** A run that reaches the final match instruction with nothing saved below it. */
  lemma RunAnswers(prog: Program, s: State, ys: seq<Config>, q: nat, st: seq<nat>)
    requires Explores(prog, s, ys, q, st, [])
    requires StandsAt(prog.code, q, [OP_MATCH]) && AtDepth(prog.code, q, |st|) && (ys != [] ==> Ready(prog, ys[0]))
    ensures Reaches(prog, s, Answer(ys))
  {
    if ys == [] {
      Goes(prog, Failing([]), NotFound);
      Onward(prog, s, Failing([]), NotFound);
    } else {
      BodyMatches(prog, s, ys, q, st, []);
      Goes(prog, Matching(ys[0].caps, []), Found(ys[0].caps));
      Onward(prog, s, Matching(ys[0].caps, []), Found(ys[0].caps));
    }
  }

  lemma {:induction false} SearchFollows(inp: Input, f: Config -> seq<Config>, x: Config)
    requires x.pos <= |inp.cbuf| && Forward(inp, f)
    ensures AllFollow(inp, x, SearchAll(inp, f, x))
    decreases Remaining(inp, x)
  {
    assert AllFollow(inp, x, f(x));
    if x.pos < |inp.cbuf| {
      SearchFollows(inp, f, x.(pos := x.pos + 1));
    }
  }

  lemma TriedReady(prog: Program, f: Config -> seq<Config>, sticky: bool, x: Config)
    requires Forward(prog.inp, f) && Ready(prog, x)
    ensures Tried(prog.inp, f, sticky, x) != [] ==> Ready(prog, Tried(prog.inp, f, sticky, x)[0])
  {
    var ys := Tried(prog.inp, f, sticky, x);
    SearchFollows(prog.inp, f, x);
    assert AllFollow(prog.inp, x, f(x));
    assert ys != [] ==> Follows(prog.inp, x, ys[0]);
  }

  lemma RunCorrect(prog: Program, p: nat, c: seq<Byte>, f: Config -> seq<Config>, sticky: bool, x: Config, st: seq<nat>)
    requires Balanced(c) && Behaves(prog, c, f) && Forward(prog.inp, f) && Ready(prog, x)
    requires StandsAt(prog.code, p, Framed(c, sticky)) && AtDepth(prog.code, p, |st|)
    ensures Reaches(prog, Here(p, x, st, []), Answer(Tried(prog.inp, f, sticky, x)))
  {
    FramedParts(prog.code, p, c, sticky, |st|);
    RunTries(prog, p, c, f, sticky, x, st, []);
    TriedReady(prog, f, sticky, x);
    RunAnswers(prog, Here(p, x, st, []), Tried(prog.inp, f, sticky, x), p + BodyAt(sticky) + |c|, st);
  }

  // ---------------------------------------------------------------------
  // Compiled programs
  // ---------------------------------------------------------------------

  function TotalCode(): (Regex, nat) -> seq<Byte> {
    (e: Regex, b: nat) => if Encodable(e, b) then Code(e, b) else []
  }

  lemma WholeBehaves(prog: Program, e: Regex)
    requires Compilable(e) && Roomy(prog) && prog.captures == 1 + Groups(e)
    ensures Balanced(Code(Group(e), 0)) && Behaves(prog, Code(Group(e), 0), Matcher(prog.inp, Group(e), 0))
  {
    CodeBalanced(Group(e), 0);
    Compiled(prog, TotalCode(), Group(e), 0);
  }

  lemma Itself(code: seq<Byte>)
    ensures StandsAt(code, 0, code) && AtDepth(code, 0, 0)
  {
    Stands(code, 0, code);
  }

  /** Compiler correctness: the machine running the compiled program comes to
      rest with the first way the pattern can match, or with no match when there
      is none, and every state on the way is good. */
  lemma ExecutionCorrect(e: Regex, sticky: bool, inp: Input, start: nat)
    requires Compilable(e) && |ProgramCode(e, sticky)| < 0x8000_0000 && start <= |inp.cbuf|
    ensures Reaches(Linked(e, sticky, inp), Start(e, start), Answer(Ways(e, sticky, inp, start)))
  {
    var prog := Linked(e, sticky, inp);
    LinkedRoomy(e, sticky, inp);
    WholeBehaves(prog, e);
    Itself(prog.code);
    MatcherForward(inp, Group(e), 0);
    RunCorrect(prog, 0, Code(Group(e), 0), Matcher(inp, Group(e), 0), sticky, StartConfig(e, start), []);
  }

  /** In every state the machine can reach, it is not stuck, and its value stack
      has the length the linear scan computes for the instruction it is at,
      which is at most the stack size of the header. */
  lemma StackBound(e: Regex, sticky: bool, inp: Input, start: nat, m: nat)
    requires Compilable(e) && |ProgramCode(e, sticky)| < 0x8000_0000 && start <= |inp.cbuf|
    ensures var prog := Linked(e, sticky, inp);
      var s := Runs.Iterate(Stepper(prog), Start(e, start), m);
      && !s.Stuck?
      && (s.Run? ==> AtDepth(prog.code, s.pc, |s.stack|) && |s.stack| <= StackSize(prog.code))
  {
    var prog, s0, t := Linked(e, sticky, inp), Start(e, start), Answer(Ways(e, sticky, inp, start));
    ExecutionCorrect(e, sticky, inp, start);
    LinkedRoomy(e, sticky, inp);
    var n: nat :| Runs.Path(Stepper(prog), GoodStates(prog), s0, t, n);
    Runs.AllGood(Stepper(prog), GoodStates(prog), s0, t, n, m);
  }
}
