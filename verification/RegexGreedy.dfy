/** Simple greedy loops: one run-length entry on the backtrack stack stands for
    one pushed split per repetition. */
module RegexGreedy {
  import opened CharSets
  import opened Common
  import opened RegexSyntax
  import opened RegexCode
  import opened RegexMachine
  import opened RegexPaths
  import opened RegexMoves
  import opened RegexLoops

  /** An atom that matches in at most one way, `w` characters wide, exactly
      where `m` says. */
  ghost predicate FixedWidth(inp: Input, f: Config -> seq<Config>, m: nat -> bool, w: nat) {
    && w > 0
    && (forall pos: nat {:trigger m(pos)} :: m(pos) ==> pos + w <= |inp.cbuf|)
    && (forall x: Config {:trigger f(x)} :: x.pos <= |inp.cbuf| ==>
          f(x) == if m(x.pos) then [x.(pos := x.pos + w)] else [])
  }

  /** The number of times the atom matches in a row from `pos`, at most `max`. */
  ghost function Longest(inp: Input, m: nat -> bool, w: nat, max: nat, pos: nat): nat
    decreases |inp.cbuf| - pos
  {
    if max == 0 || !m(pos) || w == 0 || pos + w > |inp.cbuf| then 0
    else 1 + Longest(inp, m, w, OneLess(max), pos + w)
  }

  /** The width of `j` repetitions of `w` characters. */
  function Span(w: nat, j: nat): nat {
    if j == 0 then 0 else Span(w, j - 1) + w
  }

  /** The configurations after `hi`, `hi - 1`, ..., `lo` repetitions from `x`. */
  function Down(x: Config, w: nat, hi: int, lo: nat): seq<Config>
    decreases hi - lo
  {
    if hi < lo then [] else [x.(pos := x.pos + Span(w, hi))] + Down(x, w, hi - 1, lo)
  }

  lemma {:induction false} DownShift(x: Config, w: nat, hi: int, lo: nat)
    ensures Down(x.(pos := x.pos + w), w, hi, lo) == Down(x, w, hi + 1, lo + 1)
    decreases hi - lo
  {
    if hi >= lo {
      DownShift(x, w, hi - 1, lo);
    }
  }

  lemma {:induction false} DownLast(x: Config, w: nat, hi: nat)
    ensures Down(x, w, hi, 1) + [x] == Down(x, w, hi, 0)
  {
    if hi == 0 {
      assert x.(pos := x.pos + Span(w, 0)) == x;
      assert Down(x, w, 0, 0) == [x] + Down(x, w, -1, 0);
    } else {
      DownLast(x, w, hi - 1);
      assert Down(x, w, hi, 1) + [x] == [x.(pos := x.pos + Span(w, hi))] + (Down(x, w, hi - 1, 1) + [x]);
    }
  }

  /** A greedy repetition of such an atom tries the longest run first and then
      one repetition less each time, down to `min`. */
  lemma {:induction false} RepeatIsDown(inp: Input, f: Config -> seq<Config>, m: nat -> bool, w: nat,
                                        min: nat, max: nat, x: Config)
    requires FixedWidth(inp, f, m, w) && x.pos <= |inp.cbuf| && min <= max <= INFINITY
    ensures Repeat(inp, f, min, max, true, x) == Down(x, w, Longest(inp, m, w, max, x.pos), min)
    decreases |inp.cbuf| - x.pos
  {
    if max > 0 {
      if m(x.pos) {
        var y := x.(pos := x.pos + w);
        assert f(x) == [y] && [y][1..] == [];
        RepeatIsDown(inp, f, m, w, Before(min), OneLess(max), y);
        var l := Longest(inp, m, w, OneLess(max), y.pos);
        DownShift(x, w, l, Before(min));
        var more := Repeat(inp, f, Before(min), OneLess(max), true, y);
        assert RepeatAll(inp, f, min, max, true, [y], x) == more;
        if min == 0 { DownLast(x, w, l + 1); }
      } else {
        RepeatStops(inp, f, m, w, min, max, x);
      }
    } else {
      RepeatStops(inp, f, m, w, min, max, x);
    }
  }

  lemma RepeatStops(inp: Input, f: Config -> seq<Config>, m: nat -> bool, w: nat, min: nat, max: nat, x: Config)
    requires FixedWidth(inp, f, m, w) && x.pos <= |inp.cbuf| && min <= max <= INFINITY
    requires max == 0 || !m(x.pos)
    ensures Longest(inp, m, w, max, x.pos) == 0
    ensures Repeat(inp, f, min, max, true, x) == Down(x, w, 0, min)
  {
    if min == 0 { DownLast(x, w, 0); }
  }

  // ---------------------------------------------------------------------
  // The scan
  // ---------------------------------------------------------------------

  /** The inner run at `pc` is one attempt at the atom. */
  ghost predicate RunsAtom(code: seq<Byte>, pc: nat, inp: Input, m: nat -> bool, w: nat) {
    forall pos: nat {:trigger RunSimple(code, pc, inp, pos)} :: pos <= |inp.cbuf| ==>
      RunSimple(code, pc, inp, pos) == if m(pos) then MatchAt(pos + w) else NoMatch
  }

  function Left(max: nat, q: nat): nat
    requires max == INFINITY || q <= max
  {
    if max == INFINITY then INFINITY else max - q
  }

  /** The scan loop ends, after the longest run of the atom. */
  lemma {:induction false} ScanIsLongest(code: seq<Byte>, pc: nat, inp: Input, f: Config -> seq<Config>,
                                         m: nat -> bool, w: nat, pos: nat, q: nat, max: nat)
    requires FixedWidth(inp, f, m, w) && RunsAtom(code, pc, inp, m, w)
    requires pos <= |inp.cbuf| && (max == INFINITY || q < max < INFINITY)
    ensures Scan(code, pc, inp, pos, q, max)
         == Counted(q + Longest(inp, m, w, Left(max, q), pos), pos + Span(w, Longest(inp, m, w, Left(max, q), pos)))
    decreases |inp.cbuf| - pos
  {
    if m(pos) {
      if q + 1 < max || max == INFINITY {
        ScanIsLongest(code, pc, inp, f, m, w, pos + w, q + 1, max);
        ScanOneMore(code, pc, inp, m, w, pos, q, max, Longest(inp, m, w, Left(max, q + 1), pos + w));
      } else {
        ScanFull(code, pc, inp, m, w, pos, q, max);
      }
    } else {
      ScanStops(code, pc, inp, m, w, pos, q, max);
    }
  }

  lemma ScanStops(code: seq<Byte>, pc: nat, inp: Input, m: nat -> bool, w: nat, pos: nat, q: nat, max: nat)
    requires RunsAtom(code, pc, inp, m, w) && pos <= |inp.cbuf| && !m(pos) && (max == INFINITY || q < max)
    ensures Longest(inp, m, w, Left(max, q), pos) == 0
    ensures Scan(code, pc, inp, pos, q, max) == Counted(q + 0, pos + Span(w, 0))
  {
    assert RunSimple(code, pc, inp, pos) == NoMatch;
  }

  lemma ScanOneMore(code: seq<Byte>, pc: nat, inp: Input, m: nat -> bool, w: nat, pos: nat, q: nat, max: nat, l: nat)
    requires RunsAtom(code, pc, inp, m, w) && m(pos) && w > 0 && pos + w <= |inp.cbuf|
    requires q + 1 < max <= INFINITY || max == INFINITY
    requires l == Longest(inp, m, w, Left(max, q + 1), pos + w)
    requires Scan(code, pc, inp, pos + w, q + 1, max) == Counted(q + 1 + l, pos + w + Span(w, l))
    ensures Longest(inp, m, w, Left(max, q), pos) == l + 1
    ensures Scan(code, pc, inp, pos, q, max) == Counted(q + (l + 1), pos + Span(w, l + 1))
  {
    assert RunSimple(code, pc, inp, pos) == MatchAt(pos + w);
  }

  lemma ScanFull(code: seq<Byte>, pc: nat, inp: Input, m: nat -> bool, w: nat, pos: nat, q: nat, max: nat)
    requires RunsAtom(code, pc, inp, m, w) && m(pos) && w > 0 && pos + w <= |inp.cbuf|
    requires q + 1 == max && max != INFINITY
    ensures Longest(inp, m, w, Left(max, q), pos) == 1
    ensures Scan(code, pc, inp, pos, q, max) == Counted(q + 1, pos + Span(w, 1))
  {
    assert RunSimple(code, pc, inp, pos) == MatchAt(pos + w);
    assert Longest(inp, m, w, 0, pos + w) == 0;
  }

  // ---------------------------------------------------------------------
  // The instruction
  // ---------------------------------------------------------------------

  /** The head of a simple greedy loop at `p`, over code of `n` bytes. */
  function GreedyHead(n: nat, min: nat, max: nat, w: nat): seq<Byte> {
    [OP_SIMPLE_GREEDY_QUANT] + U32Bytes(n + 1) + U32Bytes(min) + U32Bytes(max) + U32Bytes(w)
  }

  lemma GreedyOperands(code: seq<Byte>, p: nat, n: nat, min: nat, max: nat, w: nat)
    requires StandsAt(code, p, GreedyHead(n, min, max, w))
    requires n < 0x7FFF_FFFF && min <= INFINITY && max <= INFINITY && w < 0x8000_0000
    ensures p + 17 <= |code| && code[p] == OP_SIMPLE_GREEDY_QUANT
    ensures GetU32(code, p + 1) == n + 1 && GetU32(code, p + 5) == min
    ensures GetU32(code, p + 9) == max && GetU32(code, p + 13) == w
  {
    var s0: seq<Byte> := [OP_SIMPLE_GREEDY_QUANT];
    var s1, s2, s3, s4 := U32Bytes(n + 1), U32Bytes(min), U32Bytes(max), U32Bytes(w);
    Parts(code, p, s0 + s1 + s2 + s3, s4);
    Parts(code, p, s0 + s1 + s2, s3);
    Parts(code, p, s0 + s1, s2);
    Parts(code, p, s0, s1);
    ByteOf(code, p, s0, 0);
    GetU32Bytes(code, p + 1, n + 1);
    GetU32Bytes(code, p + 5, min);
    GetU32Bytes(code, p + 9, max);
    GetU32Bytes(code, p + 13, w);
  }

  /** The entry that stands for the repetitions `min` to `j - 1`. */
  function RunLength(p: nat, x: Config, w: nat, j: nat, min: nat, st: seq<nat>): seq<Saved>
    requires j >= min
  {
    if j > min then [Saved(GreedyQuant, p + 1, x.pos + Span(w, j), x.caps, st, j - min)] else []
  }

  function After(x: Config, w: nat, j: nat): Config {
    x.(pos := x.pos + Span(w, j))
  }

  lemma ResumeDispatch(prog: Program, bt: seq<Saved>, rs: Saved)
    requires rs.kind == GreedyQuant
    ensures Step(prog, Failing(bt + [rs])) == ResumeGreedy(prog, rs, bt)
  {
    var states := bt + [rs];
    assert states[..|states| - 1] == bt;
  }

  lemma GreedyResume(prog: Program, p: nat, n: nat, min: nat, max: nat, w: nat, x: Config, j: nat,
                     st: seq<nat>, bt: seq<Saved>)
    requires StandsAt(prog.code, p, GreedyHead(n, min, max, w))
    requires n < 0x7FFF_FFFF && min <= INFINITY && max <= INFINITY && w < 0x8000_0000
    requires j >= min
    ensures Step(prog, Failing(bt + RunLength(p, x, w, j + 1, min, st)))
         == Here(p + 17 + n + 1, After(x, w, j), st, bt + RunLength(p, x, w, j, min, st))
  {
    GreedyOperands(prog.code, p, n, min, max, w);
    var rs := Saved(GreedyQuant, p + 1, x.pos + Span(w, j + 1), x.caps, st, j + 1 - min);
    assert RunLength(p, x, w, j + 1, min, st) == [rs];
    ResumeDispatch(prog, bt, rs);
    assert bt + [] == bt;
  }

  /** From `j` repetitions on, the run visits those after `j`, `j - 1`, ..., `min`. */
  ghost predicate Visits(prog: Program, q: nat, p: nat, min: nat, w: nat, x: Config, j: nat, st: seq<nat>, bt: seq<Saved>)
    requires j >= min
  {
    Explores(prog, Here(q, After(x, w, j), st, bt + RunLength(p, x, w, j, min, st)), Down(x, w, j, min), q, st, bt)
  }

  /** One run-length entry visits exactly the configurations after `j`, `j - 1`,
      ..., `min` repetitions, in that order. */
  lemma {:induction false} GreedyVisits(prog: Program, p: nat, n: nat, min: nat, max: nat, w: nat, x: Config, j: nat,
                                        st: seq<nat>, bt: seq<Saved>)
    requires StandsAt(prog.code, p, GreedyHead(n, min, max, w))
    requires n < 0x7FFF_FFFF && min <= INFINITY && max <= INFINITY && w < 0x8000_0000
    requires j >= min && AtDepth(prog.code, p + 17 + n + 1, |st|)
    ensures Visits(prog, p + 17 + n + 1, p, min, w, x, j, st, bt)
    decreases j
  {
    if j == min {
      LeastVisit(prog, p + 17 + n + 1, p, min, w, x, st, bt);
    } else {
      GreedyVisits(prog, p, n, min, max, w, x, j - 1, st, bt);
      VisitBefore(prog, p, n, min, max, w, x, j, st, bt);
    }
  }

  lemma LeastVisit(prog: Program, q: nat, p: nat, min: nat, w: nat, x: Config, st: seq<nat>, bt: seq<Saved>)
    requires AtDepth(prog.code, q, |st|)
    ensures Visits(prog, q, p, min, w, x, min, st, bt)
  {
    DownFirst(x, w, min, min);
    LastVisit(prog, q, After(x, w, min), st, bt);
  }

  lemma VisitBefore(prog: Program, p: nat, n: nat, min: nat, max: nat, w: nat, x: Config, j: nat,
                    st: seq<nat>, bt: seq<Saved>)
    requires StandsAt(prog.code, p, GreedyHead(n, min, max, w))
    requires n < 0x7FFF_FFFF && min <= INFINITY && max <= INFINITY && w < 0x8000_0000
    requires j > min && AtDepth(prog.code, p + 17 + n + 1, |st|)
    requires Visits(prog, p + 17 + n + 1, p, min, w, x, j - 1, st, bt)
    ensures Visits(prog, p + 17 + n + 1, p, min, w, x, j, st, bt)
  {
    DownFirst(x, w, j, min);
    GreedyBack(prog, p, n, min, max, w, x, j - 1, st, bt);
    VisitFirst(prog, p + 17 + n + 1, After(x, w, j), Down(x, w, j - 1, min), st, bt, RunLength(p, x, w, j, min, st));
  }

  lemma DownFirst(x: Config, w: nat, j: nat, min: nat)
    requires j >= min
    ensures Down(x, w, j, min) == [After(x, w, j)] + (if j == min then [] else Down(x, w, j - 1, min))
  {
  }

  lemma LastVisit(prog: Program, q: nat, y: Config, st: seq<nat>, bt: seq<Saved>)
    requires AtDepth(prog.code, q, |st|)
    ensures Explores(prog, Here(q, y, st, bt + []), [y] + [], q, st, bt)
  {
    ExploreNone(prog, q, st, bt);
    assert bt + [] == bt;
    VisitFirst(prog, q, y, [], st, bt, []);
  }

  /** The configuration at the exit of a loop, then what failing back explores. */
  lemma VisitFirst(prog: Program, q: nat, y: Config, rest: seq<Config>, st: seq<nat>, bt: seq<Saved>, extra: seq<Saved>)
    requires Plain(extra) && AtDepth(prog.code, q, |st|)
    requires Explores(prog, Failing(bt + extra), rest, q, st, bt)
    ensures Explores(prog, Here(q, y, st, bt + extra), [y] + rest, q, st, bt)
  {
    Arrived(prog, Here(q, y, st, bt + extra));
    ExploreFirst(prog, Here(q, y, st, bt + extra), y, rest, q, st, bt, extra);
  }

  lemma GreedyBack(prog: Program, p: nat, n: nat, min: nat, max: nat, w: nat, x: Config, j: nat,
                   st: seq<nat>, bt: seq<Saved>)
    requires StandsAt(prog.code, p, GreedyHead(n, min, max, w))
    requires n < 0x7FFF_FFFF && min <= INFINITY && max <= INFINITY && w < 0x8000_0000 && j >= min
    requires Explores(prog, Here(p + 17 + n + 1, After(x, w, j), st, bt + RunLength(p, x, w, j, min, st)),
                      Down(x, w, j, min), p + 17 + n + 1, st, bt)
    ensures Explores(prog, Failing(bt + RunLength(p, x, w, j + 1, min, st)), Down(x, w, j, min), p + 17 + n + 1, st, bt)
  {
    GreedyResume(prog, p, n, min, max, w, x, j, st, bt);
    ExploreStep(prog, Failing(bt + RunLength(p, x, w, j + 1, min, st)), Down(x, w, j, min), p + 17 + n + 1, st, bt);
  }

  lemma GreedyDispatch(prog: Program, s: State)
    requires s.Run? && s.pc + 17 <= |prog.code| && prog.code[s.pc] == OP_SIMPLE_GREEDY_QUANT
    requires |s.caps| == 2 * prog.captures
    ensures Step(prog, s) == GreedyStep(prog, s)
  {
  }

  lemma GreedyStepIs(prog: Program, p: nat, n: nat, min: nat, max: nat, w: nat, l: nat, x: Config,
                     st: seq<nat>, bt: seq<Saved>)
    requires StandsAt(prog.code, p, GreedyHead(n, min, max, w))
    requires n < 0x7FFF_FFFF && min <= INFINITY && max <= INFINITY && w < 0x8000_0000
    requires Scan(prog.code, p + 17, prog.inp, x.pos, 0, max) == Counted(l, x.pos + Span(w, l)) && Ready(prog, x)
    ensures Step(prog, Here(p, x, st, bt))
         == if l < min then Failing(bt)
            else Here(p + 17 + n + 1, After(x, w, l), st, bt + RunLength(p, x, w, l, min, st))
  {
    GreedyOperands(prog.code, p, n, min, max, w);
    GreedyDispatch(prog, Here(p, x, st, bt));
    GreedyResult(prog, p, n, min, max, w, l, x, st, bt);
  }

  lemma GreedyResult(prog: Program, p: nat, n: nat, min: nat, max: nat, w: nat, l: nat, x: Config,
                     st: seq<nat>, bt: seq<Saved>)
    requires p + 17 <= |prog.code| && n < 0x7FFF_FFFF
    requires GetU32(prog.code, p + 1) == n + 1 && GetU32(prog.code, p + 5) == min && GetU32(prog.code, p + 9) == max
    requires Scan(prog.code, p + 17, prog.inp, x.pos, 0, max) == Counted(l, x.pos + Span(w, l))
    ensures GreedyStep(prog, Here(p, x, st, bt))
         == if l < min then Failing(bt)
            else Here(p + 17 + n + 1, After(x, w, l), st, bt + RunLength(p, x, w, l, min, st))
  {
    assert bt + [] == bt;
  }

  /** A simple greedy loop tries what the general loop would try. */
  lemma GreedyLoop(prog: Program, p: nat, n: nat, min: nat, max: nat, w: nat, d: nat,
                   f: Config -> seq<Config>, m: nat -> bool)
    requires StandsAt(prog.code, p, GreedyHead(n, min, max, w))
    requires n < 0x7FFF_FFFF && min <= max <= INFINITY && 0 < max && w < 0x8000_0000
    requires AtDepth(prog.code, p, d) && AtDepth(prog.code, p + 17 + n + 1, d)
    requires FixedWidth(prog.inp, f, m, w) && RunsAtom(prog.code, p + 17, prog.inp, m, w)
    ensures Does(prog, p, p + 17 + n + 1, d, Repeater(prog.inp, f, min, max, true))
  {
    var q := p + 17 + n + 1;
    forall x, st, bt | Ready(prog, x) && |st| == d
      ensures Explores(prog, Here(p, x, st, bt), Repeat(prog.inp, f, min, max, true, x), q, st, bt)
    {
      var l := Longest(prog.inp, m, w, max, x.pos);
      RepeatIsDown(prog.inp, f, m, w, min, max, x);
      ScanIsLongest(prog.code, p + 17, prog.inp, f, m, w, x.pos, 0, max);
      GreedyFrom(prog, p, n, min, max, w, l, x, st, bt);
    }
  }

  lemma GreedyFrom(prog: Program, p: nat, n: nat, min: nat, max: nat, w: nat, l: nat, x: Config,
                   st: seq<nat>, bt: seq<Saved>)
    requires StandsAt(prog.code, p, GreedyHead(n, min, max, w))
    requires n < 0x7FFF_FFFF && min <= INFINITY && max <= INFINITY && w < 0x8000_0000
    requires AtDepth(prog.code, p, |st|) && AtDepth(prog.code, p + 17 + n + 1, |st|) && Ready(prog, x)
    requires Scan(prog.code, p + 17, prog.inp, x.pos, 0, max) == Counted(l, x.pos + Span(w, l))
    ensures Explores(prog, Here(p, x, st, bt), Down(x, w, l, min), p + 17 + n + 1, st, bt)
  {
    GreedyStepIs(prog, p, n, min, max, w, l, x, st, bt);
    if l < min {
      ExploreNone(prog, p + 17 + n + 1, st, bt);
    } else {
      GreedyVisits(prog, p, n, min, max, w, x, l, st, bt);
    }
    ExploreStep(prog, Here(p, x, st, bt), Down(x, w, l, min), p + 17 + n + 1, st, bt);
  }
}
