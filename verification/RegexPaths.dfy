/** Runs of the machine, and what it means that a piece of code tries a list of
    configurations in order. */
module RegexPaths {
  import opened CharSets
  import opened Common
  import opened RegexSyntax
  import opened RegexCode
  import opened RegexMachine
  import Runs

  /** Size of the instruction at `pos`. */
  function SizeAt(code: seq<Byte>, pos: nat): (n: nat)
    requires pos < |code|
    ensures n >= 1
  {
    if code[pos] == OP_RANGE && pos + 3 <= |code| then 3 + 4 * GetU16(code, pos + 1)
    else if code[pos] == OP_RANGE32 && pos + 3 <= |code| then 3 + 8 * GetU16(code, pos + 1)
    else OpSize(code[pos])
  }

  /** The linear scan goes from `pos`, where the value stack has depth `cur`, to
      `p` with depth `d`. */
  ghost predicate ScanGoes(code: seq<Byte>, pos: nat, cur: int, p: nat, d: int)
    decreases p - pos
  {
    if pos >= p then pos == p && cur == d
    else pos < |code| && ScanGoes(code, pos + SizeAt(code, pos), cur + Delta(code[pos]), p, d)
  }

  /** The linear scan over the code reaches `p` with `d` values on the stack. */
  ghost predicate AtDepth(code: seq<Byte>, p: nat, d: int) {
    p <= |code| && ScanGoes(code, 0, 0, p, d)
  }

  /** The header's stack size covers every depth the linear scan computes. */
  ghost predicate Roomy(prog: Program) {
    && |prog.code| < 0x8000_0000
    && forall p, d :: AtDepth(prog.code, p, d) ==> d <= prog.stackMax
  }

  /** The machine is not stuck, and its value stack is as long as the linear
      scan says for the instruction it is at. */
  ghost predicate Good(prog: Program, s: State) {
    !s.Stuck? && (s.Run? ==> AtDepth(prog.code, s.pc, |s.stack|))
  }

  ghost function Stepper(prog: Program): State -> State {
    s => Step(prog, s)
  }

  ghost function GoodStates(prog: Program): State -> bool {
    s => Good(prog, s)
  }

  /** `t` comes after `s`, through good states only. */
  ghost predicate Reaches(prog: Program, s: State, t: State) {
    Runs.Reaches(Stepper(prog), GoodStates(prog), s, t)
  }

  lemma Arrived(prog: Program, s: State)
    requires Good(prog, s)
    ensures Reaches(prog, s, s)
  {
    Runs.Arrived(Stepper(prog), GoodStates(prog), s);
  }

  lemma OneStep(prog: Program, s: State, t: State)
    requires Good(prog, s) && Reaches(prog, Step(prog, s), t)
    ensures Reaches(prog, s, t)
  {
    Runs.OneStep(Stepper(prog), GoodStates(prog), s, t);
  }

  lemma Goes(prog: Program, s: State, t: State)
    requires Good(prog, s) && Step(prog, s) == t && Good(prog, t)
    ensures Reaches(prog, s, t)
  {
    Arrived(prog, t);
    OneStep(prog, s, t);
  }

  lemma Onward(prog: Program, s: State, t: State, u: State)
    requires Reaches(prog, s, t) && Reaches(prog, t, u)
    ensures Reaches(prog, s, u)
  {
    Runs.Onward(Stepper(prog), GoodStates(prog), s, t, u);
  }

  /** Entries a match attempt may leave behind: those success skips. */
  predicate Plain(extra: seq<Saved>) {
    forall i :: 0 <= i < |extra| ==> extra[i].kind == Split || extra[i].kind == GreedyQuant
  }

  /** Running at `p` in configuration `x`. */
  function Here(p: nat, x: Config, st: seq<nat>, bt: seq<Saved>): State {
    Run(p, x.pos, x.caps, st, bt)
  }

  /** From `s` the machine arrives at `q` in each configuration of `ys` in
      turn, the next one when the run after the one before fails, and after
      the last one it fails back to the entries `bt`. */
  ghost predicate Explores(prog: Program, s: State, ys: seq<Config>, q: nat, st: seq<nat>, bt: seq<Saved>)
    decreases |ys|
  {
    if ys == [] then Reaches(prog, s, Failing(bt))
    else exists extra ::
      && Plain(extra)
      && Reaches(prog, s, Here(q, ys[0], st, bt + extra))
      && Explores(prog, Failing(bt + extra), ys[1..], q, st, bt)
  }

  lemma ExploreAfter(prog: Program, s: State, t: State, ys: seq<Config>, q: nat, st: seq<nat>, bt: seq<Saved>)
    requires Reaches(prog, s, t) && Explores(prog, t, ys, q, st, bt)
    ensures Explores(prog, s, ys, q, st, bt)
  {
    if ys == [] {
      Onward(prog, s, t, Failing(bt));
    } else {
      var extra :| Plain(extra) && Reaches(prog, t, Here(q, ys[0], st, bt + extra))
        && Explores(prog, Failing(bt + extra), ys[1..], q, st, bt);
      Onward(prog, s, t, Here(q, ys[0], st, bt + extra));
    }
  }

  lemma ExploreStep(prog: Program, s: State, ys: seq<Config>, q: nat, st: seq<nat>, bt: seq<Saved>)
    requires Good(prog, s) && Explores(prog, Step(prog, s), ys, q, st, bt)
    ensures Explores(prog, s, ys, q, st, bt)
  {
    var t := Step(prog, s);
    if ys == [] {
      OneStep(prog, s, Failing(bt));
    } else {
      var extra :| Plain(extra) && Reaches(prog, t, Here(q, ys[0], st, bt + extra))
        && Explores(prog, Failing(bt + extra), ys[1..], q, st, bt);
      OneStep(prog, s, Here(q, ys[0], st, bt + extra));
    }
  }

  lemma ExploreOne(prog: Program, y: Config, q: nat, st: seq<nat>, bt: seq<Saved>)
    requires AtDepth(prog.code, q, |st|)
    ensures Explores(prog, Here(q, y, st, bt), [y], q, st, bt)
  {
    Arrived(prog, Here(q, y, st, bt));
    Arrived(prog, Failing(bt));
    assert bt + [] == bt && Plain([]);
  }

  lemma ExploreNone(prog: Program, q: nat, st: seq<nat>, bt: seq<Saved>)
    ensures Explores(prog, Failing(bt), [], q, st, bt)
  {
    Arrived(prog, Failing(bt));
  }

  lemma ExploreFirst(prog: Program, s: State, y: Config, ys: seq<Config>, q: nat, st: seq<nat>,
                     bt: seq<Saved>, extra: seq<Saved>)
    requires Plain(extra)
    requires Reaches(prog, s, Here(q, y, st, bt + extra))
    requires Explores(prog, Failing(bt + extra), ys, q, st, bt)
    ensures Explores(prog, s, [y] + ys, q, st, bt)
  {
    assert ([y] + ys)[1..] == ys;
  }

  lemma Regroup<T>(a: seq<T>, b: seq<T>, c: seq<T>)
    ensures (a + b) + c == a + (b + c)
    ensures a != [] ==> [a[0]] + (a[1..] + b) == a + b
  {
  }

  lemma {:induction false} ExploreJoin(prog: Program, s: State, ys: seq<Config>, zs: seq<Config>,
                                       q: nat, st: seq<nat>, bt: seq<Saved>, extra: seq<Saved>)
    requires Plain(extra)
    requires Explores(prog, s, ys, q, st, bt + extra)
    requires Explores(prog, Failing(bt + extra), zs, q, st, bt)
    ensures Explores(prog, s, ys + zs, q, st, bt)
    decreases |ys|
  {
    if ys == [] {
      assert ys + zs == zs;
      ExploreAfter(prog, s, Failing(bt + extra), zs, q, st, bt);
    } else {
      var more :| Plain(more) && Reaches(prog, s, Here(q, ys[0], st, (bt + extra) + more))
        && Explores(prog, Failing((bt + extra) + more), ys[1..], q, st, bt + extra);
      Regroup(bt, extra, more);
      Regroup(ys, zs, zs);
      ExploreJoin(prog, Failing((bt + extra) + more), ys[1..], zs, q, st, bt, extra);
      ExploreFirst(prog, s, ys[0], ys[1..] + zs, q, st, bt, extra + more);
    }
  }

  /** A run that ends at one configuration may go on from there. */
  lemma ExploreThen(prog: Program, s: State, y: Config, p: nat, st1: seq<nat>,
                    zs: seq<Config>, ws: seq<Config>, q: nat, st: seq<nat>, bt: seq<Saved>, extra: seq<Saved>)
    requires Plain(extra)
    requires Reaches(prog, s, Here(p, y, st1, bt + extra))
    requires Explores(prog, Here(p, y, st1, bt + extra), zs, q, st, bt + extra)
    requires Explores(prog, Failing(bt + extra), ws, q, st, bt)
    ensures Explores(prog, s, zs + ws, q, st, bt)
  {
    ExploreAfter(prog, s, Here(p, y, st1, bt + extra), zs, q, st, bt + extra);
    ExploreJoin(prog, s, zs, ws, q, st, bt, extra);
  }

  /** Success forgets the entries a match attempt left behind. */
  lemma {:induction false} SkipPlain(prog: Program, caps: seq<Mark>, bt: seq<Saved>, extra: seq<Saved>)
    requires Plain(extra)
    ensures Reaches(prog, Matching(caps, bt + extra), Matching(caps, bt))
    decreases |extra|
  {
    var s := Matching(caps, bt + extra);
    if extra == [] {
      assert bt + extra == bt;
      Arrived(prog, s);
    } else {
      var less := extra[..|extra| - 1];
      assert (bt + extra)[..|bt + extra| - 1] == bt + less;
      assert (bt + extra)[|bt + extra| - 1] == extra[|extra| - 1];
      SkipPlain(prog, caps, bt, less);
      OneStep(prog, s, Matching(caps, bt));
    }
  }

  lemma {:induction false} ScanOn(code: seq<Byte>, pos: nat, cur: int, p: nat, d: int, q: nat, e: int)
    requires ScanGoes(code, pos, cur, p, d) && ScanGoes(code, p, d, q, e) && p <= q
    ensures ScanGoes(code, pos, cur, q, e)
    decreases p - pos
  {
    if pos < p {
      ScanOn(code, pos + SizeAt(code, pos), cur + Delta(code[pos]), p, d, q, e);
    }
  }

  lemma SameSize(code: seq<Byte>, p: nat, s: seq<Byte>)
    requires StandsAt(code, p, s) && s != [] && InstrSize(s) <= |s|
    ensures p < |code| && code[p] == s[0] && SizeAt(code, p) == InstrSize(s)
    ensures StandsAt(code, p + InstrSize(s), Rest(s))
  {
    ByteOf(code, p, s, 0);
    if |s| >= 3 {
      ByteOf(code, p, s, 1);
      ByteOf(code, p, s, 2);
    }
    var n := InstrSize(s);
    assert s == s[..n] + s[n..];
    Parts(code, p, s[..n], s[n..]);
  }

  lemma WholeFirst(s: seq<Byte>)
    requires s != [] && Whole(s)
    ensures InstrSize(s) <= |s| && |Rest(s)| == |s| - InstrSize(s)
    ensures Whole(Rest(s)) && Net(s) == Delta(s[0]) + Net(Rest(s))
  {
  }

  lemma GoesFirst(code: seq<Byte>, p: nat, d: int, q: nat, e: int)
    requires p < |code| && p < q && ScanGoes(code, p + SizeAt(code, p), d + Delta(code[p]), q, e)
    ensures ScanGoes(code, p, d, q, e)
  {
  }

  lemma {:induction false} ScanPiece(code: seq<Byte>, p: nat, s: seq<Byte>, d: int)
    requires StandsAt(code, p, s) && Whole(s)
    ensures ScanGoes(code, p, d, p + |s|, d + Net(s))
    decreases |s|
  {
    if s != [] {
      var n, t := InstrSize(s), Rest(s);
      WholeFirst(s);
      SameSize(code, p, s);
      ScanPiece(code, p + n, t, d + Delta(s[0]));
      GoesFirst(code, p, d, p + |s|, d + Net(s));
    }
  }

  /** Depth after a piece of code. */
  lemma Walk(code: seq<Byte>, p: nat, s: seq<Byte>, d: int)
    requires StandsAt(code, p, s) && AtDepth(code, p, d) && Whole(s)
    ensures AtDepth(code, p + |s|, d + Net(s))
  {
    ScanPiece(code, p, s, d);
    ScanOn(code, 0, 0, p, d, p + |s|, d + Net(s));
  }
}
