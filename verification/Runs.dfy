/** Runs of a deterministic machine that stay inside a set of good states. */
module Runs {

  ghost predicate Path<S>(step: S -> S, good: S -> bool, s: S, t: S, n: nat)
    decreases n
  {
    good(s) && if n == 0 then s == t else Path(step, good, step(s), t, n - 1)
  }

  lemma {:induction false} PathJoin<S>(step: S -> S, good: S -> bool, s: S, t: S, u: S, n: nat, m: nat)
    requires Path(step, good, s, t, n) && Path(step, good, t, u, m)
    ensures Path(step, good, s, u, n + m)
    decreases n
  {
    if n > 0 {
      PathJoin(step, good, step(s), t, u, n - 1, m);
    }
  }

  /** `t` comes after `s`, through good states only. */
  ghost predicate Reaches<S>(step: S -> S, good: S -> bool, s: S, t: S) {
    exists n: nat :: Path(step, good, s, t, n)
  }

  lemma Arrived<S>(step: S -> S, good: S -> bool, s: S)
    requires good(s)
    ensures Reaches(step, good, s, s)
  {
    assert Path(step, good, s, s, 0);
  }

  lemma OneStep<S>(step: S -> S, good: S -> bool, s: S, t: S)
    requires good(s) && Reaches(step, good, step(s), t)
    ensures Reaches(step, good, s, t)
  {
    var n: nat :| Path(step, good, step(s), t, n);
    assert Path(step, good, s, t, n + 1);
  }

  lemma Onward<S>(step: S -> S, good: S -> bool, s: S, t: S, u: S)
    requires Reaches(step, good, s, t) && Reaches(step, good, t, u)
    ensures Reaches(step, good, s, u)
  {
    var n: nat :| Path(step, good, s, t, n);
    var m: nat :| Path(step, good, t, u, m);
    PathJoin(step, good, s, t, u, n, m);
  }

  function Iterate<S>(step: S -> S, s: S, m: nat): S
    decreases m
  {
    if m == 0 then s else Iterate(step, step(s), m - 1)
  }

  /** A run that comes to rest has seen every state the machine can reach. */
  lemma {:induction false} AllGood<S>(step: S -> S, good: S -> bool, s: S, t: S, n: nat, m: nat)
    requires Path(step, good, s, t, n) && step(t) == t
    ensures good(Iterate(step, s, m))
    decreases m
  {
    if m > 0 {
      if n == 0 {
        AllGood(step, good, t, t, 0, m - 1);
      } else {
        AllGood(step, good, step(s), t, n - 1, m - 1);
      }
    }
  }
}
