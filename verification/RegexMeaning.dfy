/** What the ways to match amount to, told without the matcher: which stretches of the
    subject a pattern can cover, and what becomes of the captures. */
module RegexMeaning {
  import opened CharSets
  import opened RegexSyntax
  import opened RegexCode
  import opened RegexProgram

  // ---------------------------------------------------------------------
  // Characters
  // ---------------------------------------------------------------------

  /** WordCharacters of section 22.2.2.9.3 of ECMA-262. */
  predicate WordAtIndex(inp: Input, i: int) {
    0 <= i < |inp.cbuf| && inp.cbuf[i] < 0x80 &&
    var c := inp.cbuf[i] as char;
    'a' <= c <= 'z' || 'A' <= c <= 'Z' || '0' <= c <= '9' || c == '_'
  }

  /** LineTerminator of section 12.3 of ECMA-262. */
  predicate LineEndsAt(inp: Input, i: int) {
    0 <= i < |inp.cbuf| && inp.cbuf[i] in {0x0A, 0x0D, 0x2028, 0x2029}
  }

  lemma WordCharacters(inp: Input, i: int)
    ensures WordAt(inp, i) == WordAtIndex(inp, i)
  {
  }

  // ---------------------------------------------------------------------
  // Stretches
  // ---------------------------------------------------------------------

  /** Can the pattern cover the subject from `i` to `j`? A repetition is a number of
      rounds between the limits, empty ones included. */
  ghost predicate Spans(inp: Input, e: Regex, i: nat, j: nat)
    decreases e, 0
  {
    match e
    case Empty => j == i
    case Char(c) => j == i + 1 && i < |inp.cbuf| && inp.cbuf[i] == c
    case Dot => j == i + 1 && i < |inp.cbuf| && !LineEndsAt(inp, i)
    case Any => j == i + 1 && i < |inp.cbuf|
    case Class(points) =>
      j == i + 1 && i < |inp.cbuf| && exists k :: 0 <= 2 * k < |points| - 1 && points[2 * k] <= inp.cbuf[i] < points[2 * k + 1]
    case Assert(LineStart) => j == i && (i == 0 || (inp.multiLine && LineEndsAt(inp, i - 1)))
    case Assert(LineEnd) => j == i && (i == |inp.cbuf| || (inp.multiLine && LineEndsAt(inp, i)))
    case Assert(WordBoundary) => j == i && WordAtIndex(inp, i - 1) != WordAtIndex(inp, i)
    case Assert(NotWordBoundary) => j == i && WordAtIndex(inp, i - 1) == WordAtIndex(inp, i)
    case Group(r) => Spans(inp, r, i, j)
    case Concat(r1, r2) => Meets(Spanner(inp, r1), Spanner(inp, r2), i, j)
    case Alt(r1, r2) => Spans(inp, r1, i, j) || Spans(inp, r2, i, j)
    case Quant(r, min, max, _) => Repeats(Spanner(inp, r), min, max, i, j)
    case Look(r, negative) => j == i && negative != Starts(Spanner(inp, r), i)
  }

  ghost function Spanner(inp: Input, e: Regex): (nat, nat) -> bool
    decreases e, 1
  {
    (i: nat, j: nat) => Spans(inp, e, i, j)
  }

  ghost predicate Meets(s: (nat, nat) -> bool, t: (nat, nat) -> bool, i: nat, j: nat) {
    exists k: nat :: s(i, k) && t(k, j)
  }

  ghost predicate Starts(s: (nat, nat) -> bool, i: nat) {
    exists k: nat :: s(i, k)
  }

  ghost predicate Repeats(s: (nat, nat) -> bool, min: nat, max: nat, i: nat, j: nat) {
    exists n: nat :: min <= n && (n <= max || max == 0x7FFF_FFFF) && Rounds(s, n, i, j)
  }

  /** `n` rounds, one after the other. */
  ghost predicate Rounds(s: (nat, nat) -> bool, n: nat, i: nat, j: nat) {
    if n == 0 then j == i else exists k: nat :: s(i, k) && Rounds(s, n - 1, k, j)
  }

  /** Some way ends at `j`. */
  predicate EndsAt(ys: seq<Config>, j: nat) {
    exists i :: 0 <= i < |ys| && ys[i].pos == j
  }

  lemma EndsInEither(ys: seq<Config>, zs: seq<Config>, j: nat)
    ensures EndsAt(ys + zs, j) == (EndsAt(ys, j) || EndsAt(zs, j))
  {
    var s := ys + zs;
    if EndsAt(ys, j) {
      var i :| 0 <= i < |ys| && ys[i].pos == j;
      assert s[i].pos == j;
    }
    if EndsAt(zs, j) {
      var i :| 0 <= i < |zs| && zs[i].pos == j;
      assert s[|ys| + i].pos == j;
    }
    if EndsAt(s, j) {
      var i :| 0 <= i < |s| && s[i].pos == j;
      if i < |ys| { assert ys[i].pos == j; } else { assert zs[i - |ys|].pos == j; }
    }
  }

  lemma {:induction false} EndsInSome(ys: seq<Config>, g: Config -> seq<Config>, j: nat)
    ensures EndsAt(FlatMap(ys, g), j) <==> exists i :: 0 <= i < |ys| && EndsAt(g(ys[i]), j)
    decreases |ys|
  {
    if ys != [] {
      EndsInEither(g(ys[0]), FlatMap(ys[1..], g), j);
      EndsInSome(ys[1..], g, j);
      if i :| 0 <= i < |ys| && EndsAt(g(ys[i]), j) {
        if i > 0 { assert EndsAt(g(ys[1..][i - 1]), j); }
      }
      if i :| 0 <= i < |ys[1..]| && EndsAt(g(ys[1..][i]), j) {
        assert EndsAt(g(ys[i + 1]), j);
      }
    }
  }

  /** Where the ways of `f` from a position end is what `s` says. */
  ghost predicate Covers(inp: Input, f: Config -> seq<Config>, s: (nat, nat) -> bool) {
    forall x: Config, j: nat :: x.pos <= |inp.cbuf| ==> (EndsAt(f(x), j) <==> s(x.pos, j))
  }

  lemma CoversAt(inp: Input, f: Config -> seq<Config>, s: (nat, nat) -> bool, x: Config, j: nat)
    requires Covers(inp, f, s) && x.pos <= |inp.cbuf|
    ensures EndsAt(f(x), j) <==> s(x.pos, j)
  {
  }

  // ---------------------------------------------------------------------
  // Repetitions
  // ---------------------------------------------------------------------

  predicate Within(n: nat, min: nat, max: nat) {
    min <= n && (n <= max || max == 0x7FFF_FFFF)
  }

  /** One round first. */
  lemma OneRound(s: (nat, nat) -> bool, n: nat, i: nat, k: nat, j: nat)
    requires s(i, k) && Rounds(s, n, k, j)
    ensures Rounds(s, n + 1, i, j)
  {
  }

  ghost predicate AllCovered(s: (nat, nat) -> bool, i: nat, ys: seq<Config>) {
    forall k :: 0 <= k < |ys| ==> s(i, ys[k].pos)
  }

  lemma CoversAll(inp: Input, f: Config -> seq<Config>, s: (nat, nat) -> bool, x: Config)
    requires Covers(inp, f, s) && Forward(inp, f) && x.pos <= |inp.cbuf|
    ensures AllCovered(s, x.pos, f(x)) && AllFollow(inp, x, f(x))
  {
    forall k | 0 <= k < |f(x)| ensures s(x.pos, f(x)[k].pos) {
      assert EndsAt(f(x), f(x)[k].pos);
    }
  }

  /** Every way of repeating is a number of rounds within the limits. */
  lemma {:induction false} RepeatRounds(inp: Input, f: Config -> seq<Config>, s: (nat, nat) -> bool, min: nat, max: nat,
                                        greedy: bool, x: Config, j: nat) returns (n: nat)
    requires Covers(inp, f, s) && Forward(inp, f) && x.pos <= |inp.cbuf| && min <= max <= INFINITY
    requires EndsAt(Repeat(inp, f, min, max, greedy, x), j)
    ensures Within(n, min, max) && Rounds(s, n, x.pos, j)
    decreases min, Remaining(inp, x), 2, 0
  {
    n := 0;
    if max > 0 {
      var more := RepeatAll(inp, f, min, max, greedy, f(x), x);
      EndsInEither(more, [x], j);
      EndsInEither([x], more, j);
      if EndsAt(more, j) {
        CoversAll(inp, f, s, x);
        n := RepeatAllRounds(inp, f, s, min, max, greedy, f(x), x, j);
      }
    }
  }

  /** The ways after one round to `y`. */
  function Onward(inp: Input, f: Config -> seq<Config>, min: nat, max: nat, greedy: bool, y: Config, x: Config): seq<Config> {
    if min > 0 then Repeat(inp, f, min - 1, OneLess(max), greedy, y)
    else if Advanced(inp, x, y) then Repeat(inp, f, 0, OneLess(max), greedy, y)
    else []
  }

  lemma FirstOrRest(inp: Input, f: Config -> seq<Config>, min: nat, max: nat, greedy: bool, ys: seq<Config>, x: Config, j: nat)
    requires ys != []
    ensures EndsAt(RepeatAll(inp, f, min, max, greedy, ys, x), j)
         == (EndsAt(Onward(inp, f, min, max, greedy, ys[0], x), j) || EndsAt(RepeatAll(inp, f, min, max, greedy, ys[1..], x), j))
  {
    EndsInEither(Onward(inp, f, min, max, greedy, ys[0], x), RepeatAll(inp, f, min, max, greedy, ys[1..], x), j);
  }

  lemma {:induction false} RepeatAllRounds(inp: Input, f: Config -> seq<Config>, s: (nat, nat) -> bool, min: nat, max: nat,
                                           greedy: bool, ys: seq<Config>, x: Config, j: nat) returns (n: nat)
    requires Covers(inp, f, s) && Forward(inp, f) && x.pos <= |inp.cbuf| && min <= max <= INFINITY && max > 0
    requires AllFollow(inp, x, ys) && AllCovered(s, x.pos, ys)
    requires EndsAt(RepeatAll(inp, f, min, max, greedy, ys, x), j)
    ensures Within(n, min, max) && Rounds(s, n, x.pos, j)
    decreases min, Remaining(inp, x), 1, |ys|
  {
    FirstOrRest(inp, f, min, max, greedy, ys, x, j);
    if EndsAt(Onward(inp, f, min, max, greedy, ys[0], x), j) {
      n := OnwardRounds(inp, f, s, min, max, greedy, ys[0], x, j);
    } else {
      n := RepeatAllRounds(inp, f, s, min, max, greedy, ys[1..], x, j);
    }
  }

  lemma {:induction false} OnwardRounds(inp: Input, f: Config -> seq<Config>, s: (nat, nat) -> bool, min: nat, max: nat,
                                        greedy: bool, y: Config, x: Config, j: nat) returns (n: nat)
    requires Covers(inp, f, s) && Forward(inp, f) && Follows(inp, x, y) && min <= max <= INFINITY && max > 0
    requires s(x.pos, y.pos) && EndsAt(Onward(inp, f, min, max, greedy, y, x), j)
    ensures Within(n, min, max) && Rounds(s, n, x.pos, j)
    decreases min, Remaining(inp, x), 0, 0
  {
    if min > 0 {
      n := RepeatRounds(inp, f, s, min - 1, OneLess(max), greedy, y, j);
    } else {
      n := RepeatRounds(inp, f, s, 0, OneLess(max), greedy, y, j);
    }
    OneRound(s, n, x.pos, y.pos, j);
    n := n + 1;
  }

  /** The ways through the `i`-th of `ys` are among all. */
  lemma {:induction false} AmongAll(inp: Input, f: Config -> seq<Config>, min: nat, max: nat, greedy: bool, ys: seq<Config>,
                                    x: Config, i: nat, j: nat)
    requires i < |ys| && EndsAt(Onward(inp, f, min, max, greedy, ys[i], x), j)
    ensures EndsAt(RepeatAll(inp, f, min, max, greedy, ys, x), j)
    decreases |ys|
  {
    FirstOrRest(inp, f, min, max, greedy, ys, x, j);
    if i > 0 { AmongAll(inp, f, min, max, greedy, ys[1..], x, i - 1, j); }
  }

  lemma RepeatGoesOn(inp: Input, f: Config -> seq<Config>, min: nat, max: nat, greedy: bool, x: Config, y: Config, j: nat)
    requires max > 0 && y in f(x) && EndsAt(Onward(inp, f, min, max, greedy, y, x), j)
    ensures EndsAt(Repeat(inp, f, min, max, greedy, x), j)
  {
    var i :| 0 <= i < |f(x)| && f(x)[i] == y;
    AmongAll(inp, f, min, max, greedy, f(x), x, i, j);
    var more := RepeatAll(inp, f, min, max, greedy, f(x), x);
    EndsInEither(more, [x], j);
    EndsInEither([x], more, j);
  }

  lemma RepeatStops(inp: Input, f: Config -> seq<Config>, max: nat, greedy: bool, x: Config)
    ensures EndsAt(Repeat(inp, f, 0, max, greedy, x), x.pos)
  {
    var more := RepeatAll(inp, f, 0, max, greedy, f(x), x);
    assert [x][0].pos == x.pos;
    EndsInEither(more, [x], x.pos);
    EndsInEither([x], more, x.pos);
  }

  /** The way that a round to `k` takes. */
  lemma RoundTo(inp: Input, f: Config -> seq<Config>, s: (nat, nat) -> bool, x: Config, k: nat) returns (y: Config)
    requires Covers(inp, f, s) && Forward(inp, f) && x.pos <= |inp.cbuf| && s(x.pos, k)
    ensures y in f(x) && y.pos == k && Follows(inp, x, y)
  {
    CoversAt(inp, f, s, x, k);
    var i :| 0 <= i < |f(x)| && f(x)[i].pos == k;
    CoversAll(inp, f, s, x);
    y := f(x)[i];
  }

  lemma FirstStep(s: (nat, nat) -> bool, n: nat, i: nat, j: nat) returns (k: nat)
    requires n > 0 && Rounds(s, n, i, j)
    ensures s(i, k) && Rounds(s, n - 1, k, j)
  {
    k :| s(i, k) && Rounds(s, n - 1, k, j);
  }

  /** Every number of rounds within the limits is found, although optional rounds that
      cover nothing are not taken. */
  lemma {:induction false} RoundsRepeat(inp: Input, f: Config -> seq<Config>, s: (nat, nat) -> bool, min: nat, max: nat,
                                        greedy: bool, x: Config, n: nat, j: nat)
    requires Covers(inp, f, s) && Forward(inp, f) && x.pos <= |inp.cbuf| && min <= max <= INFINITY
    requires Within(n, min, max) && Rounds(s, n, x.pos, j)
    ensures EndsAt(Repeat(inp, f, min, max, greedy, x), j)
    decreases n, 3
  {
    if n == 0 {
      RepeatStops(inp, f, max, greedy, x);
    } else {
      var k := FirstStep(s, n, x.pos, j);
      RoundsStep(inp, f, s, min, max, greedy, x, k, n, j);
    }
  }

  lemma {:induction false} RoundsStep(inp: Input, f: Config -> seq<Config>, s: (nat, nat) -> bool, min: nat, max: nat,
                                      greedy: bool, x: Config, k: nat, n: nat, j: nat)
    requires Covers(inp, f, s) && Forward(inp, f) && x.pos <= |inp.cbuf| && min <= max <= INFINITY
    requires n > 0 && Within(n, min, max) && s(x.pos, k) && Rounds(s, n - 1, k, j)
    ensures EndsAt(Repeat(inp, f, min, max, greedy, x), j)
    decreases n, 2
  {
    if min == 0 && k == x.pos {
      RoundsRepeat(inp, f, s, 0, max, greedy, x, n - 1, j);
    } else {
      RoundTaken(inp, f, s, min, max, greedy, x, k, n, j);
    }
  }

  lemma {:induction false} RoundTaken(inp: Input, f: Config -> seq<Config>, s: (nat, nat) -> bool, min: nat, max: nat,
                                      greedy: bool, x: Config, k: nat, n: nat, j: nat)
    requires Covers(inp, f, s) && Forward(inp, f) && x.pos <= |inp.cbuf| && min <= max <= INFINITY
    requires n > 0 && Within(n, min, max) && s(x.pos, k) && Rounds(s, n - 1, k, j) && (min == 0 ==> k != x.pos)
    ensures EndsAt(Repeat(inp, f, min, max, greedy, x), j)
    decreases n, 1
  {
    var y := RoundTo(inp, f, s, x, k);
    RoundsOnward(inp, f, s, min, max, greedy, y, x, n, j);
    RepeatGoesOn(inp, f, min, max, greedy, x, y, j);
  }

  lemma {:induction false} RoundsOnward(inp: Input, f: Config -> seq<Config>, s: (nat, nat) -> bool, min: nat, max: nat,
                                        greedy: bool, y: Config, x: Config, n: nat, j: nat)
    requires Covers(inp, f, s) && Forward(inp, f) && Follows(inp, x, y) && min <= max <= INFINITY
    requires n > 0 && Within(n, min, max) && Rounds(s, n - 1, y.pos, j) && (min == 0 ==> y.pos != x.pos)
    ensures EndsAt(Onward(inp, f, min, max, greedy, y, x), j)
    decreases n, 0
  {
    if min > 0 {
      RoundsRepeat(inp, f, s, min - 1, OneLess(max), greedy, y, n - 1, j);
    } else {
      RoundsRepeat(inp, f, s, 0, OneLess(max), greedy, y, n - 1, j);
    }
  }

  // ---------------------------------------------------------------------
  // The matcher
  // ---------------------------------------------------------------------

  lemma {:induction false} MatcherCovers(inp: Input, e: Regex, b: nat)
    requires Parsed(e)
    ensures Covers(inp, Matcher(inp, e, b), Spanner(inp, e))
    decreases e, 4
  {
    forall x: Config, j: nat | x.pos <= |inp.cbuf|
      ensures EndsAt(Matcher(inp, e, b)(x), j) <==> Spanner(inp, e)(x.pos, j)
    {
      MatchSpans(inp, e, b, x, j);
    }
  }

  /** Some way to match ends at `j` if and only if the pattern can cover the stretch. */
  lemma {:induction false} MatchSpans(inp: Input, e: Regex, b: nat, x: Config, j: nat)
    requires Parsed(e) && x.pos <= |inp.cbuf|
    ensures EndsAt(Match(inp, e, b, x), j) <==> Spans(inp, e, x.pos, j)
    decreases e, 3
  {
    if e.Group? {
      GroupSpans(inp, e, b, x, j);
    } else if e.Concat? {
      ConcatSpans(inp, e, b, x, j);
    } else if e.Alt? {
      AltSpans(inp, e, b, x, j);
    } else if e.Quant? {
      QuantSpans(inp, e, b, x, j);
    } else if e.Look? {
      LookSpans(inp, e, b, x, j);
    } else if e.Assert? {
      AssertSpans(inp, e.kind, b, x, j);
    } else if e.Empty? {
      OneEnd(x, j);
    } else {
      SingleSpans(inp, e, b, x, j);
    }
  }

  lemma {:induction false} GroupSpans(inp: Input, e: Regex, b: nat, x: Config, j: nat)
    requires e.Group? && Parsed(e) && x.pos <= |inp.cbuf|
    ensures EndsAt(Match(inp, e, b, x), j) <==> Spans(inp, e, x.pos, j)
    decreases e, 2
  {
    var x1 := SetMark(x, 2 * b);
    MatchSpans(inp, e.body, b + 1, x1, j);
    MarkedEnds(Match(inp, e.body, b + 1, x1), 2 * b + 1, j);
  }

  lemma {:induction false} ConcatSpans(inp: Input, e: Regex, b: nat, x: Config, j: nat)
    requires e.Concat? && Parsed(e) && x.pos <= |inp.cbuf|
    ensures EndsAt(Match(inp, e, b, x), j) <==> Spans(inp, e, x.pos, j)
    decreases e, 2
  {
    PairSpans(inp, e.first, e.second, b, b + Groups(e.first), x, j);
  }

  /** One pattern after the other. */
  lemma {:induction false} PairSpans(inp: Input, r1: Regex, r2: Regex, b: nat, b2: nat, x: Config, j: nat)
    requires Parsed(r1) && Parsed(r2) && x.pos <= |inp.cbuf|
    ensures EndsAt(FlatMap(Matcher(inp, r1, b)(x), Matcher(inp, r2, b2)), j) <==> Meets(Spanner(inp, r1), Spanner(inp, r2), x.pos, j)
    decreases Concat(r1, r2), 1
  {
    MatcherCovers(inp, r1, b);
    MatcherCovers(inp, r2, b2);
    MatcherForward(inp, r1, b);
    MeetsEnds(inp, Matcher(inp, r1, b), Matcher(inp, r2, b2), Spanner(inp, r1), Spanner(inp, r2), x, j);
  }

  lemma {:induction false} AltSpans(inp: Input, e: Regex, b: nat, x: Config, j: nat)
    requires e.Alt? && Parsed(e) && x.pos <= |inp.cbuf|
    ensures EndsAt(Match(inp, e, b, x), j) <==> Spans(inp, e, x.pos, j)
    decreases e, 2
  {
    MatchSpans(inp, e.left, b, x, j);
    MatchSpans(inp, e.right, b + Groups(e.left), x, j);
    EndsInEither(Match(inp, e.left, b, x), Match(inp, e.right, b + Groups(e.left), x), j);
  }

  lemma {:induction false} QuantSpans(inp: Input, e: Regex, b: nat, x: Config, j: nat)
    requires e.Quant? && Parsed(e) && x.pos <= |inp.cbuf|
    ensures EndsAt(Match(inp, e, b, x), j) <==> Spans(inp, e, x.pos, j)
    decreases e, 2
  {
    var x0 := if e.min == 0 then x.(caps := ResetMarks(x.caps, b, b + Groups(e.atom))) else x;
    RepeatSpans(inp, e.atom, b, e.min, e.max, e.greedy, x0, j);
  }

  lemma {:induction false} RepeatSpans(inp: Input, r: Regex, b: nat, min: nat, max: nat, greedy: bool, x: Config, j: nat)
    requires Parsed(r) && min <= max <= INFINITY && x.pos <= |inp.cbuf|
    ensures EndsAt(Repeat(inp, Matcher(inp, r, b), min, max, greedy, x), j) <==> Repeats(Spanner(inp, r), min, max, x.pos, j)
    decreases r, 5
  {
    MatcherCovers(inp, r, b);
    MatcherForward(inp, r, b);
    RepeatsEnds(inp, Matcher(inp, r, b), Spanner(inp, r), min, max, greedy, x, j);
  }

  lemma {:induction false} LookSpans(inp: Input, e: Regex, b: nat, x: Config, j: nat)
    requires e.Look? && Parsed(e) && x.pos <= |inp.cbuf|
    ensures EndsAt(Match(inp, e, b, x), j) <==> Spans(inp, e, x.pos, j)
    decreases e, 2
  {
    MatcherCovers(inp, e.ahead, b);
    LookEnds(inp, Matcher(inp, e.ahead, b), Spanner(inp, e.ahead), e.negative, x, j);
  }

  lemma OneEnd(x: Config, j: nat)
    ensures EndsAt([x], j) <==> j == x.pos
  {
    assert [x][0] == x;
  }

  lemma MarkedEnds(ys: seq<Config>, k: nat, j: nat)
    ensures EndsAt(FlatMap(ys, Marker(k)), j) <==> EndsAt(ys, j)
  {
    EndsInSome(ys, Marker(k), j);
    forall i | 0 <= i < |ys| ensures EndsAt(Marker(k)(ys[i]), j) <==> ys[i].pos == j {
      OneEnd(SetMark(ys[i], k), j);
    }
  }

  lemma MeetsEnds(inp: Input, f: Config -> seq<Config>, g: Config -> seq<Config>, s: (nat, nat) -> bool,
                  t: (nat, nat) -> bool, x: Config, j: nat)
    requires Covers(inp, f, s) && Covers(inp, g, t) && Forward(inp, f) && x.pos <= |inp.cbuf|
    ensures EndsAt(FlatMap(f(x), g), j) <==> Meets(s, t, x.pos, j)
  {
    var ys := f(x);
    assert AllFollow(inp, x, ys);
    EndsInSome(ys, g, j);
    if i :| 0 <= i < |ys| && EndsAt(g(ys[i]), j) {
      assert Follows(inp, x, ys[i]);
      assert EndsAt(ys, ys[i].pos);
      CoversAt(inp, f, s, x, ys[i].pos);
      CoversAt(inp, g, t, ys[i], j);
    }
    if k: nat :| s(x.pos, k) && t(k, j) {
      CoversAt(inp, f, s, x, k);
      var i :| 0 <= i < |ys| && ys[i].pos == k;
      assert Follows(inp, x, ys[i]);
      CoversAt(inp, g, t, ys[i], j);
    }
  }

  lemma RepeatsEnds(inp: Input, f: Config -> seq<Config>, s: (nat, nat) -> bool, min: nat, max: nat, greedy: bool, x: Config,
                    j: nat)
    requires Covers(inp, f, s) && Forward(inp, f) && x.pos <= |inp.cbuf| && min <= max <= INFINITY
    ensures EndsAt(Repeat(inp, f, min, max, greedy, x), j) <==> Repeats(s, min, max, x.pos, j)
  {
    if EndsAt(Repeat(inp, f, min, max, greedy, x), j) {
      var n := RepeatRounds(inp, f, s, min, max, greedy, x, j);
    }
    if n: nat :| min <= n && (n <= max || max == 0x7FFF_FFFF) && Rounds(s, n, x.pos, j) {
      RoundsRepeat(inp, f, s, min, max, greedy, x, n, j);
    }
  }

  lemma LookEnds(inp: Input, f: Config -> seq<Config>, s: (nat, nat) -> bool, negative: bool, x: Config, j: nat)
    requires Covers(inp, f, s) && x.pos <= |inp.cbuf|
    ensures EndsAt(Looked(f(x), negative, x), j) <==> j == x.pos && negative != Starts(s, x.pos)
  {
    var ys := f(x);
    if ys != [] {
      assert EndsAt(ys, ys[0].pos);
      OneEnd(x.(caps := ys[0].caps), j);
    }
    if k: nat :| s(x.pos, k) { CoversAt(inp, f, s, x, k); }
    OneEnd(x, j);
  }

  lemma AssertSpans(inp: Input, kind: Assertion, b: nat, x: Config, j: nat)
    requires x.pos <= |inp.cbuf|
    ensures EndsAt(Match(inp, Assert(kind), b, x), j) <==> Spans(inp, Assert(kind), x.pos, j)
  {
    WordCharacters(inp, x.pos - 1);
    WordCharacters(inp, x.pos);
    OneEnd(x, j);
  }

  lemma SingleSpans(inp: Input, e: Regex, b: nat, x: Config, j: nat)
    requires IsSingle(e) && x.pos <= |inp.cbuf|
    ensures EndsAt(Match(inp, e, b, x), j) <==> Spans(inp, e, x.pos, j)
  {
    OneEnd(x.(pos := x.pos + 1), j);
    if e.Class? && x.pos < |inp.cbuf| { InInterval(e.points, inp.cbuf[x.pos]); }
  }

  lemma InInterval(points: seq<U32>, c: nat)
    ensures In(points, c) <==> exists k :: 0 <= 2 * k < |points| - 1 && points[2 * k] <= c < points[2 * k + 1]
  {
    if k :| 0 <= 2 * k < |points| - 1 && points[2 * k] <= c < points[2 * k + 1] {
      assert k < |points| / 2;
    }
    if i :| 0 <= i < |points| / 2 && points[2 * i] <= c < points[2 * i + 1] {
      assert 0 <= 2 * i < |points| - 1;
    }
  }

  // ---------------------------------------------------------------------
  // Captures
  // ---------------------------------------------------------------------

  /** Only marks `lo` to `hi - 1` may differ. */
  predicate Keeps(x: Config, y: Config, lo: nat, hi: nat) {
    |y.caps| == |x.caps| && forall k :: 0 <= k < |x.caps| && !(lo <= k < hi) ==> y.caps[k] == x.caps[k]
  }

  ghost predicate AllKeep(x: Config, ys: seq<Config>, lo: nat, hi: nat) {
    forall i :: 0 <= i < |ys| ==> Keeps(x, ys[i], lo, hi)
  }

  ghost predicate Keeper(f: Config -> seq<Config>, lo: nat, hi: nat) {
    forall x: Config {:trigger f(x)} :: AllKeep(x, f(x), lo, hi)
  }

  lemma KeepsOn(x: Config, y: Config, zs: seq<Config>, lo: nat, hi: nat)
    requires Keeps(x, y, lo, hi) && AllKeep(y, zs, lo, hi)
    ensures AllKeep(x, zs, lo, hi)
  {
  }

  lemma KeepsMore(x: Config, ys: seq<Config>, lo: nat, hi: nat, lo1: nat, hi1: nat)
    requires AllKeep(x, ys, lo, hi) && lo1 <= lo && hi <= hi1
    ensures AllKeep(x, ys, lo1, hi1)
  {
  }

  lemma {:induction false} FlatMapKeeps(x: Config, ys: seq<Config>, g: Config -> seq<Config>, lo: nat, hi: nat)
    requires AllKeep(x, ys, lo, hi) && Keeper(g, lo, hi)
    ensures AllKeep(x, FlatMap(ys, g), lo, hi)
    decreases |ys|
  {
    if ys != [] {
      FlatMapKeeps(x, ys[1..], g, lo, hi);
      KeepsOn(x, ys[0], g(ys[0]), lo, hi);
    }
  }

  lemma {:induction false} RepeatKeeps(inp: Input, f: Config -> seq<Config>, min: nat, max: nat, greedy: bool, x: Config,
                                       lo: nat, hi: nat)
    requires Keeper(f, lo, hi)
    ensures AllKeep(x, Repeat(inp, f, min, max, greedy, x), lo, hi)
    decreases min, Remaining(inp, x), 1, 0
  {
    if max > 0 { RepeatAllKeeps(inp, f, min, max, greedy, f(x), x, lo, hi); }
  }

  lemma {:induction false} RepeatAllKeeps(inp: Input, f: Config -> seq<Config>, min: nat, max: nat, greedy: bool,
                                          ys: seq<Config>, x: Config, lo: nat, hi: nat)
    requires Keeper(f, lo, hi) && AllKeep(x, ys, lo, hi)
    ensures AllKeep(x, RepeatAll(inp, f, min, max, greedy, ys, x), lo, hi)
    decreases min, Remaining(inp, x), 0, |ys|
  {
    if ys != [] {
      RepeatAllKeeps(inp, f, min, max, greedy, ys[1..], x, lo, hi);
      if min > 0 {
        RepeatKeeps(inp, f, min - 1, OneLess(max), greedy, ys[0], lo, hi);
        KeepsOn(x, ys[0], Repeat(inp, f, min - 1, OneLess(max), greedy, ys[0]), lo, hi);
      } else if Advanced(inp, x, ys[0]) {
        RepeatKeeps(inp, f, 0, OneLess(max), greedy, ys[0], lo, hi);
        KeepsOn(x, ys[0], Repeat(inp, f, 0, OneLess(max), greedy, ys[0]), lo, hi);
      }
    }
  }

  lemma {:induction false} MatcherKeeps(inp: Input, e: Regex, b: nat, lo: nat, hi: nat)
    requires lo <= 2 * b && 2 * (b + Groups(e)) <= hi
    ensures Keeper(Matcher(inp, e, b), lo, hi)
    decreases e, 4
  {
    forall x: Config ensures AllKeep(x, Matcher(inp, e, b)(x), lo, hi) {
      OtherMarks(inp, e, b, x);
      KeepsMore(x, Match(inp, e, b, x), 2 * b, 2 * (b + Groups(e)), lo, hi);
    }
  }

  /** No way to match changes the marks of groups outside the pattern. */
  lemma {:induction false} OtherMarks(inp: Input, e: Regex, b: nat, x: Config)
    ensures AllKeep(x, Match(inp, e, b, x), 2 * b, 2 * (b + Groups(e)))
    decreases e, 3
  {
    if e.Group? {
      GroupMarksOnly(inp, e, b, x);
    } else if e.Concat? {
      var ys := ConcatMarksOnly(inp, e, b, x);
    } else if e.Alt? {
      var ys := AltMarksOnly(inp, e, b, x);
    } else if e.Quant? {
      QuantKeeps(inp, e, b, x);
    } else if e.Look? {
      LookMarksOnly(inp, e, b, x);
    } else {
      PlainMarks(inp, e, b, x);
    }
  }

  lemma {:induction false} GroupMarksOnly(inp: Input, e: Regex, b: nat, x: Config)
    requires e.Group?
    ensures AllKeep(x, Match(inp, e, b, x), 2 * b, 2 * (b + Groups(e)))
    decreases e, 2
  {
    GroupKeeps(inp, e.body, b, x, 2 * (b + Groups(e)));
  }

  lemma ConcatWays(inp: Input, e: Regex, b: nat, x: Config) returns (ys: seq<Config>)
    requires e.Concat?
    ensures ys == Match(inp, e, b, x)
    ensures ys == FlatMap(Matcher(inp, e.first, b)(x), Matcher(inp, e.second, b + Groups(e.first)))
    ensures Groups(e) == Groups(e.first) + Groups(e.second)
  {
    ys := Match(inp, e, b, x);
  }

  lemma {:induction false} ConcatMarksOnly(inp: Input, e: Regex, b: nat, x: Config) returns (ys: seq<Config>)
    requires e.Concat?
    ensures ys == Match(inp, e, b, x) && AllKeep(x, ys, 2 * b, 2 * (b + Groups(e)))
    decreases e, 2
  {
    ys := ConcatWays(inp, e, b, x);
    PairKeeps(inp, e.first, e.second, b, b + Groups(e.first), x, 2 * b, 2 * (b + Groups(e)));
  }

  lemma AltWays(inp: Input, e: Regex, b: nat, x: Config) returns (ys: seq<Config>)
    requires e.Alt?
    ensures ys == Match(inp, e, b, x)
    ensures ys == Matcher(inp, e.left, b)(x) + Matcher(inp, e.right, b + Groups(e.left))(x)
    ensures Groups(e) == Groups(e.left) + Groups(e.right)
  {
    ys := Match(inp, e, b, x);
  }

  lemma {:induction false} AltMarksOnly(inp: Input, e: Regex, b: nat, x: Config) returns (ys: seq<Config>)
    requires e.Alt?
    ensures ys == Match(inp, e, b, x) && AllKeep(x, ys, 2 * b, 2 * (b + Groups(e)))
    decreases e, 2
  {
    ys := AltWays(inp, e, b, x);
    BothKeep(inp, e.left, e.right, b, b + Groups(e.left), x, 2 * b, 2 * (b + Groups(e)));
  }

  lemma {:induction false} BothKeep(inp: Input, r1: Regex, r2: Regex, b: nat, b2: nat, x: Config, lo: nat, hi: nat)
    requires lo <= 2 * b && 2 * (b + Groups(r1)) <= hi && lo <= 2 * b2 && 2 * (b2 + Groups(r2)) <= hi
    ensures AllKeep(x, Matcher(inp, r1, b)(x) + Matcher(inp, r2, b2)(x), lo, hi)
    decreases Alt(r1, r2), 1
  {
    MatcherKeeps(inp, r1, b, lo, hi);
    MatcherKeeps(inp, r2, b2, lo, hi);
    EitherKeeps(x, Matcher(inp, r1, b)(x), Matcher(inp, r2, b2)(x), lo, hi);
  }

  lemma {:induction false} LookMarksOnly(inp: Input, e: Regex, b: nat, x: Config)
    requires e.Look?
    ensures AllKeep(x, Match(inp, e, b, x), 2 * b, 2 * (b + Groups(e)))
    decreases e, 2
  {
    OtherMarks(inp, e.ahead, b, x);
  }

  lemma PlainMarks(inp: Input, e: Regex, b: nat, x: Config)
    requires e.Empty? || e.Assert? || IsSingle(e)
    ensures AllKeep(x, Match(inp, e, b, x), 2 * b, 2 * (b + Groups(e)))
  {
  }

  lemma EitherKeeps(x: Config, ys: seq<Config>, zs: seq<Config>, lo: nat, hi: nat)
    requires AllKeep(x, ys, lo, hi) && AllKeep(x, zs, lo, hi)
    ensures AllKeep(x, ys + zs, lo, hi)
  {
  }

  lemma {:induction false} GroupKeeps(inp: Input, r: Regex, b: nat, x: Config, hi: nat)
    requires hi == 2 * (b + 1 + Groups(r))
    ensures AllKeep(x, FlatMap(Match(inp, r, b + 1, SetMark(x, 2 * b)), Marker(2 * b + 1)), 2 * b, hi)
    decreases r, 5
  {
    var x1 := SetMark(x, 2 * b);
    MatcherKeeps(inp, r, b + 1, 2 * b, hi);
    KeepsOn(x, x1, Matcher(inp, r, b + 1)(x1), 2 * b, hi);
    FlatMapKeeps(x, Match(inp, r, b + 1, x1), Marker(2 * b + 1), 2 * b, hi);
  }

  lemma {:induction false} PairKeeps(inp: Input, r1: Regex, r2: Regex, b: nat, b2: nat, x: Config, lo: nat, hi: nat)
    requires lo <= 2 * b && 2 * (b + Groups(r1)) <= hi && lo <= 2 * b2 && 2 * (b2 + Groups(r2)) <= hi
    ensures AllKeep(x, FlatMap(Matcher(inp, r1, b)(x), Matcher(inp, r2, b2)), lo, hi)
    decreases Concat(r1, r2), 1
  {
    MatcherKeeps(inp, r1, b, lo, hi);
    MatcherKeeps(inp, r2, b2, lo, hi);
    FlatMapKeeps(x, Matcher(inp, r1, b)(x), Matcher(inp, r2, b2), lo, hi);
  }

  lemma {:induction false} QuantKeeps(inp: Input, e: Regex, b: nat, x: Config)
    requires e.Quant?
    ensures AllKeep(x, Match(inp, e, b, x), 2 * b, 2 * (b + Groups(e.atom)))
    decreases e, 2
  {
    var lo, hi := 2 * b, 2 * (b + Groups(e.atom));
    var x0 := if e.min == 0 then x.(caps := ResetMarks(x.caps, b, b + Groups(e.atom))) else x;
    MatcherKeeps(inp, e.atom, b, lo, hi);
    RepeatKeeps(inp, Matcher(inp, e.atom, b), e.min, e.max, e.greedy, x0, lo, hi);
    KeepsOn(x, x0, Repeat(inp, Matcher(inp, e.atom, b), e.min, e.max, e.greedy, x0), lo, hi);
  }

  lemma {:induction false} MarkedLast(ys: seq<Config>, k: nat, y: Config) returns (z: Config)
    requires y in FlatMap(ys, Marker(k))
    ensures z in ys && y.pos == z.pos && |y.caps| == |z.caps|
    ensures forall i :: 0 <= i < |y.caps| ==> y.caps[i] == if i == k then At(y.pos) else z.caps[i]
    decreases |ys|
  {
    assert FlatMap(ys, Marker(k)) == Marker(k)(ys[0]) + FlatMap(ys[1..], Marker(k));
    if y == SetMark(ys[0], k) {
      z := ys[0];
    } else {
      z := MarkedLast(ys[1..], k, y);
    }
  }

  /** Every way through a group marks where it started and where it ended. */
  lemma GroupMarks(inp: Input, r: Regex, b: nat, x: Config, y: Config)
    requires y in Match(inp, Group(r), b, x) && 2 * b + 1 < |x.caps|
    ensures |y.caps| == |x.caps| && y.caps[2 * b] == At(x.pos) && y.caps[2 * b + 1] == At(y.pos)
  {
    var x1 := SetMark(x, 2 * b);
    var ys := Match(inp, r, b + 1, x1);
    OtherMarks(inp, r, b + 1, x1);
    var z := MarkedLast(ys, 2 * b + 1, y);
    assert Keeps(x1, z, 2 * (b + 1), 2 * (b + 1 + Groups(r)));
  }

  /** An alternative prefers its left side, and comes to the right one if that fails. */
  lemma LeftFirst(inp: Input, e: Regex, b: nat, x: Config, left: seq<Config>, right: seq<Config>)
    requires e.Alt? && left == Matcher(inp, e.left, b)(x) && right == Matcher(inp, e.right, b + Groups(e.left))(x)
    ensures left != [] ==> Match(inp, e, b, x) != [] && Match(inp, e, b, x)[0] == left[0]
    ensures left == [] ==> Match(inp, e, b, x) == right
  {
    FirstOfBoth(left, right);
  }

  lemma FirstOfBoth(ys: seq<Config>, zs: seq<Config>)
    ensures ys != [] ==> ys + zs != [] && (ys + zs)[0] == ys[0]
    ensures ys == [] ==> ys + zs == zs
  {
  }

  /** The way that repeats nothing: the last one of a greedy quantifier, the first one
      of a lazy one, the only one if the maximum is zero. It forgets what the groups
      inside had captured, and changes nothing else. */
  lemma NoRepetition(inp: Input, r: Regex, max: nat, greedy: bool, b: nat, x: Config)
    ensures var ys := Match(inp, Quant(r, 0, max, greedy), b, x);
      && ys != [] && (max == 0 ==> |ys| == 1)
      && var y := ys[if greedy then |ys| - 1 else 0];
         && y.pos == x.pos && |y.caps| == |x.caps|
         && forall k :: 0 <= k < |x.caps| ==> y.caps[k] == if 2 * b <= k < 2 * (b + Groups(r)) then Null else x.caps[k]
  {
    var f, x0 := Matcher(inp, r, b), x.(caps := ResetMarks(x.caps, b, b + Groups(r)));
    if max > 0 {
      var more := RepeatAll(inp, f, 0, max, greedy, f(x0), x0);
      assert (more + [x0])[|more|] == x0 && ([x0] + more)[0] == x0;
    }
  }

  /** A lookahead consumes nothing; if it is negative, it captures nothing either. */
  lemma LookMarks(inp: Input, r: Regex, negative: bool, b: nat, x: Config, y: Config)
    requires y in Match(inp, Look(r, negative), b, x)
    ensures y.pos == x.pos && if negative then y == x else Match(inp, r, b, x) != [] && y.caps == Match(inp, r, b, x)[0].caps
  {
  }

  // ---------------------------------------------------------------------
  // Whole patterns
  // ---------------------------------------------------------------------

  /** The character classes of a pattern. */
  function Classes(e: Regex): seq<seq<U32>> {
    match e
    case Class(points) => [points]
    case Group(r) => Classes(r)
    case Concat(r1, r2) => Classes(r1) + Classes(r2)
    case Alt(r1, r2) => Classes(r1) + Classes(r2)
    case Quant(r, _, _, _) => Classes(r)
    case Look(r, _) => Classes(r)
    case _ => []
  }

  /** Every class has fewer than 65535 ranges. */
  predicate AllSmall(classes: seq<seq<U32>>) {
    forall i :: 0 <= i < |classes| ==> |classes[i]| < 131070
  }

  lemma {:induction false} ClassesFit(e: Regex)
    ensures RangesFit(e) <==> AllSmall(Classes(e))
  {
    match e
    case Group(r) => ClassesFit(r);
    case Concat(r1, r2) =>
      ClassesFit(r1);
      ClassesFit(r2);
      SmallInBoth(Classes(r1), Classes(r2));
    case Alt(r1, r2) =>
      ClassesFit(r1);
      ClassesFit(r2);
      SmallInBoth(Classes(r1), Classes(r2));
    case Quant(r, _, _, _) => ClassesFit(r);
    case Look(r, _) => ClassesFit(r);
    case Class(points) => OnlySmall(points);
    case _ =>
  }

  lemma OnlySmall(points: seq<U32>)
    ensures AllSmall([points]) <==> |points| / 2 < 65535
  {
    assert [points][0] == points;
  }

  lemma SmallInBoth(s: seq<seq<U32>>, t: seq<seq<U32>>)
    ensures AllSmall(s + t) <==> AllSmall(s) && AllSmall(t)
  {
    if AllSmall(s + t) {
      forall i | 0 <= i < |s| ensures |s[i]| < 131070 { assert (s + t)[i] == s[i]; }
      forall i | 0 <= i < |t| ensures |t[i]| < 131070 { assert (s + t)[|s| + i] == t[i]; }
    }
  }

  /** Can the pattern cover some stretch that starts at `p`? */
  ghost predicate CanMatch(e: Regex, inp: Input, p: nat) {
    exists j: nat :: Spans(inp, e, p, j)
  }

  /** There is a way to match at `p` if and only if the pattern can cover a stretch from
      there; and the first way covers the stretch that capture 0 tells. */
  lemma FirstWay(e: Regex, inp: Input, p: nat)
    requires Parsed(e) && p <= |inp.cbuf|
    ensures MatchesFrom(e, inp, p) != [] <==> CanMatch(e, inp, p)
    ensures MatchesFrom(e, inp, p) != [] ==>
      var y := MatchesFrom(e, inp, p)[0];
      && |y.caps| == 2 * (1 + Groups(e)) && y.caps[0] == At(p) && y.caps[1] == At(y.pos) && Spans(inp, e, p, y.pos)
  {
    var x, ys := StartConfig(e, p), MatchesFrom(e, inp, p);
    if ys != [] {
      GroupMarks(inp, e, 0, x, ys[0]);
      MatchSpans(inp, Group(e), 0, x, ys[0].pos);
    }
    if j: nat :| Spans(inp, e, p, j) { MatchSpans(inp, Group(e), 0, x, j); }
  }

  /** A pattern that is repeated zero times matches nothing and captures nothing. */
  lemma ZeroTimes(e: Regex, inp: Input, p: nat)
    requires Parsed(e) && e.Quant? && e.max == 0 && p <= |inp.cbuf|
    ensures MatchesFrom(e, inp, p) != []
    ensures var caps := MatchesFrom(e, inp, p)[0].caps;
      |caps| == 2 * (1 + Groups(e)) && forall k :: 0 <= k < |caps| ==> caps[k] == if k < 2 then At(p) else Null
  {
    var x := SetMark(StartConfig(e, p), 0);
    NoRepetition(inp, e.atom, 0, e.greedy, 1, x);
    var ys := Match(inp, e, 1, x);
    assert FlatMap(ys, Marker(1)) == Marker(1)(ys[0]) + FlatMap(ys[1..], Marker(1));
  }
}
