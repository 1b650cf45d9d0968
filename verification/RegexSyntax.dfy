/** Patterns, and the matcher that defines what they mean. */
module RegexSyntax {
  import opened CharSets

  /** Stands for infinity as a repetition maximum, like INT32_MAX in
      Sources/SubstrataQuickJS/libregexp.c. */
  const INFINITY := 0x7FFF_FFFF

  datatype Assertion = LineStart | LineEnd | WordBoundary | NotWordBoundary

  datatype Regex =
    | Empty
    | Char(c: nat)
    | Dot
    | Any
    | Class(points: seq<U32>)
    | Assert(kind: Assertion)
    | Group(body: Regex)
    | Concat(first: Regex, second: Regex)
    | Alt(left: Regex, right: Regex)
    | Quant(atom: Regex, min: nat, max: nat, greedy: bool)
    | Look(ahead: Regex, negative: bool)

  /** A character of the subject: one 8-bit or 16-bit unit. */
  type Unit = x: int | 0 <= x < 0x1_0000

  /** The subject and the multi-line flag. */
  datatype Input = Input(cbuf: seq<Unit>, multiLine: bool)

  datatype Mark = Null | At(index: nat)

  /** A position in the subject and the start and end marks of the captures. */
  datatype Config = Config(pos: nat, caps: seq<Mark>)

  /** Number of capture groups of a pattern. */
  function Groups(e: Regex): nat {
    match e
    case Group(r) => 1 + Groups(r)
    case Concat(r1, r2) => Groups(r1) + Groups(r2)
    case Alt(r1, r2) => Groups(r1) + Groups(r2)
    case Quant(r, _, _, _) => Groups(r)
    case Look(r, _) => Groups(r)
    case _ => 0
  }

  predicate IsSingle(e: Regex) {
    e.Char? || e.Dot? || e.Any? || e.Class?
  }

  predicate IsLineTerminator(c: nat) {
    c == 0x0A || c == 0x0D || c == 0x2028 || c == 0x2029
  }

  predicate IsWordChar(c: nat) {
    0x30 <= c <= 0x39 || 0x61 <= c <= 0x7A || 0x41 <= c <= 0x5A || c == 0x5F
  }

  /** Does a single-character pattern accept `c`? */
  predicate Accepts(e: Regex, c: nat)
    requires IsSingle(e)
  {
    match e
    case Char(d) => c == d
    case Dot => !IsLineTerminator(c)
    case Any => true
    case Class(points) => In(points, c)
  }

  predicate WordAt(inp: Input, i: int) {
    0 <= i < |inp.cbuf| && IsWordChar(inp.cbuf[i])
  }

  predicate Holds(kind: Assertion, inp: Input, i: nat) {
    match kind
    case LineStart => i == 0 || (inp.multiLine && i <= |inp.cbuf| && IsLineTerminator(inp.cbuf[i - 1]))
    case LineEnd => i == |inp.cbuf| || (inp.multiLine && i < |inp.cbuf| && IsLineTerminator(inp.cbuf[i]))
    case WordBoundary => WordAt(inp, i - 1) != WordAt(inp, i)
    case NotWordBoundary => WordAt(inp, i - 1) == WordAt(inp, i)
  }

  function SetMark(x: Config, k: nat): Config {
    if k < |x.caps| then x.(caps := x.caps[k := At(x.pos)]) else x
  }

  /** Forgets captures `lo` to `hi - 1`. */
  function ResetMarks(caps: seq<Mark>, lo: nat, hi: nat): (r: seq<Mark>)
    ensures |r| == |caps|
  {
    seq(|caps|, k requires 0 <= k < |caps| => if 2 * lo <= k < 2 * hi then Null else caps[k])
  }

  function FlatMap<A, B>(ys: seq<A>, g: A -> seq<B>): seq<B> {
    if ys == [] then [] else g(ys[0]) + FlatMap(ys[1..], g)
  }

  /** All ways a pattern can match from `x`, first choice first, as a
      backtracking matcher tries them. `b` numbers the first capture group. */
  function Match(inp: Input, e: Regex, b: nat, x: Config): seq<Config>
    decreases e, 0
  {
    match e
    case Empty => [x]
    case Assert(kind) => if Holds(kind, inp, x.pos) then [x] else []
    case Group(r) => FlatMap(Match(inp, r, b + 1, SetMark(x, 2 * b)), Marker(2 * b + 1))
    case Concat(r1, r2) => FlatMap(Match(inp, r1, b, x), Matcher(inp, r2, b + Groups(r1)))
    case Alt(r1, r2) => Match(inp, r1, b, x) + Match(inp, r2, b + Groups(r1), x)
    case Quant(r, min, max, greedy) =>
      var x0 := if min == 0 then x.(caps := ResetMarks(x.caps, b, b + Groups(r))) else x;
      Repeat(inp, Matcher(inp, r, b), min, max, greedy, x0)
    case Look(r, negative) => Looked(Match(inp, r, b, x), negative, x)
    case _ => if x.pos < |inp.cbuf| && Accepts(e, inp.cbuf[x.pos]) then [x.(pos := x.pos + 1)] else []
  }

  function Matcher(inp: Input, e: Regex, b: nat): Config -> seq<Config>
    decreases e, 1
  {
    x => Match(inp, e, b, x)
  }

  function Marker(k: nat): Config -> seq<Config> {
    x => [SetMark(x, k)]
  }

  /** A lookahead: only whether its body can match counts, and the captures of
      the first way it can. */
  function Looked(ys: seq<Config>, negative: bool, x: Config): seq<Config> {
    if negative then (if ys == [] then [x] else [])
    else (if ys == [] then [] else [x.(caps := ys[0].caps)])
  }

  function OneLess(max: nat): nat {
    if max == INFINITY then INFINITY else if max == 0 then 0 else max - 1
  }

  predicate Advanced(inp: Input, x: Config, y: Config) {
    x.pos < y.pos <= |inp.cbuf|
  }

  function Remaining(inp: Input, x: Config): nat {
    if x.pos <= |inp.cbuf| then |inp.cbuf| - x.pos else 0
  }

  /** RepeatMatcher of ECMA-262, section 22.2.2.3.1, for the atom `f`: after
      the mandatory repetitions, a repetition that matches nothing is a
      failure. */
  function Repeat(inp: Input, f: Config -> seq<Config>, min: nat, max: nat, greedy: bool, x: Config): seq<Config>
    decreases min, Remaining(inp, x), 1, 0
  {
    if max == 0 then [x] else
      var more := RepeatAll(inp, f, min, max, greedy, f(x), x);
      if min > 0 then more else if greedy then more + [x] else [x] + more
  }

  /** The further repetitions after one repetition from `x` to each of `ys`. */
  function RepeatAll(inp: Input, f: Config -> seq<Config>, min: nat, max: nat, greedy: bool, ys: seq<Config>, x: Config)
    : seq<Config>
    decreases min, Remaining(inp, x), 0, |ys|
  {
    if ys == [] then [] else
      (if min > 0 then Repeat(inp, f, min - 1, OneLess(max), greedy, ys[0])
       else if Advanced(inp, x, ys[0]) then Repeat(inp, f, 0, OneLess(max), greedy, ys[0])
       else [])
      + RepeatAll(inp, f, min, max, greedy, ys[1..], x)
  }

  function Repeater(inp: Input, f: Config -> seq<Config>, min: nat, max: nat, greedy: bool): Config -> seq<Config> {
    x => Repeat(inp, f, min, max, greedy, x)
  }

  /** `y` can follow `x`: it is not to its left, and inside the subject. */
  predicate Follows(inp: Input, x: Config, y: Config) {
    x.pos <= y.pos <= |inp.cbuf| && |y.caps| == |x.caps|
  }

  predicate AllFollow(inp: Input, x: Config, ys: seq<Config>) {
    forall i :: 0 <= i < |ys| ==> Follows(inp, x, ys[i])
  }

  /** `f` never goes left, and keeps the number of captures. */
  ghost predicate Forward(inp: Input, f: Config -> seq<Config>) {
    forall x: Config {:trigger f(x)} :: x.pos <= |inp.cbuf| ==> AllFollow(inp, x, f(x))
  }

  lemma {:induction false} FlatMapFollows(inp: Input, x: Config, ys: seq<Config>, g: Config -> seq<Config>)
    requires AllFollow(inp, x, ys) && Forward(inp, g)
    ensures AllFollow(inp, x, FlatMap(ys, g))
    decreases |ys|
  {
    if ys != [] {
      FlatMapFollows(inp, x, ys[1..], g);
      assert AllFollow(inp, ys[0], g(ys[0]));
    }
  }

  lemma {:induction false} RepeatFollows(inp: Input, f: Config -> seq<Config>, min: nat, max: nat, greedy: bool, x: Config)
    requires x.pos <= |inp.cbuf| && Forward(inp, f)
    ensures AllFollow(inp, x, Repeat(inp, f, min, max, greedy, x))
    decreases min, Remaining(inp, x), 1, 0
  {
    if max > 0 { RepeatAllFollows(inp, f, min, max, greedy, f(x), x); }
  }

  lemma {:induction false} RepeatAllFollows(inp: Input, f: Config -> seq<Config>, min: nat, max: nat, greedy: bool,
                                            ys: seq<Config>, x: Config)
    requires x.pos <= |inp.cbuf| && Forward(inp, f) && AllFollow(inp, x, ys)
    ensures AllFollow(inp, x, RepeatAll(inp, f, min, max, greedy, ys, x))
    decreases min, Remaining(inp, x), 0, |ys|
  {
    if ys != [] {
      RepeatAllFollows(inp, f, min, max, greedy, ys[1..], x);
      if min > 0 {
        RepeatFollows(inp, f, min - 1, OneLess(max), greedy, ys[0]);
      } else if Advanced(inp, x, ys[0]) {
        RepeatFollows(inp, f, 0, OneLess(max), greedy, ys[0]);
      }
    }
  }

  lemma GroupFollows(inp: Input, x: Config, ys: seq<Config>, b: nat)
    requires AllFollow(inp, SetMark(x, 2 * b), ys)
    ensures AllFollow(inp, x, FlatMap(ys, Marker(2 * b + 1)))
  {
    FlatMapFollows(inp, x, ys, Marker(2 * b + 1));
  }

  lemma LookFollows(inp: Input, x: Config, ys: seq<Config>, negative: bool)
    requires AllFollow(inp, x, ys) && x.pos <= |inp.cbuf|
    ensures AllFollow(inp, x, Looked(ys, negative, x))
  {
  }

  lemma QuantFollows(inp: Input, e: Regex, b: nat, x: Config)
    requires e.Quant? && x.pos <= |inp.cbuf| && Forward(inp, Matcher(inp, e.atom, b))
    ensures AllFollow(inp, x, Match(inp, e, b, x))
  {
    var x0 := if e.min == 0 then x.(caps := ResetMarks(x.caps, b, b + Groups(e.atom))) else x;
    RepeatFollows(inp, Matcher(inp, e.atom, b), e.min, e.max, e.greedy, x0);
  }

  /** A match ends inside the subject, at or after its start. */
  lemma {:induction false} MatchFollows(inp: Input, e: Regex, b: nat, x: Config)
    requires x.pos <= |inp.cbuf|
    ensures AllFollow(inp, x, Match(inp, e, b, x))
    decreases e, 0
  {
    match e
    case Group(r) =>
      MatchFollows(inp, r, b + 1, SetMark(x, 2 * b));
      GroupFollows(inp, x, Match(inp, r, b + 1, SetMark(x, 2 * b)), b);
    case Concat(r1, r2) =>
      MatchFollows(inp, r1, b, x);
      MatcherForward(inp, r2, b + Groups(r1));
      FlatMapFollows(inp, x, Match(inp, r1, b, x), Matcher(inp, r2, b + Groups(r1)));
    case Alt(r1, r2) =>
      MatchFollows(inp, r1, b, x);
      MatchFollows(inp, r2, b + Groups(r1), x);
    case Quant(r, min, max, greedy) =>
      MatcherForward(inp, r, b);
      QuantFollows(inp, e, b, x);
    case Look(r, negative) =>
      MatchFollows(inp, r, b, x);
      LookFollows(inp, x, Match(inp, r, b, x), negative);
    case _ =>
  }

  lemma {:induction false} MatcherForward(inp: Input, e: Regex, b: nat)
    ensures Forward(inp, Matcher(inp, e, b))
    decreases e, 1
  {
    forall x: Config | x.pos <= |inp.cbuf|
      ensures AllFollow(inp, x, Matcher(inp, e, b)(x))
    {
      MatchFollows(inp, e, b, x);
    }
  }
}
