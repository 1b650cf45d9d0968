/** Compiling a pattern with Sources/SubstrataQuickJS/libregexp.c and running it: what
    comes out, told on the pattern and the subject. */
module RegexResult {
  import opened CharSets
  import opened RegexSyntax
  import opened RegexCode
  import opened RegexProgram
  import opened RegexMeaning
  import opened RegexExec
  import RegexCompiler

  /** lre_compile followed by lre_exec. When compilation succeeds, the run finds a
      match exactly if the pattern matches: sticky, at `start`; otherwise at some
      position from `start` on, and then at the leftmost one. The captures are
      those of the match that the pattern prefers there. */
  method CompileAndExec(e: Regex, sticky: bool, flags: nat, inp: Input, start: nat)
    returns (compiled: bool, ret: bool, capture: seq<Mark>)
    requires Parsed(e) && flags < 0x1_0000 && start <= |inp.cbuf|
    requires Compilable(e) ==> |ProgramCode(e, sticky)| + RegexCompiler.RE_HEADER_LEN < 0x8000_0000
    ensures RangesFit(e) <==> AllSmall(Classes(e))
    ensures compiled <==> RangesFit(e) && Groups(e) <= 254 && StackSize(ProgramCode(e, sticky)) <= 255
    ensures compiled && sticky ==>
      (ret <==> MatchesFrom(e, inp, start) != []) && (ret ==> capture == MatchesFrom(e, inp, start)[0].caps)
    ensures compiled && !sticky ==>
      (ret <==> exists p :: start <= p <= |inp.cbuf| && MatchesFrom(e, inp, p) != [])
    ensures compiled && !sticky && ret ==>
      exists p :: IsLeftmost(e, inp, start, p) && capture == MatchesFrom(e, inp, p)[0].caps
    ensures compiled ==>
      (ret <==> if sticky then CanMatch(e, inp, start) else exists p :: start <= p <= |inp.cbuf| && CanMatch(e, inp, p))
    ensures compiled && ret ==>
      exists p, j: nat ::
        && start <= p <= |inp.cbuf| && Spans(inp, e, p, j)
        && (if sticky then p == start else forall q :: start <= q < p ==> !CanMatch(e, inp, q))
        && |capture| == 2 * (1 + Groups(e)) && capture[0] == At(p) && capture[1] == At(j)
    ensures compiled && e.Quant? && e.max == 0 ==>
      && ret && |capture| == 2 * (1 + Groups(e))
      && forall k :: 0 <= k < |capture| ==> capture[k] == if k < 2 then At(start) else Null
  {
    ClassesFit(e);
    var bc := RegexCompiler.Compile(e, sticky, flags);
    if bc.None? {
      return false, false, [];
    }
    compiled := true;
    ret, capture := Exec(bc.value, inp, start, e, sticky, flags);
    if !sticky { LeftmostFound(e, inp, start, ret, capture); }
    StretchFound(e, sticky, inp, start, ret, capture);
    if e.Quant? && e.max == 0 { NothingFound(e, sticky, inp, start, ret, capture); }
  }

  /** The answer of a run. */
  ghost predicate IsAnswer(e: Regex, sticky: bool, inp: Input, start: nat, ret: bool, capture: seq<Mark>) {
    && (ret <==> Ways(e, sticky, inp, start) != [])
    && (ret ==> capture == Ways(e, sticky, inp, start)[0].caps)
  }

  lemma LeftmostFound(e: Regex, inp: Input, start: nat, ret: bool, capture: seq<Mark>)
    requires IsAnswer(e, false, inp, start, ret, capture) && start <= |inp.cbuf|
    ensures ret <==> exists p :: start <= p <= |inp.cbuf| && MatchesFrom(e, inp, p) != []
    ensures ret ==> exists p :: IsLeftmost(e, inp, start, p) && capture == MatchesFrom(e, inp, p)[0].caps
  {
    SearchFails(e, inp, start);
    if ret {
      var p := LeftmostOf(e, inp, start);
      SearchIsLeftmost(e, inp, start, p);
    }
  }

  lemma AllFirstWays(e: Regex, inp: Input)
    requires Parsed(e)
    ensures forall p :: 0 <= p <= |inp.cbuf| ==> (MatchesFrom(e, inp, p) != [] <==> CanMatch(e, inp, p))
  {
    forall p | 0 <= p <= |inp.cbuf| ensures MatchesFrom(e, inp, p) != [] <==> CanMatch(e, inp, p) {
      FirstWay(e, inp, p);
    }
  }

  lemma StretchFound(e: Regex, sticky: bool, inp: Input, start: nat, ret: bool, capture: seq<Mark>)
    requires IsAnswer(e, sticky, inp, start, ret, capture) && Parsed(e) && start <= |inp.cbuf|
    ensures ret <==> if sticky then CanMatch(e, inp, start) else exists p :: start <= p <= |inp.cbuf| && CanMatch(e, inp, p)
    ensures ret ==>
      exists p, j: nat ::
        && start <= p <= |inp.cbuf| && Spans(inp, e, p, j)
        && (if sticky then p == start else forall q :: start <= q < p ==> !CanMatch(e, inp, q))
        && |capture| == 2 * (1 + Groups(e)) && capture[0] == At(p) && capture[1] == At(j)
  {
    AllFirstWays(e, inp);
    if sticky {
      FirstWay(e, inp, start);
    } else {
      LeftmostFound(e, inp, start, ret, capture);
      if ret {
        var p :| IsLeftmost(e, inp, start, p) && capture == MatchesFrom(e, inp, p)[0].caps;
        FirstWay(e, inp, p);
      }
    }
  }

  lemma NothingFound(e: Regex, sticky: bool, inp: Input, start: nat, ret: bool, capture: seq<Mark>)
    requires IsAnswer(e, sticky, inp, start, ret, capture) && Parsed(e) && start <= |inp.cbuf| && e.Quant? && e.max == 0
    ensures ret && |capture| == 2 * (1 + Groups(e))
    ensures forall k :: 0 <= k < |capture| ==> capture[k] == if k < 2 then At(start) else Null
  {
    ZeroTimes(e, inp, start);
    if !sticky { SearchIsLeftmost(e, inp, start, start); }
  }

  /** `p` is the first position from `start` on at which the pattern matches. */
  ghost predicate IsLeftmost(e: Regex, inp: Input, start: nat, p: nat) {
    && start <= p <= |inp.cbuf| && MatchesFrom(e, inp, p) != []
    && forall q :: start <= q < p ==> MatchesFrom(e, inp, q) == []
  }

  lemma {:induction false} LeftmostOf(e: Regex, inp: Input, start: nat) returns (p: nat)
    requires exists q :: start <= q <= |inp.cbuf| && MatchesFrom(e, inp, q) != []
    ensures IsLeftmost(e, inp, start, p)
    decreases |inp.cbuf| - start
  {
    if MatchesFrom(e, inp, start) != [] {
      p := start;
    } else {
      p := LeftmostOf(e, inp, start + 1);
    }
  }
}
