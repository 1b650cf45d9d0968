/** Character sets as sorted boundary points (CharRange of
    Sources/SubstrataQuickJS/include/libunicode.h and
    Sources/SubstrataQuickJS/libunicode.c). */
module CharRanges {

  import opened CharSets
  import Sorting

  /** What the operations ask for: intervals may be empty or touch. */
  predicate Ascending(pt: seq<U32>) {
    |pt| % 2 == 0 && Rising(pt)
  }

  predicate Rising(pt: seq<U32>) {
    forall i, j :: 0 <= i < j < |pt| ==> pt[i] <= pt[j]
  }

  // ---------------------------------------------------------------------
  // The parity of the points at or below a character
  // ---------------------------------------------------------------------

  /** Is an odd number of points at or below `c`? */
  function Odd(pt: seq<U32>, c: int): bool {
    pt != [] && (Odd(pt[..|pt| - 1], c) != (pt[|pt| - 1] <= c))
  }

  lemma OddPoint(pt: seq<U32>, v: U32, c: int)
    ensures Odd(pt + [v], c) == (Odd(pt, c) != (v <= c))
  {
    assert (pt + [v])[..|pt|] == pt;
  }

  lemma {:induction false} OddConcat(s: seq<U32>, t: seq<U32>, c: int)
    ensures Odd(s + t, c) == (Odd(s, c) != Odd(t, c))
    decreases |t|
  {
    if t == [] {
      assert s + t == s;
    } else {
      var t1, v := t[..|t| - 1], t[|t| - 1];
      OddConcat(s, t1, c);
      assert s + t == (s + t1) + [v] && t == t1 + [v];
      OddPoint(s + t1, v, c);
      OddPoint(t1, v, c);
    }
  }

  /** If all points lie at or below `c`, the parity is that of their number. */
  lemma {:induction false} OddAll(pt: seq<U32>, c: int)
    requires forall k :: 0 <= k < |pt| ==> pt[k] <= c
    ensures Odd(pt, c) == (|pt| % 2 == 1)
  {
    if pt != [] { OddAll(pt[..|pt| - 1], c); }
  }

  lemma OddPair(x: U32, y: U32, c: int)
    ensures Odd([x, y], c) == ((x <= c) != (y <= c))
  {
    assert [x, y] == ([] + [x]) + [y];
    OddPoint([x], y, c);
    OddPoint([], x, c);
  }

  lemma InMore(pt: seq<U32>, x: U32, y: U32, c: int)
    requires |pt| % 2 == 0
    ensures In(pt + [x, y], c) == (In(pt, c) || x <= c < y)
  {
    var t, n := pt + [x, y], |pt| / 2;
    if In(pt, c) {
      var i :| 0 <= i < n && pt[2 * i] <= c < pt[2 * i + 1];
      assert t[2 * i] == pt[2 * i] && t[2 * i + 1] == pt[2 * i + 1];
    }
    if x <= c < y {
      assert t[2 * n] == x && t[2 * n + 1] == y;
    }
    if In(t, c) {
      var i :| 0 <= i < |t| / 2 && t[2 * i] <= c < t[2 * i + 1];
      if i < n { assert t[2 * i] == pt[2 * i] && t[2 * i + 1] == pt[2 * i + 1]; }
    }
  }

  /** For ascending points, membership is that parity. */
  lemma {:induction false} InIsOdd(pt: seq<U32>, c: int)
    requires Ascending(pt)
    ensures In(pt, c) == Odd(pt, c)
  {
    if pt != [] {
      var q, x, y := pt[..|pt| - 2], pt[|pt| - 2], pt[|pt| - 1];
      InIsOdd(q, c);
      assert pt == q + [x, y];
      InMore(q, x, y, c);
      OddConcat(q, [x, y], c);
      OddPair(x, y, c);
      if x <= c { OddAll(q, c); }
    }
  }

  // ---------------------------------------------------------------------
  // The normal form is unique
  // ---------------------------------------------------------------------

  lemma CanonicalRises(pt: seq<U32>)
    requires Canonical(pt)
    ensures Ascending(pt)
  {
  }

  lemma InHead(pt: seq<U32>, k: nat, c: int)
    requires |pt| % 2 == 0 && k < |pt| / 2
    ensures In(pt[2 * k..], c) == (pt[2 * k] <= c < pt[2 * k + 1] || In(pt[2 * k + 2..], c))
  {
    var s, t := pt[2 * k..], pt[2 * k + 2..];
    if In(s, c) {
      var i :| 0 <= i < |s| / 2 && s[2 * i] <= c < s[2 * i + 1];
      if i > 0 {
        var h := i - 1;
        assert t[2 * h] == s[2 * i] && t[2 * h + 1] == s[2 * i + 1];
      }
    }
    if In(t, c) {
      var h :| 0 <= h < |t| / 2 && t[2 * h] <= c < t[2 * h + 1];
      var i := h + 1;
      assert t[2 * h] == s[2 * i] && t[2 * h + 1] == s[2 * i + 1];
    }
    if pt[2 * k] <= c < pt[2 * k + 1] {
      var i := 0;
      assert s[2 * i] <= c < s[2 * i + 1];
    }
  }

  lemma InTail(pt: seq<U32>, c: int)
    requires Canonical(pt) && |pt| >= 2
    ensures Canonical(pt[2..])
    ensures In(pt, c) == (pt[0] <= c < pt[1] || In(pt[2..], c))
    ensures In(pt[2..], c) ==> c > pt[1]
  {
    assert pt[2 * 0..] == pt && 2 * 0 + 2 == 2;
    InHead(pt, 0, c);
    if In(pt[2..], c) {
      var i :| 0 <= i < |pt[2..]| / 2 && pt[2..][2 * i] <= c < pt[2..][2 * i + 1];
      assert pt[2 * i + 2] <= c && pt[1] < pt[2 * i + 2];
    }
  }

  ghost predicate SameSet(s: seq<U32>, t: seq<U32>) {
    forall c: int :: In(s, c) == In(t, c)
  }

  lemma EmptyIfNone(t: seq<U32>)
    requires Canonical(t) && forall c: int :: !In(t, c)
    ensures t == []
  {
    if t != [] { InTail(t, t[0]); }
  }

  /** Two normal forms of one set are equal. */
  lemma {:induction false} CanonicalUnique(s: seq<U32>, t: seq<U32>)
    requires Canonical(s) && Canonical(t) && SameSet(s, t)
    ensures s == t
    decreases |s|
  {
    if s == [] {
      forall c: int ensures !In(t, c) { assert In(s, c) == In(t, c); }
      EmptyIfNone(t);
    } else if t == [] {
      forall c: int ensures !In(s, c) { assert In(s, c) == In(t, c); }
      EmptyIfNone(s);
    } else {
      FirstSame(s, t);
      RestSame(s, t);
      CanonicalUnique(s[2..], t[2..]);
      assert s == [s[0], s[1]] + s[2..] && t == [t[0], t[1]] + t[2..];
    }
  }

  /** The first intervals of two normal forms of one set are equal. */
  lemma FirstSame(s: seq<U32>, t: seq<U32>)
    requires Canonical(s) && Canonical(t) && SameSet(s, t) && s != [] && t != []
    ensures s[0] == t[0] && s[1] == t[1]
  {
    InBoth(s, t, s[0]);
    InBoth(s, t, t[0]);
    InBoth(s, t, s[1]);
    InBoth(s, t, t[1]);
  }

  lemma InBoth(s: seq<U32>, t: seq<U32>, c: int)
    requires Canonical(s) && Canonical(t) && SameSet(s, t) && s != [] && t != []
    ensures (s[0] <= c < s[1] || In(s[2..], c)) == (t[0] <= c < t[1] || In(t[2..], c))
    ensures (In(s[2..], c) ==> c > s[1]) && (In(t[2..], c) ==> c > t[1])
  {
    InTail(s, c);
    InTail(t, c);
    assert In(s, c) == In(t, c);
  }

  lemma RestSame(s: seq<U32>, t: seq<U32>)
    requires Canonical(s) && Canonical(t) && SameSet(s, t) && s != [] && t != [] && s[0] == t[0] && s[1] == t[1]
    ensures Canonical(s[2..]) && Canonical(t[2..]) && SameSet(s[2..], t[2..])
  {
    InTail(s, 0);
    InTail(t, 0);
    forall c: int ensures In(s[2..], c) == In(t[2..], c) {
      InBoth(s, t, c);
    }
  }

  // ---------------------------------------------------------------------
  // Merging two point lists (cr_op)
  // ---------------------------------------------------------------------

  datatype Op = UNION | INTER | XOR

  /** The set operation, for one character. */
  predicate Apply(op: Op, a: bool, b: bool) {
    match op
    case UNION => a || b
    case INTER => a && b
    case XOR => a != b
  }

  /** `out` is the combination of what has been read of `a` and `b`. */
  ghost predicate Merged(op: Op, a: seq<U32>, b: seq<U32>, out: seq<U32>) {
    && (forall c: int :: Odd(out, c) == Apply(op, Odd(a, c), Odd(b, c)))
    && Rising(out)
    && (|out| % 2 == 1 <==> Apply(op, |a| % 2 == 1, |b| % 2 == 1))
  }

  ghost predicate AllUpTo(s: seq<U32>, v: int) {
    forall k :: 0 <= k < |s| ==> s[k] <= v
  }

  /** `s1` is `s`, or `s` with `v` added. */
  predicate Grown(s: seq<U32>, v: U32, s1: seq<U32>) {
    s1 == s || s1 == s + [v]
  }

  lemma OddGrown(s: seq<U32>, v: U32, s1: seq<U32>, c: int)
    requires Grown(s, v, s1) && AllUpTo(s, v)
    ensures AllUpTo(s1, v) && (Rising(s) ==> Rising(s1))
    ensures Odd(s1, c) == if v <= c then |s1| % 2 == 1 else Odd(s, c)
  {
    OddPoint(s, v, c);
    if v <= c { OddAll(s1, c); }
  }

  /** One round of the merge: the point `v` is read from `a`, from `b`, or from
      both. */
  lemma MergeStep(op: Op, a: seq<U32>, b: seq<U32>, out: seq<U32>, v: U32, a1: seq<U32>, b1: seq<U32>, out1: seq<U32>)
    requires Merged(op, a, b, out)
    requires AllUpTo(a, v) && AllUpTo(b, v) && AllUpTo(out, v)
    requires Grown(a, v, a1) && Grown(b, v, b1) && Grown(out, v, out1)
    requires (|out1| % 2 == 1) == Apply(op, |a1| % 2 == 1, |b1| % 2 == 1)
    ensures Merged(op, a1, b1, out1) && AllUpTo(a1, v) && AllUpTo(b1, v) && AllUpTo(out1, v)
  {
    forall c: int ensures Odd(out1, c) == Apply(op, Odd(a1, c), Odd(b1, c)) {
      OddGrown(a, v, a1, c);
      OddGrown(b, v, b1, c);
      OddGrown(out, v, out1, c);
    }
    OddGrown(a, v, a1, 0);
    OddGrown(b, v, b1, 0);
    OddGrown(out, v, out1, 0);
  }

  /** The set that `pt` holds is the combination of the sets of `a` and `b`. */
  ghost predicate Combines(op: Op, a: seq<U32>, b: seq<U32>, pt: seq<U32>) {
    forall c: int :: In(pt, c) == Apply(op, In(a, c), In(b, c))
  }

  lemma MergeEnds(op: Op, a: seq<U32>, b: seq<U32>, out: seq<U32>, pt: seq<U32>)
    requires Ascending(a) && Ascending(b) && Merged(op, a, b, out)
    requires Canonical(pt) && SameSet(pt, out)
    ensures Combines(op, a, b, pt)
  {
    forall c: int ensures In(pt, c) == Apply(op, In(a, c), In(b, c)) {
      assert In(pt, c) == In(out, c);
      InIsOdd(out, c);
      InIsOdd(a, c);
      InIsOdd(b, c);
    }
  }

  /** The operations on a set and itself, the empty set, and its complement. */
  lemma SetLaws(op: Op, a: seq<U32>, b: seq<U32>, self: seq<U32>, none: seq<U32>, whole: seq<U32>)
    requires Canonical(a) && Complements(a, b) && Canonical(self) && Canonical(none) && Canonical(whole)
    requires Combines(op, a, a, self) && Combines(op, a, [], none) && Combines(op, a, b, whole)
    requires forall c: int :: In(a, c) ==> 0 <= c < 0xFFFF_FFFF
    ensures op == UNION ==> self == a && none == a && whole == [0, 0xFFFF_FFFF]
    ensures op == INTER ==> self == a && none == [] && whole == []
    ensures op == XOR ==> self == [] && none == a && whole == [0, 0xFFFF_FFFF]
  {
    var all: seq<U32> := [0, 0xFFFF_FFFF];
    forall c: int ensures In(all, c) <==> 0 <= c < 0xFFFF_FFFF {
      if 0 <= c < 0xFFFF_FFFF { assert all[2 * 0] <= c < all[2 * 0 + 1]; }
    }
    forall c: int ensures !In([], c) && In(self, c) == Apply(op, In(a, c), In(a, c)) {}
    CanonicalUnique(self, if op == XOR then [] else a);
    CanonicalUnique(none, if op == INTER then [] else a);
    CanonicalUnique(whole, if op == INTER then [] else all);
  }

  // ---------------------------------------------------------------------
  // Merging touching intervals (cr_compress)
  // ---------------------------------------------------------------------

  /** `out` stands for what has been read of `pt` before `i`. */
  ghost predicate Compressing(pt: seq<U32>, i: nat, out: seq<U32>) {
    && i <= |pt| && i % 2 == 0 && |out| <= i
    && Canonical(out)
    && (out != [] && i < |pt| ==> out[|out| - 1] < pt[i])
    && (forall c: int :: Odd(pt, c) == (Odd(out, c) != Odd(pt[i..], c)))
  }

  /** Between `i` and `j`, every end is the next start. */
  ghost predicate Touching(pt: seq<U32>, i: nat, j: nat) {
    && i <= j && j + 1 < |pt| && j % 2 == i % 2
    && (forall c: int :: Odd(pt[i..], c) == (Odd([pt[i], pt[j + 1]], c) != Odd(pt[j + 2..], c)))
  }

  /** Dropping two equal points changes no parity. */
  lemma SkipEqual(pt: seq<U32>, i: nat, c: int)
    requires i + 1 < |pt| && pt[i] == pt[i + 1]
    ensures Odd(pt[i..], c) == Odd(pt[i + 2..], c)
  {
    assert pt[i..] == [pt[i], pt[i + 1]] + pt[i + 2..];
    OddConcat([pt[i], pt[i + 1]], pt[i + 2..], c);
    OddPair(pt[i], pt[i + 1], c);
  }

  lemma TouchingSelf(pt: seq<U32>, i: nat)
    requires i + 1 < |pt|
    ensures Touching(pt, i, i)
  {
    assert pt[i..] == [pt[i], pt[i + 1]] + pt[i + 2..];
    forall c: int ensures Odd(pt[i..], c) == (Odd([pt[i], pt[i + 1]], c) != Odd(pt[i + 2..], c)) {
      OddConcat([pt[i], pt[i + 1]], pt[i + 2..], c);
    }
  }

  lemma TouchingNext(pt: seq<U32>, i: nat, j: nat)
    requires Touching(pt, i, j) && j + 3 < |pt| && pt[j + 1] == pt[j + 2]
    ensures Touching(pt, i, j + 2)
  {
    var rest := pt[j + 4..];
    assert pt[j + 2..] == [pt[j + 2], pt[j + 3]] + rest;
    forall c: int ensures Odd(pt[i..], c) == (Odd([pt[i], pt[j + 3]], c) != Odd(rest, c)) {
      OddConcat([pt[j + 2], pt[j + 3]], rest, c);
      OddPair(pt[j + 2], pt[j + 3], c);
      OddPair(pt[i], pt[j + 1], c);
      OddPair(pt[i], pt[j + 3], c);
    }
  }

  lemma CompressSkip(pt: seq<U32>, i: nat, out: seq<U32>)
    requires Ascending(pt) && Compressing(pt, i, out) && i + 1 < |pt| && pt[i] == pt[i + 1]
    ensures Compressing(pt, i + 2, out)
  {
    forall c: int ensures Odd(pt, c) == (Odd(out, c) != Odd(pt[i + 2..], c)) {
      SkipEqual(pt, i, c);
    }
  }

  lemma CompressCopy(pt: seq<U32>, i: nat, j: nat, out: seq<U32>)
    requires Ascending(pt) && Compressing(pt, i, out) && Touching(pt, i, j)
    requires pt[i] < pt[i + 1] && (j + 3 < |pt| ==> pt[j + 1] != pt[j + 2])
    ensures Compressing(pt, j + 2, out + [pt[i], pt[j + 1]])
  {
    var pair := [pt[i], pt[j + 1]];
    forall c: int ensures Odd(pt, c) == (Odd(out + pair, c) != Odd(pt[j + 2..], c)) {
      OddConcat(out, pair, c);
    }
  }

  lemma CompressEnds(pt: seq<U32>, i: nat, out: seq<U32>)
    requires Ascending(pt) && Compressing(pt, i, out) && i + 1 >= |pt|
    ensures Canonical(out) && SameSet(out, pt)
  {
    forall c: int ensures In(out, c) == In(pt, c) {
      CanonicalRises(out);
      InIsOdd(out, c);
      InIsOdd(pt, c);
    }
  }

  // ---------------------------------------------------------------------
  // Complement (cr_invert)
  // ---------------------------------------------------------------------

  /** Of the characters below the greatest 32-bit value, `pt1` holds those that
      `pt` does not. */
  ghost predicate Complements(pt: seq<U32>, pt1: seq<U32>) {
    forall c: int :: In(pt1, c) == (0 <= c < 0xFFFF_FFFF && !In(pt, c))
  }

  function Enclosed(pt: seq<U32>): seq<U32> {
    [0] + pt + [UINT32_MAX]
  }

  lemma EnclosedAscends(pt: seq<U32>)
    requires Ascending(pt)
    ensures Ascending(Enclosed(pt))
  {
  }

  lemma InvertEnds(pt: seq<U32>, pt1: seq<U32>)
    requires Ascending(pt) && SameSet(pt1, Enclosed(pt))
    ensures Complements(pt, pt1)
  {
    forall c: int ensures In(pt1, c) == (0 <= c < UINT32_MAX && !In(pt, c)) {
      assert In(pt1, c) == In(Enclosed(pt), c);
      InEnclosed(pt, c);
    }
  }

  lemma InEnclosed(pt: seq<U32>, c: int)
    requires Ascending(pt)
    ensures In(Enclosed(pt), c) == (0 <= c < UINT32_MAX && !In(pt, c))
  {
    var t := Enclosed(pt);
    EnclosedAscends(pt);
    InIsOdd(t, c);
    InIsOdd(pt, c);
    assert t == ([0] + pt) + [UINT32_MAX] && [0] == [] + [0];
    OddPoint([0] + pt, UINT32_MAX, c);
    OddConcat([0], pt, c);
    OddPoint([], 0, c);
    if c < 0 {
      Below(pt, c);
    } else if c >= UINT32_MAX {
      OddAll(pt, c);
    }
  }

  lemma {:induction false} Below(pt: seq<U32>, c: int)
    requires c < 0
    ensures !Odd(pt, c)
  {
    if pt != [] { Below(pt[..|pt| - 1], c); }
  }

  // ---------------------------------------------------------------------
  // Sorting and joining intervals (cr_sort_and_remove_overlap)
  // ---------------------------------------------------------------------

  datatype Interval = Interval(start: U32, end: U32)

  /** point_cmp: intervals are compared by their starts only. */
  function PointCmp(x: Interval, y: Interval): int {
    if x.start > y.start then 1 else if x.start < y.start then -1 else 0
  }

  lemma PointCmpOrders()
    ensures Sorting.Ordered(PointCmp)
  {
    assert forall x: Interval, y: Interval :: Sorting.Flips(PointCmp, x, y);
    assert forall x: Interval, y: Interval, z: Interval :: Sorting.Chains(PointCmp, x, y, z);
  }

  function Intervals(pt: seq<U32>): (r: seq<Interval>)
    ensures |r| == |pt| / 2
  {
    seq(|pt| / 2, k requires 0 <= k < |pt| / 2 => Interval(pt[2 * k], pt[2 * k + 1]))
  }

  ghost predicate Covers(s: seq<Interval>, c: int) {
    exists iv :: iv in s && iv.start <= c < iv.end
  }

  lemma InIntervals(pt: seq<U32>, c: int)
    ensures In(pt, c) == Covers(Intervals(pt), c)
  {
    var s := Intervals(pt);
    if In(pt, c) {
      var i :| 0 <= i < |pt| / 2 && pt[2 * i] <= c < pt[2 * i + 1];
      assert s[i] in s && s[i].start <= c < s[i].end;
    }
    if Covers(s, c) {
      var iv :| iv in s && iv.start <= c < iv.end;
      var i :| 0 <= i < |s| && s[i] == iv;
      assert pt[2 * i] <= c < pt[2 * i + 1];
    }
  }

  /** A permutation of the intervals stands for the same set. */
  lemma PermutedSame(s: seq<U32>, t: seq<U32>)
    requires multiset(Intervals(s)) == multiset(Intervals(t))
    ensures SameSet(s, t) && forall gap: nat :: AtLeast(s, gap) == AtLeast(t, gap)
  {
    assert forall iv :: iv in Intervals(s) <==> iv in multiset(Intervals(s));
    assert forall iv :: iv in Intervals(t) <==> iv in multiset(Intervals(t));
    forall c: int ensures In(s, c) == In(t, c) {
      InIntervals(s, c);
      InIntervals(t, c);
    }
  }

  ghost predicate StartsRise(pt: seq<U32>) {
    forall i, j :: 0 <= i < j < |pt| / 2 ==> pt[2 * i] <= pt[2 * j]
  }

  /** Every interval has `gap` characters at least, for a `gap` of 0 or 1. */
  ghost predicate AtLeast(pt: seq<U32>, gap: nat) {
    forall iv :: iv in Intervals(pt) ==> iv.start as int + gap <= iv.end
  }

  lemma IntervalAt(pt: seq<U32>, gap: nat, k: nat)
    requires AtLeast(pt, gap) && k < |pt| / 2
    ensures pt[2 * k] as int + gap <= pt[2 * k + 1]
  {
    assert Intervals(pt)[k] in Intervals(pt);
  }

  /** Every end lies below the next start, and no interval is shorter than `gap`. */
  predicate Separated(pt: seq<U32>, gap: nat) {
    && |pt| % 2 == 0
    && forall i, j :: 0 <= i < j < |pt| ==> pt[i] as int + (if i % 2 == 0 && j == i + 1 then gap else 1) <= pt[j]
  }

  /** `out` stands for the intervals of `pt` before the one at `k`. */
  ghost predicate Joining(pt: seq<U32>, gap: nat, k: nat, out: seq<U32>) {
    && k <= |pt| / 2 && |out| <= 2 * k && |out| % 2 == 0
    && (AtLeast(pt, gap) ==> Separated(out, gap))
    && (AtLeast(pt, gap) && out != [] && k < |pt| / 2 ==> out[|out| - 1] < pt[2 * k])
    && (forall c: int :: In(pt, c) == (In(out, c) || In(pt[2 * k..], c)))
  }

  /** The interval from `start` to `end` stands for those from `k0` to `k`. */
  ghost predicate Growing(pt: seq<U32>, gap: nat, k0: nat, k: nat, start: U32, end: U32) {
    && k0 < k <= |pt| / 2
    && start == pt[2 * k0]
    && (AtLeast(pt, gap) ==> start as int + gap <= end)
    && (forall c: int :: In(pt[2 * k0..], c) == (start <= c < end || In(pt[2 * k..], c)))
  }

  lemma GrowingFirst(pt: seq<U32>, gap: nat, k: nat)
    requires |pt| % 2 == 0 && k < |pt| / 2
    ensures Growing(pt, gap, k, k + 1, pt[2 * k], pt[2 * k + 1])
  {
    if AtLeast(pt, gap) { IntervalAt(pt, gap, k); }
    assert 2 * (k + 1) == 2 * k + 2;
    forall c: int ensures In(pt[2 * k..], c) == (pt[2 * k] <= c < pt[2 * k + 1] || In(pt[2 * (k + 1)..], c)) {
      InHead(pt, k, c);
    }
  }

  lemma GrowingNext(pt: seq<U32>, gap: nat, k0: nat, k: nat, start: U32, end: U32)
    requires |pt| % 2 == 0 && StartsRise(pt) && Growing(pt, gap, k0, k, start, end)
    requires k < |pt| / 2 && pt[2 * k] <= end
    ensures Growing(pt, gap, k0, k + 1, start, if pt[2 * k + 1] <= end then end else pt[2 * k + 1])
  {
    var end1 := if pt[2 * k + 1] <= end then end else pt[2 * k + 1];
    assert 2 * (k + 1) == 2 * k + 2 && start <= pt[2 * k];
    forall c: int ensures In(pt[2 * k0..], c) == (start <= c < end1 || In(pt[2 * (k + 1)..], c)) {
      InHead(pt, k, c);
    }
  }

  lemma JoiningNext(pt: seq<U32>, gap: nat, k0: nat, k: nat, out: seq<U32>, start: U32, end: U32)
    requires |pt| % 2 == 0 && gap <= 1 && Joining(pt, gap, k0, out) && Growing(pt, gap, k0, k, start, end)
    requires k < |pt| / 2 ==> pt[2 * k] > end
    ensures Joining(pt, gap, k, out + [start, end])
  {
    forall c: int ensures In(pt, c) == (In(out + [start, end], c) || In(pt[2 * k..], c)) {
      InMore(out, start, end, c);
    }
  }

  // ---------------------------------------------------------------------
  // The object
  // ---------------------------------------------------------------------

  method Put(buf: array<U32>, k: nat, x: U32, y: U32)
    requires k + 1 < buf.Length
    modifies buf
    ensures buf[..k + 2] == old(buf[..k]) + [x, y]
    ensures forall m :: k + 2 <= m < buf.Length ==> buf[m] == old(buf[m])
  {
    buf[k] := x;
    buf[k + 1] := y;
  }

  /** The inner loop of cr_compress. */
  method LastTouching(pt: array<U32>, i: nat, n: nat, ghost was: seq<U32>) returns (j: nat)
    requires i + 1 < n == |was| <= pt.Length && forall m :: i <= m < n ==> pt[m] == was[m]
    ensures Touching(was, i, j) && (j + 3 < n ==> pt[j + 1] != pt[j + 2])
  {
    j := i;
    TouchingSelf(was, i);
    while j + 3 < n && pt[j + 1] == pt[j + 2]
      invariant i <= j && j + 1 < n && Touching(was, i, j)
    {
      TouchingNext(was, i, j);
      j := j + 2;
    }
  }

  /** One interval of the loop of cr_compress, with those that it touches. */
  method CopyTouching(pt: array<U32>, i0: nat, n: nat, k: nat, ghost out0: seq<U32>, ghost was: seq<U32>)
    returns (i: nat, ghost out: seq<U32>)
    requires i0 + 1 < n == |was| <= pt.Length && Ascending(was) && Compressing(was, i0, out0) && k == |out0|
    requires pt[..k] == out0 && (forall m :: i0 <= m < n ==> pt[m] == was[m]) && pt[i0] != pt[i0 + 1]
    modifies pt
    ensures i0 < i && Compressing(was, i, out) && k + 2 == |out|
    ensures pt[..k + 2] == out && forall m :: i <= m < n ==> pt[m] == was[m]
  {
    var j := LastTouching(pt, i0, n, was);
    CompressCopy(was, i0, j, out0);
    out := out0 + [was[i0], was[j + 1]];
    Put(pt, k, pt[i0], pt[j + 1]);
    i := j + 2;
  }

  /** The loop of cr_compress, on the first `n` points of `pt`. */
  method CompressPoints(pt: array<U32>, n: nat, ghost was: seq<U32>) returns (k: nat)
    requires n <= pt.Length && was == pt[..n] && Ascending(was)
    modifies pt
    ensures k <= n && Canonical(pt[..k]) && SameSet(pt[..k], was)
  {
    ghost var out: seq<U32> := [];
    var i := 0;
    k := 0;
    assert was[0..] == was;
    while i + 1 < n
      invariant Compressing(was, i, out) && k == |out|
      invariant pt[..k] == out && forall m :: i <= m < n ==> pt[m] == was[m]
    {
      if pt[i] == pt[i + 1] {
        CompressSkip(was, i, out);
        i := i + 2;
      } else {
        i, out := CopyTouching(pt, i, n, k, out, was);
        k := k + 2;
      }
    }
    CompressEnds(was, i, out);
  }

  /** The inner loop of cr_sort_and_remove_overlap: joins the interval at `i0` with
      those that overlap or touch it. */
  method JoinOverlapping(buf: array<U32>, i0: nat, n: nat, ghost pt: seq<U32>, ghost gap: nat, ghost k0: nat)
    returns (start: U32, end: U32, i: nat, ghost k: nat)
    requires i0 == 2 * k0 < n == |pt| <= buf.Length && n % 2 == 0 && StartsRise(pt)
    requires forall m :: i0 <= m < n ==> buf[m] == pt[m]
    ensures i0 < i == 2 * k <= n && Growing(pt, gap, k0, k, start, end)
    ensures i < n ==> pt[i] > end
  {
    start, end := buf[i0], buf[i0 + 1];
    i, k := i0 + 2, k0 + 1;
    GrowingFirst(pt, gap, k0);
    while i < n
      invariant i0 < i == 2 * k <= n
      invariant Growing(pt, gap, k0, k, start, end)
    {
      var start1, end1 := buf[i], buf[i + 1];
      if start1 > end {
        return;
      }
      GrowingNext(pt, gap, k0, k, start, end);
      if end1 > end {
        end := end1;
      }
      i, k := i + 2, k + 1;
    }
  }

  method GatherIntervals(pt: array<U32>, n: nat) returns (a: array<Interval>)
    requires 2 * n <= pt.Length
    ensures fresh(a) && a[..] == Intervals(pt[..2 * n])
  {
    a := new Interval[n];
    var k := 0;
    while k < n
      invariant 0 <= k <= n && forall i :: 0 <= i < k ==> a[i] == Interval(pt[2 * i], pt[2 * i + 1])
      modifies a
    {
      a[k] := Interval(pt[2 * k], pt[2 * k + 1]);
      k := k + 1;
    }
  }

  method ScatterIntervals(pt: array<U32>, a: array<Interval>)
    requires 2 * a.Length <= pt.Length
    modifies pt
    ensures Intervals(pt[..2 * a.Length]) == a[..]
  {
    var k := 0;
    while k < a.Length
      invariant 0 <= k <= a.Length
      invariant forall i :: 0 <= i < k ==> pt[2 * i] == a[i].start && pt[2 * i + 1] == a[i].end
    {
      pt[2 * k] := a[k].start;
      pt[2 * k + 1] := a[k].end;
      k := k + 1;
    }
  }

  lemma StartsSorted(pt: seq<U32>, s: seq<Interval>)
    requires Intervals(pt) == s && Sorting.Sorted(PointCmp, s, 0, |s|)
    ensures StartsRise(pt)
  {
    forall i, j | 0 <= i < j < |pt| / 2 ensures pt[2 * i] <= pt[2 * j] {
      assert PointCmp(s[i], s[j]) <= 0;
      assert s[i] == Interval(pt[2 * i], pt[2 * i + 1]) && s[j] == Interval(pt[2 * j], pt[2 * j + 1]);
    }
  }

  /** The C structure: `len` points are in use of those allocated. */
  class CharRange {
    var len: nat
    var points: array<U32>

    ghost predicate Valid()
      reads this
    {
      len <= points.Length
    }

    ghost function Points(): seq<U32>
      requires Valid()
      reads this, points
    {
      points[..len]
    }

    /** cr_init */
    constructor ()
      ensures Valid() && fresh(points) && Points() == []
    {
      len := 0;
      points := new U32[0];
    }

    /** cr_realloc: room for `size` points, the contents kept. */
    method Realloc(size: nat)
      requires Valid()
      modifies this`points
      ensures Valid() && points.Length >= size && Points() == old(Points())
      ensures points == old(points) || fresh(points)
    {
      if size > points.Length {
        var newSize := if size > points.Length * 3 / 2 then size else points.Length * 3 / 2;
        var newBuf := new U32[newSize];
        var k := 0;
        while k < len
          invariant 0 <= k <= len && newBuf[..k] == points[..k]
          modifies newBuf
        {
          newBuf[k] := points[k];
          k := k + 1;
        }
        points := newBuf;
      }
    }

    /** cr_add_point */
    method AddPoint(v: U32)
      requires Valid()
      modifies this, points
      ensures Valid() && Points() == old(Points()) + [v]
      ensures points == old(points) || fresh(points)
    {
      if len >= points.Length {
        Realloc(len + 1);
      }
      points[len] := v;
      len := len + 1;
    }

    /** cr_add_interval: the new interval is one more part of the set. */
    method AddInterval(c1: U32, c2: U32)
      requires Valid()
      modifies this, points
      ensures Valid() && Points() == old(Points()) + [c1, c2]
      ensures points == old(points) || fresh(points)
    {
      if len + 2 > points.Length {
        Realloc(len + 2);
      }
      points[len] := c1;
      len := len + 1;
      points[len] := c2;
      len := len + 1;
    }

    /** cr_compress: puts the points into normal form. */
    method Compress()
      requires Valid() && Ascending(Points())
      modifies this`len, points
      ensures Valid() && Canonical(Points()) && SameSet(Points(), old(Points()))
    {
      len := CompressPoints(points, len, Points());
    }

    /** cr_op: the object becomes the union, intersection or exclusive or of two
        sets, in normal form. */
    method Combine(op: Op, a: seq<U32>, b: seq<U32>)
      requires Valid() && len == 0
      requires Ascending(a) && Ascending(b)
      modifies this, points
      ensures Valid() && (points == old(points) || fresh(points))
      ensures Canonical(Points()) && Combines(op, a, b, Points())
      ensures op == UNION ==> forall c: int :: In(Points(), c) <==> In(a, c) || In(b, c)
      ensures op == INTER ==> forall c: int :: In(Points(), c) <==> In(a, c) && In(b, c)
      ensures op == XOR ==> forall c: int :: In(Points(), c) <==> In(a, c) != In(b, c)
    {
      ghost var out := Merge(op, a, b);
      Compress();
      MergeEnds(op, a, b, out, Points());
    }

    /** The loop of cr_op. */
    method Merge(op: Op, a: seq<U32>, b: seq<U32>) returns (ghost out: seq<U32>)
      requires Valid() && len == 0
      requires Ascending(a) && Ascending(b)
      modifies this, points
      ensures Valid() && (points == old(points) || fresh(points))
      ensures out == Points() && Merged(op, a, b, out)
    {
      var ai, bi := 0, 0;
      out := [];
      while ai < |a| || bi < |b|
        invariant Valid() && (points == old(points) || fresh(points))
        invariant 0 <= ai <= |a| && 0 <= bi <= |b| && Points() == out
        invariant Merged(op, a[..ai], b[..bi], out)
        invariant ai < |a| ==> AllUpTo(out, a[ai]) && AllUpTo(b[..bi], a[ai])
        invariant bi < |b| ==> AllUpTo(out, b[bi]) && AllUpTo(a[..ai], b[bi])
        decreases |a| - ai + |b| - bi
      {
        var v: U32;
        ghost var a0, b0, out0 := a[..ai], b[..bi], out;
        if ai < |a| && bi < |b| {
          if a[ai] < b[bi] {
            v := a[ai];
            ai := ai + 1;
          } else if a[ai] == b[bi] {
            v := a[ai];
            ai := ai + 1;
            bi := bi + 1;
          } else {
            v := b[bi];
            bi := bi + 1;
          }
        } else if ai < |a| {
          v := a[ai];
          ai := ai + 1;
        } else {
          v := b[bi];
          bi := bi + 1;
        }
        var isIn := Apply(op, ai % 2 == 1, bi % 2 == 1);
        if isIn != (len % 2 == 1) {
          AddPoint(v);
          out := out + [v];
        }
        MergeStep(op, a0, b0, out0, v, a[..ai], b[..bi], out);
      }
      assert a[..ai] == a && b[..bi] == b;
    }

    /** cr_union1 */
    method Union(b: seq<U32>)
      requires Valid() && Ascending(Points()) && Ascending(b)
      modifies this, points
      ensures Valid() && (points == old(points) || fresh(points))
      ensures Canonical(Points()) && Combines(UNION, old(Points()), b, Points())
    {
      var a := points[..len];
      len := 0;
      points := new U32[0];
      Combine(UNION, a, b);
    }

    /** cr_union_interval: adds the characters from `c1` to `c2` inclusive. */
    method UnionInterval(c1: U32, c2: U32)
      requires Valid() && Ascending(Points())
      requires c1 <= c2 < UINT32_MAX
      modifies this, points
      ensures Valid() && (points == old(points) || fresh(points))
      ensures Canonical(Points())
      ensures forall c: int :: In(Points(), c) == (In(old(Points()), c) || c1 <= c <= c2)
    {
      ghost var was := Points();
      var b: seq<U32> := [c1, c2 + 1];
      Union(b);
      forall c: int ensures In(Points(), c) == (In(was, c) || c1 <= c <= c2) {
        assert b == [] + [c1, c2 + 1];
        InMore([], c1, c2 + 1, c);
      }
    }

    /** cr_invert: the object becomes the complement. */
    method Invert()
      requires Valid() && Ascending(Points())
      modifies this, points
      ensures Valid() && (points == old(points) || fresh(points))
      ensures Canonical(Points()) && Complements(old(Points()), Points())
    {
      ghost var was := Points();
      Realloc(len + 2);
      ShiftRight();
      points[0] := 0;
      points[len + 1] := UINT32_MAX;
      len := len + 2;
      assert Points() == Enclosed(was);
      EnclosedAscends(was);
      Compress();
      InvertEnds(was, Points());
    }

    /** memmove: the points move one place up. */
    method ShiftRight()
      requires Valid() && len + 1 < points.Length
      modifies points
      ensures points[1..len + 1] == old(Points())
    {
      ghost var was := Points();
      var k := len;
      while k > 0
        invariant 0 <= k <= len
        invariant points[..k] == was[..k]
        invariant forall i :: k < i <= len ==> points[i] == was[i - 1]
        modifies points
      {
        points[k] := points[k - 1];
        k := k - 1;
      }
    }

    /** The call of rqsort on pairs of points. */
    method SortIntervals()
      requires Valid() && len % 2 == 0
      modifies points
      ensures len == old(len) && multiset(Intervals(Points())) == multiset(Intervals(old(Points())))
      ensures StartsRise(Points())
    {
      var a := GatherIntervals(points, len / 2);
      PointCmpOrders();
      var ask := new Sorting.Comparator<Interval>((n, x, y) => PointCmp(x, y));
      Sorting.Sort(a, ask, PointCmp);
      ScatterIntervals(points, a);
      StartsSorted(Points(), a[..]);
    }

    /** cr_sort_and_remove_overlap: the same set, in normal form if no interval is
        empty, and ascending if none is reversed. */
    method SortAndRemoveOverlap()
      requires Valid() && len % 2 == 0
      modifies this`len, points
      ensures Valid() && SameSet(Points(), old(Points()))
      ensures AtLeast(old(Points()), 1) ==> Canonical(Points())
      ensures AtLeast(old(Points()), 0) ==> Ascending(Points())
    {
      ghost var was := Points();
      ghost var gap := if AtLeast(was, 1) then 1 else 0;
      SortIntervals();
      ghost var pt := Points();
      PermutedSame(pt, was);
      ghost var out: seq<U32> := [];
      var buf, n := points, len;
      var i, j := 0, 0;
      ghost var k := 0;
      assert pt[0..] == pt;
      while i < n
        invariant i == 2 * k <= n
        invariant Joining(pt, gap, k, out) && j == |out|
        invariant buf[..j] == out && forall m :: i <= m < n ==> buf[m] == pt[m]
        modifies buf
      {
        var start, end, next;
        ghost var k1;
        start, end, next, k1 := JoinOverlapping(buf, i, n, pt, gap, k);
        JoiningNext(pt, gap, k, k1, out, start, end);
        i, k := next, k1;
        Put(buf, j, start, end);
        out := out + [start, end];
        j := j + 2;
      }
      len := j;
      SeparatedForms(out);
    }
  }

  /** Nonempty separated intervals are a normal form, possibly empty ones ascend. */
  lemma SeparatedForms(pt: seq<U32>)
    ensures Separated(pt, 1) <==> Canonical(pt)
    ensures Separated(pt, 0) ==> Ascending(pt)
  {
  }
}
