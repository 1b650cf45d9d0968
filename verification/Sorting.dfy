/** rqsort of Sources/SubstrataQuickJS/cutils.c: an introsort with a four-part
    partition, a fixed stack of 50 entries, a heapsort fallback and insertion
    sort for small fragments, in place on an array. */
module Sorting {

  import opened Common

  predicate Flips<T>(cmp: (T, T) -> int, x: T, y: T) {
    cmp(x, y) < 0 <==> cmp(y, x) > 0
  }

  predicate Chains<T>(cmp: (T, T) -> int, x: T, y: T, z: T) {
    cmp(x, y) <= 0 && cmp(y, z) <= 0 ==> cmp(x, z) <= 0
  }

  /** The sign of `cmp` is that of a total preorder. */
  ghost predicate Ordered<T(!new)>(cmp: (T, T) -> int) {
    && (forall x: T, y: T :: Flips(cmp, x, y))
    && (forall x: T, y: T, z: T :: Chains(cmp, x, y, z))
  }

  /** The comparison function and its `opaque` argument: what it returns may depend
      on how often it has been called. */
  class Comparator<T> {
    const answer: (nat, T, T) -> int
    var calls: nat

    constructor (answer: (nat, T, T) -> int)
      ensures this.answer == answer
    {
      this.answer := answer;
      calls := 0;
    }

    method Compare(x: T, y: T) returns (c: int)
      modifies this
      ensures c == answer(old(calls), x, y)
    {
      c := answer(calls, x, y);
      calls := calls + 1;
    }
  }

  /** The answers are always those of `cmp`, and `cmp` is a total preorder. */
  ghost predicate Reliable<T(!new)>(ask: Comparator<T>, cmp: (T, T) -> int) {
    Ordered(cmp) && forall n: nat, x: T, y: T :: ask.answer(n, x, y) == cmp(x, y)
  }

  ghost predicate Sorted<T>(cmp: (T, T) -> int, s: seq<T>, lo: nat, hi: nat)
    requires hi <= |s|
  {
    forall i, j :: lo <= i < j < hi ==> cmp(s[i], s[j]) <= 0
  }

  /** `t` is `s` with the elements from `lo` to `hi - 1` permuted. */
  ghost predicate Shuffled<T>(s: seq<T>, t: seq<T>, lo: nat, hi: nat) {
    && |s| == |t| && lo <= hi <= |s|
    && (forall k :: 0 <= k < |s| && !(lo <= k < hi) ==> t[k] == s[k])
    && multiset(s) == multiset(t)
  }

  lemma ShuffledWider<T>(s: seq<T>, t: seq<T>, lo: nat, hi: nat, lo1: nat, hi1: nat)
    requires Shuffled(s, t, lo, hi) && lo1 <= lo && hi <= hi1 <= |s|
    ensures Shuffled(s, t, lo1, hi1)
  {
  }

  lemma ShuffledThen<T>(s: seq<T>, t: seq<T>, u: seq<T>, lo: nat, hi: nat)
    requires Shuffled(s, t, lo, hi) && Shuffled(t, u, lo, hi)
    ensures Shuffled(s, u, lo, hi)
  {
  }

  lemma Cancel<T>(p: multiset<T>, a: multiset<T>, b: multiset<T>, q: multiset<T>)
    requires p + a + q == p + b + q
    ensures a == b
  {
    assert a == p + a + q - p - q;
    assert b == p + b + q - p - q;
  }

  lemma ShuffledPart<T>(s: seq<T>, t: seq<T>, lo: nat, hi: nat)
    requires Shuffled(s, t, lo, hi)
    ensures multiset(s[lo..hi]) == multiset(t[lo..hi])
  {
    assert s[..lo] == t[..lo] && s[hi..] == t[hi..];
    ThreeParts(s, lo, hi);
    ThreeParts(t, lo, hi);
    Cancel(multiset(s[..lo]), multiset(s[lo..hi]), multiset(t[lo..hi]), multiset(s[hi..]));
  }

  lemma ThreeParts<T>(s: seq<T>, lo: nat, hi: nat)
    requires lo <= hi <= |s|
    ensures multiset(s) == multiset(s[..lo]) + multiset(s[lo..hi]) + multiset(s[hi..])
  {
    assert s == s[..lo] + s[lo..hi] + s[hi..];
  }

  /** Every element of the permuted part was somewhere in it. */
  lemma ShuffledFrom<T>(s: seq<T>, t: seq<T>, lo: nat, hi: nat, i: nat) returns (k: nat)
    requires Shuffled(s, t, lo, hi) && lo <= i < hi
    ensures lo <= k < hi && s[k] == t[i]
  {
    ShuffledPart(s, t, lo, hi);
    assert t[lo..hi][i - lo] in multiset(t[lo..hi]);
    assert t[i] in multiset(s[lo..hi]);
    var m :| 0 <= m < |s[lo..hi]| && s[lo..hi][m] == t[i];
    k := lo + m;
  }

  /** `t` is `s` with elements `i` and `j` exchanged. */
  ghost predicate Swapped<T>(s: seq<T>, t: seq<T>, i: nat, j: nat) {
    && |s| == |t| && i < |s| && j < |s|
    && t[i] == s[j] && t[j] == s[i]
    && forall k :: 0 <= k < |s| && k != i && k != j ==> t[k] == s[k]
  }

  /** The swap callback. */
  method Swap<T>(a: array<T>, i: nat, j: nat, ghost lo: nat, ghost hi: nat)
    requires lo <= i < hi <= a.Length && lo <= j < hi
    modifies a
    ensures Swapped(old(a[..]), a[..], i, j)
    ensures Shuffled(old(a[..]), a[..], lo, hi)
  {
    a[i], a[j] := a[j], a[i];
    assert a[..] == old(a[..])[i := old(a[j])][j := old(a[i])];
  }

  // ---------------------------------------------------------------------
  // Heapsort
  // ---------------------------------------------------------------------

  /** Element `c` of the heap at `lo` is not greater than its parent. */
  ghost predicate Below<T>(cmp: (T, T) -> int, s: seq<T>, lo: nat, c: nat)
    requires c >= 1 && lo + c < |s|
  {
    cmp(s[lo + c], s[lo + (c - 1) / 2]) <= 0
  }

  /** Nodes from `i` on are not smaller than their children, except node `r`. */
  ghost predicate HeapBut<T>(cmp: (T, T) -> int, s: seq<T>, lo: nat, i: nat, n: nat, r: int)
    requires lo + n <= |s|
  {
    forall c {:trigger Below(cmp, s, lo, c)} :: 1 <= c < n && i <= (c - 1) / 2 != r ==> Below(cmp, s, lo, c)
  }

  /** The children of `r` are not greater than the parent of `r`. */
  ghost predicate Bridged<T>(cmp: (T, T) -> int, s: seq<T>, lo: nat, n: nat, r: nat)
    requires lo + n <= |s| && r < n
  {
    r >= 1 ==>
      && (2 * r + 1 < n ==> cmp(s[lo + (2 * r + 1)], s[lo + (r - 1) / 2]) <= 0)
      && (2 * r + 2 < n ==> cmp(s[lo + (2 * r + 2)], s[lo + (r - 1) / 2]) <= 0)
  }

  lemma SiftStops<T(!new)>(cmp: (T, T) -> int, s: seq<T>, lo: nat, i: nat, n: nat, r: nat, c: nat)
    requires lo + n <= |s| && Ordered(cmp) && r < c < n && (c == 2 * r + 1 || c == 2 * r + 2)
    requires HeapBut(cmp, s, lo, i, n, r)
    requires c == 2 * r + 1 && c + 1 < n ==> cmp(s[lo + c], s[lo + (c + 1)]) > 0
    requires c == 2 * r + 2 ==> cmp(s[lo + (c - 1)], s[lo + c]) <= 0
    requires cmp(s[lo + r], s[lo + c]) > 0
    ensures HeapBut(cmp, s, lo, i, n, -1)
  {
    forall d | 1 <= d < n && i <= (d - 1) / 2
      ensures Below(cmp, s, lo, d)
    {
      if (d - 1) / 2 == r {
        assert d == 2 * r + 1 || d == 2 * r + 2;
        assert Flips(cmp, s[lo + c], s[lo + r]);
        assert d != c ==> Flips(cmp, s[lo + d], s[lo + c]) && Chains(cmp, s[lo + d], s[lo + c], s[lo + r]);
      } else {
        assert Below(cmp, s, lo, d);
      }
    }
  }

  lemma SiftMoves<T(!new)>(cmp: (T, T) -> int, s: seq<T>, t: seq<T>, lo: nat, i: nat, n: nat, r: nat, c: nat)
    requires lo + n <= |s| && Ordered(cmp) && i <= r < c < n && (c == 2 * r + 1 || c == 2 * r + 2)
    requires HeapBut(cmp, s, lo, i, n, r) && (r > i ==> Bridged(cmp, s, lo, n, r))
    requires c == 2 * r + 1 && c + 1 < n ==> cmp(s[lo + c], s[lo + (c + 1)]) > 0
    requires c == 2 * r + 2 ==> cmp(s[lo + (c - 1)], s[lo + c]) <= 0
    requires cmp(s[lo + r], s[lo + c]) <= 0
    requires Swapped(s, t, lo + r, lo + c)
    ensures HeapBut(cmp, t, lo, i, n, c) && Bridged(cmp, t, lo, n, c)
  {
    forall d | 1 <= d < n && i <= (d - 1) / 2 != c
      ensures Below(cmp, t, lo, d)
    {
      MovedBelow(cmp, s, t, lo, i, n, r, c, d);
    }
    if 2 * c + 1 < n { assert Below(cmp, s, lo, 2 * c + 1); }
    if 2 * c + 2 < n { assert Below(cmp, s, lo, 2 * c + 2); }
  }

  lemma MovedBelow<T(!new)>(cmp: (T, T) -> int, s: seq<T>, t: seq<T>, lo: nat, i: nat, n: nat, r: nat, c: nat, d: nat)
    requires lo + n <= |s| && Ordered(cmp) && i <= r < c < n && (c == 2 * r + 1 || c == 2 * r + 2)
    requires HeapBut(cmp, s, lo, i, n, r) && (r > i ==> Bridged(cmp, s, lo, n, r))
    requires c == 2 * r + 1 && c + 1 < n ==> cmp(s[lo + c], s[lo + (c + 1)]) > 0
    requires c == 2 * r + 2 ==> cmp(s[lo + (c - 1)], s[lo + c]) <= 0
    requires cmp(s[lo + r], s[lo + c]) <= 0
    requires Swapped(s, t, lo + r, lo + c)
    requires 1 <= d < n && i <= (d - 1) / 2 != c
    ensures Below(cmp, t, lo, d)
  {
    var q := (d - 1) / 2;
    if q == r {
      if d != c { assert Flips(cmp, s[lo + d], s[lo + c]); }
    } else if d != r {
      assert Below(cmp, s, lo, d);
    }
  }

  /** The inner loop of heapsortx: sinks element `i` of the heap at `lo`. */
  method SiftDown<T(!new, ==)>(a: array<T>, lo: nat, i: nat, n: nat, ask: Comparator<T>, ghost cmp: (T, T) -> int)
    requires lo + n <= a.Length && i < n
    requires Reliable(ask, cmp) ==> HeapBut(cmp, a[..], lo, i, n, i)
    modifies a, ask
    ensures Shuffled(old(a[..]), a[..], lo, lo + n)
    ensures Reliable(ask, cmp) ==> HeapBut(cmp, a[..], lo, i, n, -1)
  {
    var r := i;
    ghost var s0, s := a[..], a[..];
    while 2 * r + 1 < n
      invariant i <= r < n && a[..] == s
      invariant Shuffled(s0, s, lo, lo + n)
      invariant Reliable(ask, cmp) ==> HeapBut(cmp, s, lo, i, n, r)
      invariant Reliable(ask, cmp) && r > i ==> Bridged(cmp, s, lo, n, r)
      decreases n - r
    {
      var c := 2 * r + 1;
      if c < n - 1 {
        var next := ask.Compare(a[lo + c], a[lo + (c + 1)]);
        if next <= 0 {
          c := c + 1;
        }
      }
      var order := ask.Compare(a[lo + r], a[lo + c]);
      if order > 0 {
        if Reliable(ask, cmp) { SiftStops(cmp, s, lo, i, n, r, c); }
        return;
      }
      Swap(a, lo + r, lo + c, lo, lo + n);
      ghost var t := a[..];
      ShuffledThen(s0, s, t, lo, lo + n);
      if Reliable(ask, cmp) { SiftMoves(cmp, s, t, lo, i, n, r, c); }
      s := t;
      r := c;
    }
    if Reliable(ask, cmp) { SiftEnds(cmp, s, lo, i, n, r); }
  }

  lemma SiftEnds<T>(cmp: (T, T) -> int, s: seq<T>, lo: nat, i: nat, n: nat, r: nat)
    requires lo + n <= |s| && HeapBut(cmp, s, lo, i, n, r) && 2 * r + 1 >= n
    ensures HeapBut(cmp, s, lo, i, n, -1)
  {
    forall d | 1 <= d < n && i <= (d - 1) / 2 ensures Below(cmp, s, lo, d) {
      assert (d - 1) / 2 != r;
    }
  }

  /** The root of a heap is its greatest element. */
  lemma {:induction false} RootIsGreatest<T(!new)>(cmp: (T, T) -> int, s: seq<T>, lo: nat, n: nat, c: nat)
    requires lo + n <= |s| && Ordered(cmp) && HeapBut(cmp, s, lo, 0, n, -1) && c < n
    ensures cmp(s[lo + c], s[lo]) <= 0
    decreases c
  {
    assert Flips(cmp, s[lo], s[lo]);
    if c > 0 {
      RootIsGreatest(cmp, s, lo, n, (c - 1) / 2);
      assert Below(cmp, s, lo, c);
      assert Chains(cmp, s[lo + c], s[lo + (c - 1) / 2], s[lo]);
    }
  }

  /** Everything below `m` is at most everything from `m` on. */
  ghost predicate Divided<T>(cmp: (T, T) -> int, s: seq<T>, lo: nat, m: nat, hi: nat)
    requires hi <= |s|
  {
    forall i, j :: lo <= i < m <= j < hi ==> cmp(s[i], s[j]) <= 0
  }

  lemma DividedShuffled<T>(cmp: (T, T) -> int, s: seq<T>, t: seq<T>, lo: nat, m: nat, hi: nat)
    requires lo <= m <= hi <= |s| && Divided(cmp, s, lo, m, hi) && Shuffled(s, t, lo, m)
    ensures Divided(cmp, t, lo, m, hi)
  {
    forall i, j | lo <= i < m <= j < hi ensures cmp(t[i], t[j]) <= 0 {
      var k := ShuffledFrom(s, t, lo, m, i);
    }
  }

  /** Taking the root off the heap to the front of the sorted part. */
  lemma RootTaken<T(!new)>(cmp: (T, T) -> int, s: seq<T>, t: seq<T>, lo: nat, i: nat, n: nat)
    requires Ordered(cmp) && 0 < i < n && lo + n <= |s|
    requires HeapBut(cmp, s, lo, 0, i + 1, -1)
    requires Divided(cmp, s, lo, lo + i + 1, lo + n) && Sorted(cmp, s, lo + i + 1, lo + n)
    requires Swapped(s, t, lo, lo + i)
    ensures HeapBut(cmp, t, lo, 0, i, 0)
    ensures Divided(cmp, t, lo, lo + i, lo + n) && Sorted(cmp, t, lo + i, lo + n)
  {
    forall c | 1 <= c < i && 0 <= (c - 1) / 2 != 0 ensures Below(cmp, t, lo, c) {
      assert Below(cmp, s, lo, c);
    }
    forall k, j | lo <= k < lo + i <= j < lo + n ensures cmp(t[k], t[j]) <= 0 {
      var c := if k == lo then i else k - lo;
      assert t[k] == s[lo + c];
      RootIsGreatest(cmp, s, lo, i + 1, c);
    }
  }

  method HeapSort<T(!new, ==)>(a: array<T>, lo: nat, n: nat, ask: Comparator<T>, ghost cmp: (T, T) -> int)
    requires lo + n <= a.Length
    modifies a, ask
    ensures Shuffled(old(a[..]), a[..], lo, lo + n)
    ensures Reliable(ask, cmp) ==> Sorted(cmp, a[..], lo, lo + n)
  {
    if n <= 1 {
      return;
    }
    var i := n / 2;
    while i > 0
      invariant 0 <= i <= n / 2
      invariant Shuffled(old(a[..]), a[..], lo, lo + n)
      invariant Reliable(ask, cmp) ==> HeapBut(cmp, a[..], lo, i, n, -1)
    {
      ghost var s := a[..];
      i := i - 1;
      if Reliable(ask, cmp) { HeapGrows(cmp, s, lo, i, n); }
      SiftDown(a, lo, i, n, ask, cmp);
      ShuffledThen(old(a[..]), s, a[..], lo, lo + n);
    }
    i := n - 1;
    while i > 0
      invariant 0 <= i < n
      invariant Shuffled(old(a[..]), a[..], lo, lo + n)
      invariant Reliable(ask, cmp) ==> HeapBut(cmp, a[..], lo, 0, i + 1, -1)
      invariant Reliable(ask, cmp) ==> Divided(cmp, a[..], lo, lo + i + 1, lo + n)
      invariant Reliable(ask, cmp) ==> Sorted(cmp, a[..], lo + i + 1, lo + n)
    {
      TakeRoot(a, lo, i, n, ask, cmp);
      i := i - 1;
    }
  }

  lemma HeapGrows<T>(cmp: (T, T) -> int, s: seq<T>, lo: nat, i: nat, n: nat)
    requires lo + n <= |s| && HeapBut(cmp, s, lo, i + 1, n, -1)
    ensures HeapBut(cmp, s, lo, i, n, i)
  {
    forall c | 1 <= c < n && i <= (c - 1) / 2 != i ensures Below(cmp, s, lo, c) {
      assert i + 1 <= (c - 1) / 2;
    }
  }

  method TakeRoot<T(!new, ==)>(a: array<T>, lo: nat, i: nat, n: nat, ask: Comparator<T>, ghost cmp: (T, T) -> int)
    requires 0 < i < n && lo + n <= a.Length
    requires Reliable(ask, cmp) ==> HeapBut(cmp, a[..], lo, 0, i + 1, -1)
    requires Reliable(ask, cmp) ==> Divided(cmp, a[..], lo, lo + i + 1, lo + n)
    requires Reliable(ask, cmp) ==> Sorted(cmp, a[..], lo + i + 1, lo + n)
    modifies a, ask
    ensures Shuffled(old(a[..]), a[..], lo, lo + n)
    ensures Reliable(ask, cmp) ==> HeapBut(cmp, a[..], lo, 0, i, -1)
    ensures Reliable(ask, cmp) ==> Divided(cmp, a[..], lo, lo + i, lo + n)
    ensures Reliable(ask, cmp) ==> Sorted(cmp, a[..], lo + i, lo + n)
  {
    ghost var s := a[..];
    Swap(a, lo, lo + i, lo, lo + n);
    ghost var t := a[..];
    if Reliable(ask, cmp) { RootTaken(cmp, s, t, lo, i, n); }
    SiftDown(a, lo, 0, i, ask, cmp);
    ghost var u := a[..];
    ShuffledWider(t, u, lo, lo + i, lo, lo + n);
    ShuffledThen(s, t, u, lo, lo + n);
    if Reliable(ask, cmp) { DividedShuffled(cmp, t, u, lo, lo + i, lo + n); }
  }

  // ---------------------------------------------------------------------
  // Insertion sort
  // ---------------------------------------------------------------------

  /** Sorted from `lo` to `hi - 1`, except that the element at `j` may be smaller
      than those before it. */
  ghost predicate SortedBut<T>(cmp: (T, T) -> int, s: seq<T>, lo: nat, hi: nat, j: nat)
    requires hi <= |s|
  {
    forall k, l :: lo <= k < l < hi && l != j ==> cmp(s[k], s[l]) <= 0
  }

  lemma SinksOne<T(!new)>(cmp: (T, T) -> int, s: seq<T>, t: seq<T>, lo: nat, hi: nat, j: nat)
    requires Ordered(cmp) && lo < j < hi <= |s|
    requires SortedBut(cmp, s, lo, hi, j) && cmp(s[j - 1], s[j]) > 0 && Swapped(s, t, j, j - 1)
    ensures SortedBut(cmp, t, lo, hi, j - 1)
  {
    assert Flips(cmp, s[j], s[j - 1]);
    forall k, l | lo <= k < l < hi && l != j - 1 ensures cmp(t[k], t[l]) <= 0 {
      if l == j && k < j - 1 { assert t[k] == s[k] && t[l] == s[j - 1]; }
    }
  }

  lemma InPlace<T(!new)>(cmp: (T, T) -> int, s: seq<T>, lo: nat, hi: nat, j: nat)
    requires Ordered(cmp) && lo <= j < hi <= |s| && SortedBut(cmp, s, lo, hi, j)
    requires j == lo || cmp(s[j - 1], s[j]) <= 0
    ensures Sorted(cmp, s, lo, hi)
  {
    forall k, l | lo <= k < l < hi ensures cmp(s[k], s[l]) <= 0 {
      if l == j && k < j - 1 {
        assert cmp(s[k], s[j - 1]) <= 0;
        assert Chains(cmp, s[k], s[j - 1], s[j]);
      }
    }
  }

  method InsertionSort<T(!new, ==)>(a: array<T>, lo: nat, n: nat, ask: Comparator<T>, ghost cmp: (T, T) -> int)
    requires lo + n <= a.Length
    modifies a, ask
    ensures Shuffled(old(a[..]), a[..], lo, lo + n)
    ensures Reliable(ask, cmp) ==> Sorted(cmp, a[..], lo, lo + n)
  {
    var i := lo + 1;
    while i < lo + n
      invariant lo + 1 <= i && (n > 0 ==> i <= lo + n)
      invariant Shuffled(old(a[..]), a[..], lo, lo + n)
      invariant Reliable(ask, cmp) && n > 0 ==> Sorted(cmp, a[..], lo, i)
    {
      ghost var s := a[..];
      Insert(a, lo, n, i, ask, cmp);
      ShuffledThen(old(a[..]), s, a[..], lo, lo + n);
      i := i + 1;
    }
  }

  /** Sinks the element at `i` to its place before it. */
  method Insert<T(!new, ==)>(a: array<T>, lo: nat, n: nat, i: nat, ask: Comparator<T>, ghost cmp: (T, T) -> int)
    requires lo < i < lo + n <= a.Length
    requires Reliable(ask, cmp) ==> Sorted(cmp, a[..], lo, i)
    modifies a, ask
    ensures Shuffled(old(a[..]), a[..], lo, lo + n)
    ensures Reliable(ask, cmp) ==> Sorted(cmp, a[..], lo, i + 1)
  {
    var j := i;
    ghost var s0, s := a[..], a[..];
    while j > lo
      invariant lo <= j <= i && a[..] == s
      invariant Shuffled(s0, s, lo, lo + n)
      invariant Reliable(ask, cmp) ==> SortedBut(cmp, s, lo, i + 1, j)
    {
      var c := ask.Compare(a[j - 1], a[j]);
      if c <= 0 {
        break;
      }
      Swap(a, j, j - 1, lo, lo + n);
      ghost var t := a[..];
      ShuffledThen(s0, s, t, lo, lo + n);
      if Reliable(ask, cmp) { SinksOne(cmp, s, t, lo, i + 1, j); }
      s := t;
      j := j - 1;
    }
    if Reliable(ask, cmp) { InPlace(cmp, s, lo, i + 1, j); }
  }

  // ---------------------------------------------------------------------
  // Partition
  // ---------------------------------------------------------------------

  /** An index among `x`, `y` and `z`: that of the median if `cmp` is ordered. */
  method Med3<T(!new)>(a: array<T>, x: nat, y: nat, z: nat, ask: Comparator<T>, ghost cmp: (T, T) -> int) returns (m: nat)
    requires x < a.Length && y < a.Length && z < a.Length
    modifies ask
    ensures m == x || m == y || m == z
    ensures Reliable(ask, cmp) ==>
      || (m == x && (cmp(a[y], a[x]) <= 0 <= cmp(a[z], a[x]) || cmp(a[z], a[x]) <= 0 <= cmp(a[y], a[x])))
      || (m == y && (cmp(a[x], a[y]) <= 0 <= cmp(a[z], a[y]) || cmp(a[z], a[y]) <= 0 <= cmp(a[x], a[y])))
      || (m == z && (cmp(a[x], a[z]) <= 0 <= cmp(a[y], a[z]) || cmp(a[y], a[z]) <= 0 <= cmp(a[x], a[z])))
  {
    assert Reliable(ask, cmp) ==>
      && Flips(cmp, a[x], a[y]) && Flips(cmp, a[y], a[x]) && Flips(cmp, a[x], a[z]) && Flips(cmp, a[z], a[x])
      && Flips(cmp, a[y], a[z]) && Flips(cmp, a[z], a[y]);
    var xy := ask.Compare(a[x], a[y]);
    var yz := ask.Compare(a[y], a[z]);
    if (xy < 0 && yz < 0) || (xy >= 0 && yz > 0) {
      return y;
    }
    var xz := ask.Compare(a[x], a[z]);
    if xy < 0 {
      m := if xz < 0 then z else x;
    } else {
      m := if xz < 0 then x else z;
    }
  }

  /** The four parts around the pivot `p` at `lo`, told by offsets from `lo`:
      equal, smaller, not seen, greater, equal, as long as the answers are `ok`. */
  ghost predicate Parts<T>(ok: bool, cmp: (T, T) -> int, s: seq<T>, p: T, lo: nat, lt: nat, i: nat, j: nat, gt: nat, n: nat) {
    && 1 <= lt <= i <= j <= gt <= n && lo + n <= |s| && s[lo] == p
    && (ok ==>
      && (forall k :: lo < k < lo + lt ==> cmp(p, s[k]) == 0)
      && (forall k :: lo + lt <= k < lo + i ==> cmp(p, s[k]) > 0)
      && (forall k :: lo + j <= k < lo + gt ==> cmp(p, s[k]) < 0)
      && (forall k :: lo + gt <= k < lo + n ==> cmp(p, s[k]) == 0))
  }

  lemma UpSmaller<T>(ok: bool, cmp: (T, T) -> int, s: seq<T>, p: T, lo: nat, lt: nat, i: nat, j: nat, gt: nat, n: nat)
    requires Parts(ok, cmp, s, p, lo, lt, i, j, gt, n) && i < j && (ok ==> cmp(p, s[lo + i]) > 0)
    ensures Parts(ok, cmp, s, p, lo, lt, i + 1, j, gt, n)
  {
  }

  lemma UpEqual<T>(ok: bool, cmp: (T, T) -> int, s: seq<T>, t: seq<T>, p: T, lo: nat, lt: nat, i: nat, j: nat, gt: nat, n: nat)
    requires Parts(ok, cmp, s, p, lo, lt, i, j, gt, n) && i < j && (ok ==> cmp(p, s[lo + i]) == 0)
    requires Swapped(s, t, lo + lt, lo + i)
    ensures Parts(ok, cmp, t, p, lo, lt + 1, i + 1, j, gt, n)
  {
  }

  lemma DownGreater<T>(ok: bool, cmp: (T, T) -> int, s: seq<T>, p: T, lo: nat, lt: nat, i: nat, j: nat, gt: nat, n: nat)
    requires Parts(ok, cmp, s, p, lo, lt, i, j + 1, gt, n) && i <= j && (ok ==> cmp(p, s[lo + j]) < 0)
    ensures Parts(ok, cmp, s, p, lo, lt, i, j, gt, n)
  {
  }

  lemma DownEqual<T>(ok: bool, cmp: (T, T) -> int, s: seq<T>, t: seq<T>, p: T, lo: nat, lt: nat, i: nat, j: nat, gt: nat, n: nat)
    requires Parts(ok, cmp, s, p, lo, lt, i, j + 1, gt, n) && i < j && (ok ==> cmp(p, s[lo + j]) == 0)
    requires ok ==> cmp(p, s[lo + i]) < 0
    requires Swapped(s, t, lo + (gt - 1), lo + j)
    ensures Parts(ok, cmp, t, p, lo, lt, i, j, gt - 1, n) && (ok ==> cmp(p, t[lo + i]) < 0)
  {
  }

  lemma Exchange<T>(ok: bool, cmp: (T, T) -> int, s: seq<T>, t: seq<T>, p: T, lo: nat, lt: nat, i: nat, j: nat, gt: nat, n: nat)
    requires Parts(ok, cmp, s, p, lo, lt, i, j + 1, gt, n) && i < j
    requires ok ==> cmp(p, s[lo + j]) > 0 && cmp(p, s[lo + i]) < 0
    requires Swapped(s, t, lo + i, lo + j)
    ensures Parts(ok, cmp, t, p, lo, lt, i + 1, j, gt, n)
  {
  }

  /** Moves `i` up over elements not greater than the pivot. */
  method ScanUp<T(!new, ==)>(a: array<T>, lo: nat, n: nat, ask: Comparator<T>, ghost cmp: (T, T) -> int, lt0: nat, i0: nat, j: nat, ghost gt: nat)
    returns (lt: nat, i: nat)
    requires lo + n <= a.Length && n > 0 && Parts(Reliable(ask, cmp), cmp, a[..], a[lo], lo, lt0, i0, j, gt, n)
    modifies a, ask
    ensures Shuffled(old(a[..]), a[..], lo, lo + n)
    ensures Parts(Reliable(ask, cmp), cmp, a[..], old(a[lo]), lo, lt, i, j, gt, n)
    ensures i == j || (Reliable(ask, cmp) ==> cmp(a[lo], a[lo + i]) < 0)
  {
    lt, i := lt0, i0;
    ghost var p, s0, s := a[lo], a[..], a[..];
    while i < j
      invariant a[..] == s && Shuffled(s0, s, lo, lo + n)
      invariant Parts(Reliable(ask, cmp), cmp, s, p, lo, lt, i, j, gt, n)
    {
      var c := ask.Compare(a[lo], a[lo + i]);
      if c < 0 {
        return;
      }
      if c == 0 {
        Swap(a, lo + lt, lo + i, lo, lo + n);
        ghost var t := a[..];
        ShuffledThen(s0, s, t, lo, lo + n);
        UpEqual(Reliable(ask, cmp), cmp, s, t, p, lo, lt, i, j, gt, n);
        s := t;
        lt := lt + 1;
      } else {
        UpSmaller(Reliable(ask, cmp), cmp, s, p, lo, lt, i, j, gt, n);
      }
      i := i + 1;
    }
  }

  /** Element `j` is not smaller than the pivot; an equal one goes to the end. */
  method PassDown<T(!new, ==)>(a: array<T>, lo: nat, n: nat, c: int, ghost ok: bool, ghost cmp: (T, T) -> int,
                               ghost lt: nat, ghost i: nat, j: nat, gt0: nat)
    returns (gt: nat)
    requires lo + n <= a.Length && n > 0 && Parts(ok, cmp, a[..], a[lo], lo, lt, i, j + 1, gt0, n)
    requires i < j && c <= 0 && (ok ==> c == cmp(a[lo], a[lo + j]) && cmp(a[lo], a[lo + i]) < 0)
    modifies a
    ensures Shuffled(old(a[..]), a[..], lo, lo + n)
    ensures Parts(ok, cmp, a[..], old(a[lo]), lo, lt, i, j, gt, n) && (ok ==> cmp(a[lo], a[lo + i]) < 0)
  {
    gt := gt0;
    ghost var s := a[..];
    if c == 0 {
      Swap(a, lo + (gt - 1), lo + j, lo, lo + n);
      DownEqual(ok, cmp, s, a[..], s[lo], lo, lt, i, j, gt, n);
      gt := gt - 1;
    } else {
      DownGreater(ok, cmp, s, s[lo], lo, lt, i, j, gt, n);
    }
  }

  /** Moves `j` down over elements not smaller than the pivot; at the end `i` has
      caught up, or element `j` is smaller. */
  method ScanDown<T(!new, ==)>(a: array<T>, lo: nat, n: nat, ask: Comparator<T>, ghost cmp: (T, T) -> int, ghost lt: nat, i: nat, j0: nat, gt0: nat)
    returns (j: int, gt: nat)
    requires lo + n <= a.Length && n > 0 && Parts(Reliable(ask, cmp), cmp, a[..], a[lo], lo, lt, i, j0, gt0, n)
    requires i == j0 || (Reliable(ask, cmp) ==> cmp(a[lo], a[lo + i]) < 0)
    modifies a, ask
    ensures Shuffled(old(a[..]), a[..], lo, lo + n)
    ensures i < j ==> Parts(Reliable(ask, cmp), cmp, a[..], old(a[lo]), lo, lt, i, j + 1, gt, n) && j < j0
    ensures i < j && Reliable(ask, cmp) ==> cmp(a[lo], a[lo + j]) > 0 && cmp(a[lo], a[lo + i]) < 0
    ensures i >= j ==> Parts(Reliable(ask, cmp), cmp, a[..], old(a[lo]), lo, lt, i, i, gt, n)
  {
    ghost var p, s0, s := a[lo], a[..], a[..];
    gt := gt0;
    j := j0 - 1;
    while i < j
      invariant a[..] == s && Shuffled(s0, s, lo, lo + n)
      invariant i - 1 <= j < j0
      invariant j == i - 1 ==> Parts(Reliable(ask, cmp), cmp, s, p, lo, lt, i, i, gt, n)
      invariant j >= i ==> Parts(Reliable(ask, cmp), cmp, s, p, lo, lt, i, j + 1, gt, n)
      invariant j >= i && Reliable(ask, cmp) ==> cmp(p, s[lo + i]) < 0
      decreases j
    {
      var c := ask.Compare(a[lo], a[lo + j]);
      if c > 0 {
        return;
      }
      gt := PassDown(a, lo, n, c, Reliable(ask, cmp), cmp, lt, i, j, gt);
      ShuffledThen(s0, s, a[..], lo, lo + n);
      s := a[..];
      j := j - 1;
    }
    if j == i { DownGreater(Reliable(ask, cmp), cmp, s, p, lo, lt, i, i, gt, n); }
  }

  /** The partition loop: `i` and `j` meet between the smaller and the greater
      elements. */
  method Meet<T(!new, ==)>(a: array<T>, lo: nat, n: nat, ask: Comparator<T>, ghost cmp: (T, T) -> int) returns (lt: nat, i: nat, gt: nat)
    requires lo + n <= a.Length && n > 0
    modifies a, ask
    ensures Shuffled(old(a[..]), a[..], lo, lo + n)
    ensures Parts(Reliable(ask, cmp), cmp, a[..], old(a[lo]), lo, lt, i, i, gt, n)
  {
    lt, i, gt := 1, 1, n;
    var j, done := n, false;
    ghost var p, s0, s := a[lo], a[..], a[..];
    while !done
      invariant a[..] == s && Shuffled(s0, s, lo, lo + n)
      invariant Parts(Reliable(ask, cmp), cmp, s, p, lo, lt, i, j, gt, n) && (done ==> i == j)
      decreases !done, j
    {
      lt, i, j, gt, done := Turn(a, lo, n, ask, cmp, lt, i, j, gt);
      ShuffledThen(s0, s, a[..], lo, lo + n);
      s := a[..];
    }
  }

  /** One turn of the loop: both scans, and an exchange unless they met. */
  method Turn<T(!new, ==)>(a: array<T>, lo: nat, n: nat, ask: Comparator<T>, ghost cmp: (T, T) -> int, lt0: nat, i0: nat, j0: nat, gt0: nat)
    returns (lt: nat, i: nat, j: nat, gt: nat, done: bool)
    requires lo + n <= a.Length && n > 0 && Parts(Reliable(ask, cmp), cmp, a[..], a[lo], lo, lt0, i0, j0, gt0, n)
    modifies a, ask
    ensures Shuffled(old(a[..]), a[..], lo, lo + n)
    ensures Parts(Reliable(ask, cmp), cmp, a[..], old(a[lo]), lo, lt, i, j, gt, n)
    ensures if done then i == j else j < j0
  {
    ghost var s1 := a[..];
    lt, i := ScanUp(a, lo, n, ask, cmp, lt0, i0, j0, gt0);
    ghost var s2 := a[..];
    var j1;
    j1, gt := ScanDown(a, lo, n, ask, cmp, lt, i, j0, gt0);
    ghost var s3 := a[..];
    ShuffledThen(s1, s2, s3, lo, lo + n);
    if i >= j1 {
      j, done := i, true;
    } else {
      j, done := j1, false;
      Exchanged(a, lo, n, ask, cmp, lt, i, j, gt);
      ShuffledThen(s1, s3, a[..], lo, lo + n);
      i := i + 1;
    }
  }

  method Exchanged<T(!new, ==)>(a: array<T>, lo: nat, n: nat, ghost ask: Comparator<T>, ghost cmp: (T, T) -> int, ghost lt: nat, i: nat, j: nat, ghost gt: nat)
    requires lo + n <= a.Length && n > 0 && i < j < n && Parts(Reliable(ask, cmp), cmp, a[..], a[lo], lo, lt, i, j + 1, gt, n)
    requires Reliable(ask, cmp) ==> cmp(a[lo], a[lo + j]) > 0 && cmp(a[lo], a[lo + i]) < 0
    modifies a
    ensures Shuffled(old(a[..]), a[..], lo, lo + n)
    ensures Parts(Reliable(ask, cmp), cmp, a[..], old(a[lo]), lo, lt, i + 1, j, gt, n)
  {
    ghost var s := a[..];
    Swap(a, lo + i, lo + j, lo, lo + n);
    Exchange(Reliable(ask, cmp), cmp, s, a[..], s[lo], lo, lt, i, j, gt, n);
  }

  /** `t` is `s` with the blocks of `len` elements at `x` and `y` exchanged. */
  ghost predicate BlocksSwapped<T>(s: seq<T>, t: seq<T>, x: nat, y: nat, len: nat) {
    && |s| == |t| && x + len <= y && y + len <= |s|
    && (forall m :: x <= m < x + len ==> t[m] == s[m + (y - x)])
    && (forall m :: y <= m < y + len ==> t[m] == s[m - (y - x)])
    && (forall m :: 0 <= m < |s| && !(x <= m < x + len) && !(y <= m < y + len) ==> t[m] == s[m])
  }

  lemma OneMoreSwapped<T>(s0: seq<T>, s: seq<T>, t: seq<T>, x: nat, y: nat, k: nat)
    requires x + k < y && y + k < |s| && BlocksSwapped(s0, s, x, y, k) && Swapped(s, t, x + k, y + k)
    ensures BlocksSwapped(s0, t, x, y, k + 1)
  {
  }

  /** swap_block */
  method SwapBlock<T>(a: array<T>, x: nat, y: nat, len: nat, ghost lo: nat, ghost hi: nat)
    requires lo <= x && x + len <= y && y + len <= hi <= a.Length
    modifies a
    ensures BlocksSwapped(old(a[..]), a[..], x, y, len)
    ensures Shuffled(old(a[..]), a[..], lo, hi)
  {
    ghost var s0, s := a[..], a[..];
    var k := 0;
    while k < len
      invariant 0 <= k <= len && a[..] == s
      invariant Shuffled(s0, s, lo, hi) && BlocksSwapped(s0, s, x, y, k)
    {
      Swap(a, x + k, y + k, lo, hi);
      ghost var t := a[..];
      ShuffledThen(s0, s, t, lo, hi);
      OneMoreSwapped(s0, s, t, x, y, k);
      s := t;
      k := k + 1;
    }
  }

  /** Smaller elements up to `l`, elements equal to `p` up to `g`, then greater. */
  ghost predicate Centred<T>(cmp: (T, T) -> int, s: seq<T>, p: T, lo: nat, l: nat, g: nat, hi: nat) {
    && lo <= l <= g <= hi <= |s|
    && (forall k :: lo <= k < l ==> cmp(p, s[k]) > 0)
    && (forall k :: l <= k < g ==> cmp(p, s[k]) == 0)
    && (forall k :: g <= k < hi ==> cmp(p, s[k]) < 0)
  }

  /** After the first block swap: smaller elements, then equal ones up to `i`. */
  ghost predicate LeftCentred<T>(cmp: (T, T) -> int, s: seq<T>, p: T, lo: nat, l: nat, i: nat, gt: nat, n: nat) {
    && l <= i <= gt <= n && lo + n <= |s|
    && (forall k :: lo <= k < lo + l ==> cmp(p, s[k]) > 0)
    && (forall k :: lo + l <= k < lo + i ==> cmp(p, s[k]) == 0)
    && (forall k :: lo + i <= k < lo + gt ==> cmp(p, s[k]) < 0)
    && (forall k :: lo + gt <= k < lo + n ==> cmp(p, s[k]) == 0)
  }

  lemma LeftSwap<T(!new)>(cmp: (T, T) -> int, s: seq<T>, t: seq<T>, p: T, lo: nat, lt: nat, i: nat, gt: nat, n: nat)
    requires Ordered(cmp) && Parts(true, cmp, s, p, lo, lt, i, i, gt, n)
    requires BlocksSwapped(s, t, lo, lo + i - Min(lt, i - lt), Min(lt, i - lt))
    ensures LeftCentred(cmp, t, p, lo, i - lt, i, gt, n)
  {
    assert Flips(cmp, p, p);
  }

  lemma RightSwap<T>(cmp: (T, T) -> int, s: seq<T>, t: seq<T>, p: T, lo: nat, l: nat, i: nat, gt: nat, n: nat)
    requires LeftCentred(cmp, s, p, lo, l, i, gt, n)
    requires BlocksSwapped(s, t, lo + i, lo + n - Min(n - gt, gt - i), Min(n - gt, gt - i))
    ensures Centred(cmp, t, p, lo, lo + l, lo + (n - (gt - i)), lo + n)
  {
  }

  /** Two elements are in order unless both are before `l` or both from `g` on. */
  ghost predicate Pieces<T>(cmp: (T, T) -> int, s: seq<T>, lo: nat, l: nat, g: nat, hi: nat)
    requires hi <= |s|
  {
    forall i, j :: lo <= i < j < hi && j >= l && i < g ==> cmp(s[i], s[j]) <= 0
  }

  lemma CentredPieces<T(!new)>(cmp: (T, T) -> int, s: seq<T>, p: T, lo: nat, l: nat, g: nat, hi: nat)
    requires Ordered(cmp) && Centred(cmp, s, p, lo, l, g, hi)
    ensures Pieces(cmp, s, lo, l, g, hi)
  {
    forall i, j | lo <= i < j < hi && j >= l && i < g ensures cmp(s[i], s[j]) <= 0 {
      assert cmp(p, s[j]) <= 0 && cmp(p, s[i]) >= 0;
      assert Flips(cmp, p, s[i]) && Flips(cmp, s[i], p);
      assert Chains(cmp, s[i], p, s[j]);
    }
  }

  /** The whole partition of the segment of `n` elements at `lo`. */
  method Partition<T(!new, ==)>(a: array<T>, lo: nat, n: nat, ask: Comparator<T>, ghost cmp: (T, T) -> int) returns (lt: nat, gt: nat)
    requires lo + n <= a.Length && n > 6
    modifies a, ask
    ensures Shuffled(old(a[..]), a[..], lo, lo + n)
    ensures lt < gt <= n
    ensures Reliable(ask, cmp) ==> Pieces(cmp, a[..], lo, lo + lt, lo + gt, lo + n)
  {
    ghost var s0 := a[..];
    var m4 := n / 4;
    var m := Med3(a, lo + m4, lo + 2 * m4, lo + 3 * m4, ask, cmp);
    Swap(a, lo, m, lo, lo + n);
    ghost var s1, p := a[..], a[lo];
    var i;
    lt, i, gt := Meet(a, lo, n, ask, cmp);
    ghost var s2 := a[..];
    ShuffledThen(s0, s1, s2, lo, lo + n);
    lt, gt := Centre(a, lo, n, ask, cmp, lt, i, gt, p);
    ShuffledThen(s0, s2, a[..], lo, lo + n);
  }

  /** Moves the equal elements from both ends to the middle. */
  method Centre<T(!new, ==)>(a: array<T>, lo: nat, n: nat, ghost ask: Comparator<T>, ghost cmp: (T, T) -> int, lt0: nat, i: nat, gt0: nat, ghost p: T)
    returns (lt: nat, gt: nat)
    requires lo + n <= a.Length && Parts(Reliable(ask, cmp), cmp, a[..], p, lo, lt0, i, i, gt0, n)
    modifies a
    ensures Shuffled(old(a[..]), a[..], lo, lo + n)
    ensures lt < gt <= n
    ensures Reliable(ask, cmp) ==> Pieces(cmp, a[..], lo, lo + lt, lo + gt, lo + n)
  {
    ghost var s0 := a[..];
    lt := i - lt0;
    CentreLeft(a, lo, n, ask, cmp, lt0, i, gt0, p);
    ghost var s1 := a[..];
    gt := n - (gt0 - i);
    CentreRight(a, lo, n, ask, cmp, lt, i, gt0, p);
    ShuffledThen(s0, s1, a[..], lo, lo + n);
  }

  method CentreLeft<T(!new, ==)>(a: array<T>, lo: nat, n: nat, ghost ask: Comparator<T>, ghost cmp: (T, T) -> int, lt: nat, i: nat, ghost gt: nat, ghost p: T)
    requires lo + n <= a.Length && Parts(Reliable(ask, cmp), cmp, a[..], p, lo, lt, i, i, gt, n)
    modifies a
    ensures Shuffled(old(a[..]), a[..], lo, lo + n)
    ensures Reliable(ask, cmp) ==> LeftCentred(cmp, a[..], p, lo, i - lt, i, gt, n)
  {
    ghost var s := a[..];
    var span := Min(lt, i - lt);
    SwapBlock(a, lo, lo + i - span, span, lo, lo + n);
    if Reliable(ask, cmp) { LeftSwap(cmp, s, a[..], p, lo, lt, i, gt, n); }
  }

  method CentreRight<T(!new, ==)>(a: array<T>, lo: nat, n: nat, ghost ask: Comparator<T>, ghost cmp: (T, T) -> int, ghost lt: nat, i: nat, gt: nat, ghost p: T)
    requires lo + n <= a.Length && lt < i <= gt <= n
    requires Reliable(ask, cmp) ==> LeftCentred(cmp, a[..], p, lo, lt, i, gt, n)
    modifies a
    ensures Shuffled(old(a[..]), a[..], lo, lo + n)
    ensures Reliable(ask, cmp) ==> Pieces(cmp, a[..], lo, lo + lt, lo + (n - (gt - i)), lo + n)
  {
    ghost var s := a[..];
    var span := Min(n - gt, gt - i);
    SwapBlock(a, lo + i, lo + n - span, span, lo, lo + n);
    if Reliable(ask, cmp) {
      RightSwap(cmp, s, a[..], p, lo, lt, i, gt, n);
      CentredPieces(cmp, a[..], p, lo, lo + lt, lo + (n - (gt - i)), lo + n);
    }
  }

  // ---------------------------------------------------------------------
  // The sort
  // ---------------------------------------------------------------------

  datatype Entry = Entry(base: nat, count: nat, depth: nat)

  predicate Inside(e: Entry, i: int) {
    e.base <= i < e.base + e.count
  }

  /** The segments still to sort lie in the array, apart from each other. */
  ghost predicate Apart(pend: seq<Entry>, n: nat) {
    && (forall k :: 0 <= k < |pend| ==> pend[k].base + pend[k].count <= n)
    && (forall k, l, i :: 0 <= k < l < |pend| && Inside(pend[k], i) ==> !Inside(pend[l], i))
  }

  predicate Together(e: Entry, i: int, j: int) {
    Inside(e, i) && Inside(e, j)
  }

  /** Two elements are in order unless they are in the same segment. */
  ghost predicate Settled<T>(cmp: (T, T) -> int, s: seq<T>, pend: seq<Entry>) {
    forall i, j :: 0 <= i < j < |s| && (forall k :: 0 <= k < |pend| ==> !Together(pend[k], i, j)) ==>
      cmp(s[i], s[j]) <= 0
  }

  ghost function Measure(pend: seq<Entry>): nat {
    if pend == [] then 0 else Measure(pend[..|pend| - 1]) + 2 * pend[|pend| - 1].count + 1
  }

  /** Two elements are in order unless they are in the same segment of `rest` or
      both in `e`. */
  ghost predicate SettledOutside<T>(cmp: (T, T) -> int, s: seq<T>, rest: seq<Entry>, e: Entry) {
    forall i, j ::
      (0 <= i < j < |s| && !Together(e, i, j) && (forall k :: 0 <= k < |rest| ==> !Together(rest[k], i, j))) ==>
        cmp(s[i], s[j]) <= 0
  }

  /** Sorting inside one segment keeps the rest settled. */
  lemma SettledShuffled<T>(cmp: (T, T) -> int, s: seq<T>, t: seq<T>, rest: seq<Entry>, e: Entry)
    requires Settled(cmp, s, rest + [e]) && Apart(rest + [e], |s|) && Shuffled(s, t, e.base, e.base + e.count)
    ensures SettledOutside(cmp, t, rest, e)
  {
    var pend := rest + [e];
    forall i, j | 0 <= i < j < |t| && !Together(e, i, j)
                  && (forall k :: 0 <= k < |rest| ==> !Together(rest[k], i, j))
      ensures cmp(t[i], t[j]) <= 0
    {
      var i1, j1 := i, j;
      if Inside(e, i) {
        i1 := ShuffledFrom(s, t, e.base, e.base + e.count, i);
      }
      if Inside(e, j) {
        j1 := ShuffledFrom(s, t, e.base, e.base + e.count, j);
      }
      assert s[i1] == t[i] && s[j1] == t[j] && i1 < j1;
      forall k | 0 <= k < |pend| ensures !Together(pend[k], i1, j1) {
        if k < |rest| {
          assert pend[k] == rest[k] && pend[|rest|] == e;
          assert Inside(e, i1) ==> !Inside(rest[k], i1);
          assert Inside(e, j1) ==> !Inside(rest[k], j1);
        }
      }
    }
  }

  /** A segment that has been sorted needs no more attention. */
  lemma SegmentDone<T>(cmp: (T, T) -> int, s: seq<T>, t: seq<T>, rest: seq<Entry>, e: Entry)
    requires Settled(cmp, s, rest + [e]) && Apart(rest + [e], |s|) && Shuffled(s, t, e.base, e.base + e.count)
    requires Sorted(cmp, t, e.base, e.base + e.count)
    ensures Settled(cmp, t, rest)
  {
    SettledShuffled(cmp, s, t, rest, e);
  }

  lemma ApartRest(rest: seq<Entry>, e: Entry, n: nat)
    requires Apart(rest + [e], n)
    ensures Apart(rest, n) && e.base + e.count <= n
    ensures forall k, i :: 0 <= k < |rest| && Inside(rest[k], i) ==> !Inside(e, i)
  {
    var pend := rest + [e];
    assert pend[|rest|] == e;
    forall k | 0 <= k < |rest| ensures pend[k] == rest[k] {}
  }

  /** A segment that shrinks, and does not move, stays apart. */
  lemma ApartShrinks(rest: seq<Entry>, e: Entry, e1: Entry, n: nat)
    requires Apart(rest + [e], n) && e.base <= e1.base && e1.base + e1.count <= e.base + e.count
    ensures Apart(rest + [e1], n)
  {
    ApartRest(rest, e, n);
    var pend := rest + [e1];
    forall k, l, i | 0 <= k < l < |pend| && Inside(pend[k], i) ensures !Inside(pend[l], i) {
      if l == |rest| {
        assert Inside(rest[k], i) && (Inside(e1, i) ==> Inside(e, i));
      }
    }
  }

  /** A segment replaced by two parts of it. */
  lemma ApartSplits(rest: seq<Entry>, e: Entry, e1: Entry, e2: Entry, n: nat)
    requires Apart(rest + [e], n)
    requires e.base <= e1.base && e1.base + e1.count <= e.base + e.count
    requires e.base <= e2.base && e2.base + e2.count <= e.base + e.count
    requires e1.base + e1.count <= e2.base || e2.base + e2.count <= e1.base
    ensures Apart(rest + [e1] + [e2], n)
  {
    ApartShrinks(rest, e, e1, n);
    ApartShrinks(rest, e, e2, n);
    ApartRest(rest, e1, n);
    ApartRest(rest, e2, n);
    var pend := rest + [e1] + [e2];
    assert pend[|rest|] == e1 && pend[|rest| + 1] == e2;
    forall k, l, i | 0 <= k < l < |pend| && Inside(pend[k], i) ensures !Inside(pend[l], i) {
      if l < |rest| { assert pend[k] == rest[k] && pend[l] == rest[l]; }
      else if k < |rest| { assert pend[k] == rest[k]; }
    }
  }

  lemma SplitSettled<T>(cmp: (T, T) -> int, s: seq<T>, t: seq<T>, rest: seq<Entry>, e: Entry, e1: Entry, e2: Entry,
                        l: nat, g: nat)
    requires Settled(cmp, s, rest + [e]) && Apart(rest + [e], |s|) && Shuffled(s, t, e.base, e.base + e.count)
    requires Pieces(cmp, t, e.base, l, g, e.base + e.count) && e.base <= l < g <= e.base + e.count
    requires (forall i :: Inside(e1, i) <==> e.base <= i < l) || (forall i :: Inside(e1, i) <==> g <= i < e.base + e.count)
    requires (forall i :: Inside(e2, i) <==> e.base <= i < l) || (forall i :: Inside(e2, i) <==> g <= i < e.base + e.count)
    requires (forall i :: e.base <= i < l ==> Inside(e1, i) || Inside(e2, i))
    requires (forall i :: g <= i < e.base + e.count ==> Inside(e1, i) || Inside(e2, i))
    ensures Settled(cmp, t, rest + [e1] + [e2])
  {
    SettledShuffled(cmp, s, t, rest, e);
    var pend := rest + [e1] + [e2];
    forall i, j | 0 <= i < j < |t| && (forall k :: 0 <= k < |pend| ==> !Together(pend[k], i, j))
      ensures cmp(t[i], t[j]) <= 0
    {
      assert pend[|rest|] == e1 && pend[|rest| + 1] == e2;
      assert !Together(e1, i, j) && !Together(e2, i, j);
      forall k | 0 <= k < |rest| ensures !Together(rest[k], i, j) { assert pend[k] == rest[k]; }
    }
  }

  lemma MeasurePush(pend: seq<Entry>, e: Entry)
    ensures Measure(pend + [e]) == Measure(pend) + 2 * e.count + 1
  {
    assert (pend + [e])[..|pend|] == pend;
  }

  /** The number of entries of the stack of rqsort. */
  const STACK_SIZE := 50

  /** The entry at index `k` of the stack was pushed at depth `k + 1` or more, and
      no deeper than the limit; so there are at most 50 entries. */
  predicate Deep(pend: seq<Entry>) {
    forall k :: 0 <= k < |pend| ==> k + 1 <= pend[k].depth <= STACK_SIZE
  }

  /** What holds of the array, the stacked segments and the segment at hand. */
  ghost predicate Working<T>(ok: bool, cmp: (T, T) -> int, s: seq<T>, rest: seq<Entry>, e: Entry) {
    && Apart(rest + [e], |s|)
    && (ok ==> Settled(cmp, s, rest + [e]))
  }

  /** One partition: the larger part goes on the stack, the smaller one is next.
      For any comparison results there is room on the stack. */
  method DivideOnce<T(!new, ==)>(a: array<T>, ask: Comparator<T>, ghost cmp: (T, T) -> int, stack0: seq<Entry>, e0: Entry)
    returns (stack: seq<Entry>, e: Entry)
    requires |stack0| < e0.depth <= STACK_SIZE && Deep(stack0) && e0.count > 6
    requires Working(Reliable(ask, cmp), cmp, a[..], stack0, e0)
    modifies a, ask
    ensures |stack| == |stack0| + 1 <= STACK_SIZE && Deep(stack)
    ensures e.depth == e0.depth && e.count < e0.count
    ensures Shuffled(old(a[..]), a[..], 0, a.Length)
    ensures Working(Reliable(ask, cmp), cmp, a[..], stack, e)
    ensures Measure(stack) + 2 * e.count < Measure(stack0) + 2 * e0.count
  {
    ghost var s := a[..];
    ApartRest(stack0, e0, a.Length);
    var base, n := e0.base, e0.count;
    var lt, gt := Partition(a, base, n, ask, cmp);
    ghost var t := a[..];
    ShuffledWider(s, t, base, base + n, 0, a.Length);
    var pushed: Entry;
    if lt > n - gt {
      pushed := Entry(base, lt, e0.depth);
      e := Entry(base + gt, n - gt, e0.depth);
    } else {
      pushed := Entry(base + gt, n - gt, e0.depth);
      e := Entry(base, lt, e0.depth);
    }
    stack := stack0 + [pushed];
    MeasurePush(stack0, pushed);
    ApartSplits(stack0, e0, pushed, e, a.Length);
    if Reliable(ask, cmp) { SplitSettled(cmp, s, t, stack0, e0, pushed, e, base + lt, base + gt); }
  }

  /** Divides the segment at hand until it is small, or sorts it when the depth
      limit is reached. */
  method Divide<T(!new, ==)>(a: array<T>, ask: Comparator<T>, ghost cmp: (T, T) -> int, stack0: seq<Entry>, e0: Entry)
    returns (stack: seq<Entry>, e: Entry)
    requires |stack0| <= e0.depth <= STACK_SIZE && Deep(stack0)
    requires Working(Reliable(ask, cmp), cmp, a[..], stack0, e0)
    modifies a, ask
    ensures |stack| <= STACK_SIZE && Deep(stack)
    ensures Shuffled(old(a[..]), a[..], 0, a.Length)
    ensures Working(Reliable(ask, cmp), cmp, a[..], stack, e)
    ensures Measure(stack) <= Measure(stack0) + 2 * e0.count
  {
    stack, e := stack0, e0;
    ghost var s0, s := a[..], a[..];
    while e.count > 6
      invariant |stack| <= e.depth <= STACK_SIZE && Deep(stack)
      invariant a[..] == s && Shuffled(s0, s, 0, |s|)
      invariant Working(Reliable(ask, cmp), cmp, s, stack, e)
      invariant Measure(stack) + 2 * e.count <= Measure(stack0) + 2 * e0.count
      decreases e.count
    {
      var e1 := Entry(e.base, e.count, e.depth + 1);
      if e1.depth > STACK_SIZE {
        GiveUp(a, ask, cmp, stack, e);
        ShuffledThen(s0, s, a[..], 0, |s|);
        e := Entry(e.base, 0, e1.depth);
        return;
      }
      SameSegment(Reliable(ask, cmp), cmp, s, stack, e, e1);
      stack, e := DivideOnce(a, ask, cmp, stack, e1);
      ShuffledThen(s0, s, a[..], 0, |s|);
      s := a[..];
    }
  }

  lemma SameSegment<T>(ok: bool, cmp: (T, T) -> int, s: seq<T>, rest: seq<Entry>, e: Entry, e1: Entry)
    requires Working(ok, cmp, s, rest, e) && e1.base == e.base && e1.count == e.count
    ensures Working(ok, cmp, s, rest, e1)
  {
    ApartShrinks(rest, e, e1, |s|);
    if ok {
      forall i, j | 0 <= i < j < |s| && (forall k :: 0 <= k < |rest + [e1]| ==> !Together((rest + [e1])[k], i, j))
        ensures cmp(s[i], s[j]) <= 0
      {
        assert (rest + [e1])[|rest|] == e1;
        forall k | 0 <= k < |rest + [e]| ensures !Together((rest + [e])[k], i, j) {
          if k < |rest| { assert (rest + [e1])[k] == rest[k]; }
        }
      }
    }
  }

  /** The heapsort fallback; nothing of the segment is left to do. */
  method GiveUp<T(!new, ==)>(a: array<T>, ask: Comparator<T>, ghost cmp: (T, T) -> int, ghost rest: seq<Entry>, e: Entry)
    requires Working(Reliable(ask, cmp), cmp, a[..], rest, e)
    modifies a, ask
    ensures Shuffled(old(a[..]), a[..], 0, a.Length)
    ensures forall depth: nat :: Working(Reliable(ask, cmp), cmp, a[..], rest, Entry(e.base, 0, depth))
  {
    ghost var s := a[..];
    ApartRest(rest, e, a.Length);
    HeapSort(a, e.base, e.count, ask, cmp);
    ShuffledWider(s, a[..], e.base, e.base + e.count, 0, a.Length);
    forall depth: nat ensures Working(Reliable(ask, cmp), cmp, a[..], rest, Entry(e.base, 0, depth)) {
      ApartShrinks(rest, e, Entry(e.base, 0, depth), a.Length);
      if Reliable(ask, cmp) {
        SegmentDone(cmp, s, a[..], rest, e);
        SettledMore(cmp, a[..], rest, Entry(e.base, 0, depth));
      }
    }
  }

  lemma SettledMore<T>(cmp: (T, T) -> int, s: seq<T>, rest: seq<Entry>, e: Entry)
    requires Settled(cmp, s, rest)
    ensures Settled(cmp, s, rest + [e])
  {
    forall i, j | 0 <= i < j < |s| && (forall k :: 0 <= k < |rest + [e]| ==> !Together((rest + [e])[k], i, j))
      ensures cmp(s[i], s[j]) <= 0
    {
      forall k | 0 <= k < |rest| ensures !Together(rest[k], i, j) { assert (rest + [e])[k] == rest[k]; }
    }
  }

  /** One turn of the outer loop: the segment `e` is divided and its last part
      sorted by insertion. */
  method SortSegment<T(!new, ==)>(a: array<T>, ask: Comparator<T>, ghost cmp: (T, T) -> int, rest: seq<Entry>, e0: Entry)
    returns (stack: seq<Entry>)
    requires |rest| <= e0.depth <= STACK_SIZE && Deep(rest)
    requires Working(Reliable(ask, cmp), cmp, a[..], rest, e0)
    modifies a, ask
    ensures |stack| <= STACK_SIZE && Deep(stack)
    ensures Shuffled(old(a[..]), a[..], 0, a.Length)
    ensures Apart(stack, a.Length) && (Reliable(ask, cmp) ==> Settled(cmp, a[..], stack))
    ensures Measure(stack) <= Measure(rest) + 2 * e0.count
  {
    ghost var s := a[..];
    var e;
    stack, e := Divide(a, ask, cmp, rest, e0);
    ghost var t := a[..];
    ApartRest(stack, e, a.Length);
    InsertionSort(a, e.base, e.count, ask, cmp);
    ghost var u := a[..];
    ShuffledWider(t, u, e.base, e.base + e.count, 0, a.Length);
    ShuffledThen(s, t, u, 0, a.Length);
    if Reliable(ask, cmp) { SegmentDone(cmp, t, u, stack, e); }
  }

  /** rqsort: the array is permuted, and sorted if the answers are those of a total
      preorder; the 50 stack entries suffice whatever the answers are. */
  method Sort<T(!new, ==)>(a: array<T>, ask: Comparator<T>, ghost cmp: (T, T) -> int)
    modifies a, ask
    ensures multiset(a[..]) == multiset(old(a[..]))
    ensures Reliable(ask, cmp) ==> Sorted(cmp, a[..], 0, a.Length)
  {
    if a.Length < 2 {
      return;
    }
    var stack := [Entry(0, a.Length, 0)];
    ghost var s0, s := a[..], a[..];
    while stack != []
      invariant |stack| <= STACK_SIZE && (Deep(stack) || (|stack| == 1 && stack[0].depth == 0))
      invariant a[..] == s && Shuffled(s0, s, 0, |s|)
      invariant Apart(stack, |s|) && (Reliable(ask, cmp) ==> Settled(cmp, s, stack))
      decreases Measure(stack)
    {
      var sp := |stack| - 1;
      var e, rest := stack[sp], stack[..sp];
      assert stack == rest + [e];
      MeasurePush(rest, e);
      stack := SortSegment(a, ask, cmp, rest, e);
      ShuffledThen(s0, s, a[..], 0, |s|);
      s := a[..];
    }
    if Reliable(ask, cmp) { AllSettled(cmp, s); }
  }

  lemma AllSettled<T>(cmp: (T, T) -> int, s: seq<T>)
    requires Settled(cmp, s, [])
    ensures Sorted(cmp, s, 0, |s|)
  {
  }
}
