/** The circular doubly linked list of
    Sources/SubstrataQuickJS/include/list.h. */
module Lists {

  import opened Common

  /** A list head, or the link inside a structure; `entry` is that structure
      (list_entry). */
  class ListHead<T> {
    var prev: ListHead?<T>
    var next: ListHead?<T>
    const entry: Option<T>

    /** init_list_head: a ring of its own. */
    constructor (entry: Option<T>)
      ensures this.entry == entry && Ring([this])
    {
      this.entry := entry;
      prev := this;
      next := this;
    }
  }

  function Succ(i: nat, n: nat): nat {
    if i + 1 == n then 0 else i + 1
  }

  function Pred(i: nat, n: nat): nat
    requires n > 0
  {
    if i == 0 then n - 1 else i - 1
  }

  ghost predicate Distinct<T>(s: seq<ListHead<T>>) {
    forall i, j :: 0 <= i < j < |s| ==> s[i] != s[j]
  }

  /** The elements of `s` are linked into one circle in this order, both ways. */
  ghost predicate Ring<T>(s: seq<ListHead<T>>)
    reads s
  {
    && s != [] && Distinct(s)
    && (forall i :: 0 <= i < |s| ==> s[i].next == s[Succ(i, |s|)])
    && (forall i :: 0 <= i < |s| ==> s[i].prev == s[Pred(i, |s|)])
  }

  /** __list_add: inserts `el` between two neighbours. */
  method Insert<T>(el: ListHead<T>, prev: ListHead<T>, next: ListHead<T>)
    requires el != prev && el != next
    modifies el, prev, next
    ensures el.prev == prev && el.next == next && prev.next == el && next.prev == el
    ensures prev != next ==> prev.prev == old(prev.prev) && next.next == old(next.next)
  {
    prev.next := el;
    el.prev := prev;
    el.next := next;
    next.prev := el;
  }

  /** list_add_tail: `el` becomes the last element before the head of `s`. */
  method AddTail<T>(el: ListHead<T>, head: ListHead<T>, ghost s: seq<ListHead<T>>)
    requires Ring(s) && s[0] == head && el !in s
    modifies el, s
    ensures Ring(s + [el])
  {
    ghost var t := s + [el];
    assert head.prev == s[|s| - 1] && s[|s| - 1].next == s[Succ(|s| - 1, |s|)];
    Insert(el, head.prev, head);
    forall i | 0 <= i < |t|
      ensures t[i].next == t[Succ(i, |t|)] && t[i].prev == t[Pred(i, |t|)]
    {
      if i < |s| { assert t[i] == s[i]; }
    }
  }

  function Without<T>(s: seq<T>, k: nat): seq<T>
    requires k < |s|
  {
    s[..k] + s[k + 1..]
  }

  lemma WithoutDistinct<T>(s: seq<ListHead<T>>, k: nat)
    requires Distinct(s) && k < |s|
    ensures Distinct(Without(s, k)) && s[k] !in Without(s, k)
  {
  }

  /** What is at `i` once the element at `k` is gone, and its neighbours. */
  lemma WithoutAt<T>(s: seq<T>, k: nat, i: nat)
    requires 0 < k < |s| && i < |s| - 1
    ensures var t, j := Without(s, k), if i < k then i else i + 1;
      && t[i] == s[j]
      && t[Succ(i, |t|)] == (if j + 1 == k then s[Succ(k, |s|)] else s[Succ(j, |s|)])
      && t[Pred(i, |t|)] == (if Pred(j, |s|) == k then s[k - 1] else s[Pred(j, |s|)])
  {
  }

  /** list_del: unlinks the element at `k`, which is not the head. */
  method Del<T>(el: ListHead<T>, ghost s: seq<ListHead<T>>, ghost k: nat)
    requires Ring(s) && 0 < k < |s| && s[k] == el
    modifies s
    ensures Ring(Without(s, k)) && el !in Without(s, k)
    ensures el.prev == null && el.next == null
  {
    assert el.prev == s[Pred(k, |s|)] && el.next == s[Succ(k, |s|)];
    Unlink(el);
    ghost var t := Without(s, k);
    WithoutDistinct(s, k);
    forall i | 0 <= i < |t|
      ensures t[i].next == t[Succ(i, |t|)] && t[i].prev == t[Pred(i, |t|)]
    {
      WithoutAt(s, k, i);
    }
  }

  /** The pointer updates of list_del. */
  method Unlink<T>(el: ListHead<T>)
    requires el.prev != null && el.next != null && el.prev != el && el.next != el
    modifies el, el.prev, el.next
    ensures el.prev == null && el.next == null
    ensures old(el.prev).next == old(el.next) && old(el.next).prev == old(el.prev)
    ensures old(el.prev) != old(el.next) ==> old(el.prev).prev == old(el.prev.prev) && old(el.next).next == old(el.next.next)
  {
    var prev, next := el.prev, el.next;
    prev.next := next;
    next.prev := prev;
    el.prev := null;
    el.next := null;
  }

  /** list_empty */
  method IsEmpty<T>(head: ListHead<T>, ghost s: seq<ListHead<T>>) returns (b: bool)
    requires Ring(s) && s[0] == head
    ensures b <==> s == [head]
  {
    assert s[0].next == s[Succ(0, |s|)];
    b := head.next == head;
  }
}
