/** The objects behind the worker message pipe of
    Sources/SubstrataQuickJS/quickjs-libc.c: reference-counted shared buffers,
    queued messages, and what one thread does between locking and unlocking the
    mutex. The interleaving of threads is the subject of PipeProtocol. */
module WorkerPipe {

  import opened Common
  import opened Lists

  /** The header of a SharedArrayBuffer. */
  class JSSABHeader {
    var refCount: int
    var freed: bool

    /** js_sab_alloc */
    constructor ()
      ensures refCount == 1 && !freed
    {
      refCount := 1;
      freed := false;
    }
  }

  /** js_sab_dup */
  method SabDup(sab: JSSABHeader)
    requires !sab.freed && sab.refCount >= 1
    modifies sab
    ensures sab.refCount == old(sab.refCount) + 1 && !sab.freed
  {
    sab.refCount := sab.refCount + 1;
  }

  /** js_sab_free */
  method SabFree(sab: JSSABHeader)
    requires !sab.freed && sab.refCount >= 1
    modifies sab
    ensures sab.refCount == old(sab.refCount) - 1 && (sab.freed <==> sab.refCount == 0)
  {
    sab.refCount := sab.refCount - 1;
    if sab.refCount == 0 {
      sab.freed := true;
    }
  }

  datatype Message = Message(data: seq<bv8>, sabTab: seq<JSSABHeader>)

  /** Every buffer of `tab` is alive with a reference for each of its entries. */
  ghost predicate Owned(tab: seq<JSSABHeader>)
    reads tab
  {
    forall sab :: sab in tab ==> !sab.freed && sab.refCount >= multiset(tab)[sab]
  }

  /** The loop of js_worker_postMessage that takes a reference for every entry. */
  method DupAll(tab: seq<JSSABHeader>)
    requires forall sab :: sab in tab ==> !sab.freed && sab.refCount >= 1
    modifies tab
    ensures Owned(tab)
    ensures forall sab :: sab in tab ==> sab.refCount == old(sab.refCount) + multiset(tab)[sab]
  {
    var i := 0;
    while i < |tab|
      invariant 0 <= i <= |tab|
      invariant forall sab :: sab in tab ==> !sab.freed && old(sab.refCount) >= 1
      invariant forall sab :: sab in tab ==> sab.refCount == old(sab.refCount) + multiset(tab[..i])[sab]
    {
      SabDup(tab[i]);
      assert tab[..i + 1] == tab[..i] + [tab[i]];
      i := i + 1;
    }
    assert tab[..i] == tab;
  }

  /** js_free_message: gives one reference back for every entry. */
  method FreeMessage(msg: Message)
    requires Owned(msg.sabTab)
    modifies msg.sabTab
    ensures forall sab :: sab in msg.sabTab ==>
      sab.refCount == old(sab.refCount) - multiset(msg.sabTab)[sab] && (sab.freed <==> sab.refCount == 0)
  {
    var tab := msg.sabTab;
    var i := 0;
    while i < |tab|
      invariant 0 <= i <= |tab|
      invariant forall sab :: sab in tab ==> sab.refCount == old(sab.refCount) - multiset(tab[..i])[sab]
      invariant forall sab :: sab in tab ==> sab.freed == (sab.refCount == 0 && sab in tab[..i])
    {
      assert tab == tab[..i] + [tab[i]] + tab[i + 1..];
      assert tab[..i + 1] == tab[..i] + [tab[i]];
      SabFree(tab[i]);
      i := i + 1;
    }
    assert tab[..i] == tab;
  }

  // ---------------------------------------------------------------------
  // What a critical section does to the queue and to the pipe
  // ---------------------------------------------------------------------

  datatype View<M> = View(queue: seq<M>, bytes: nat)

  /** Posting `m`, where `ok` says whether a write succeeds. */
  function AfterPost<M>(v: View<M>, m: M, ok: bool): View<M> {
    View(v.queue + [m], if v.queue == [] && ok then v.bytes + 1 else v.bytes)
  }

  /** What a read into a buffer of 16 bytes leaves in the pipe. */
  function Drained(bytes: nat): nat {
    if bytes < 16 then 0 else bytes - 16
  }

  /** Receiving from a queue that is not empty, where `read` says whether a read
      succeeds. */
  function AfterReceive<M>(v: View<M>, read: bool): View<M>
    requires v.queue != []
  {
    View(v.queue[1..], if |v.queue| == 1 && read then Drained(v.bytes) else v.bytes)
  }

  /** With successful writes and reads, both sections keep one byte in the pipe
      exactly while the queue is not empty. */
  predicate Signalled<M>(v: View<M>) {
    v.bytes == if |v.queue| == 0 then 0 else 1
  }

  lemma PostSignals<M>(v: View<M>, m: M)
    requires Signalled(v)
    ensures Signalled(AfterPost(v, m, true))
  {
  }

  lemma ReceiveSignals<M>(v: View<M>)
    requires Signalled(v) && v.queue != []
    ensures Signalled(AfterReceive(v, true))
  {
  }

  // ---------------------------------------------------------------------
  // The pipe object
  // ---------------------------------------------------------------------

  ghost function Entries(s: seq<ListHead<Message>>): (r: seq<Message>)
    requires forall i :: 0 <= i < |s| ==> s[i].entry.Some?
    ensures |r| == |s|
  {
    seq(|s|, i requires 0 <= i < |s| => s[i].entry.value)
  }

  lemma EntriesMore(s: seq<ListHead<Message>>, e: ListHead<Message>)
    requires s != [] && e.entry.Some? && forall i :: 0 < i < |s| ==> s[i].entry.Some?
    ensures Entries((s + [e])[1..]) == Entries(s[1..]) + [e.entry.value]
  {
    assert (s + [e])[1..] == s[1..] + [e];
  }

  lemma EntriesLess(s: seq<ListHead<Message>>)
    requires |s| >= 2 && forall i :: 0 < i < |s| ==> s[i].entry.Some?
    ensures Entries(s[1..]) == [s[1].entry.value] + Entries(Without(s, 1)[1..])
  {
    assert Without(s, 1)[1..] == s[2..];
  }

  /** The buffer entries of all the messages of a queue. */
  function AllSabs(q: seq<Message>): seq<JSSABHeader> {
    if q == [] then [] else q[0].sabTab + AllSabs(q[1..])
  }

  lemma Middle<T>(all: seq<T>, done: seq<T>, tab: seq<T>, rest: seq<T>)
    requires all == done + (tab + rest)
    ensures all == (done + tab) + rest && forall x :: x in tab ==> x in all
    ensures forall x :: multiset(done + tab)[x] == multiset(done)[x] + multiset(tab)[x] <= multiset(all)[x]
  {
    assert all == (done + tab) + rest;
    assert multiset((done + tab) + rest) == multiset(done + tab) + multiset(rest);
    forall x | x in tab ensures x in all {
      assert x in done + tab;
    }
  }

  /** Of the entries `all`, those in `done` have been given back; `refs` are the
      reference counts before. */
  ghost predicate GivenBack(all: seq<JSSABHeader>, done: seq<JSSABHeader>, refs: map<JSSABHeader, int>)
    reads all
  {
    forall sab :: sab in all ==>
      && sab in refs && refs[sab] >= multiset(all)[sab]
      && sab.refCount == refs[sab] - multiset(done)[sab]
      && (sab.freed <==> sab in done && sab.refCount == 0)
  }

  ghost function Refs(all: seq<JSSABHeader>): map<JSSABHeader, int>
    reads all
  {
    map sab | sab in all :: sab.refCount
  }

  lemma NoneGivenBack(all: seq<JSSABHeader>)
    requires Owned(all)
    ensures GivenBack(all, [], Refs(all))
  {
  }

  /** One round of the loop of js_free_message_pipe. */
  method FreeNext(msg: Message, ghost all: seq<JSSABHeader>, ghost done: seq<JSSABHeader>, ghost rest: seq<JSSABHeader>,
                  ghost refs: map<JSSABHeader, int>)
    requires all == done + (msg.sabTab + rest) && GivenBack(all, done, refs)
    modifies all
    ensures all == (done + msg.sabTab) + rest && GivenBack(all, done + msg.sabTab, refs)
  {
    Middle(all, done, msg.sabTab, rest);
    forall sab | sab in msg.sabTab
      ensures !sab.freed && sab.refCount >= multiset(msg.sabTab)[sab]
    {
      assert sab in all;
      assert multiset(msg.sabTab)[sab] >= 1;
    }
    assert forall k :: 0 <= k < |msg.sabTab| ==> msg.sabTab[k] == all[|done| + k];
    FreeMessage(msg);
  }

  class JSWorkerMessagePipe {
    var refCount: int
    /** unread bytes in the pipe */
    var bytes: nat
    const msgQueue: ListHead<Message>
    ghost var ring: seq<ListHead<Message>>

    ghost predicate Valid()
      reads this, ring
    {
      && ring != [] && ring[0] == msgQueue && Ring(ring)
      && forall i :: 0 < i < |ring| ==> ring[i].entry.Some?
    }

    ghost function Queue(): (q: seq<Message>)
      requires Valid()
      reads this, ring
      ensures |q| == |ring| - 1
    {
      Entries(ring[1..])
    }

    ghost function Seen(): View<Message>
      requires Valid()
      reads this, ring
    {
      View(Queue(), bytes)
    }

    /** js_new_message_pipe */
    constructor ()
      ensures Valid() && fresh(ring) && refCount == 1 && Seen() == View([], 0)
    {
      var h := new ListHead<Message>(None);
      msgQueue := h;
      ring := [h];
      refCount := 1;
      bytes := 0;
    }

    /** js_dup_message_pipe */
    method Dup()
      requires refCount >= 1
      modifies this`refCount
      ensures refCount == old(refCount) + 1
    {
      refCount := refCount + 1;
    }

    /** Links a new message in at the end of the queue. */
    method Append(msg: Message)
      requires Valid()
      modifies this`ring, ring
      ensures Valid() && (forall e :: e in ring ==> e in old(ring) || fresh(e))
      ensures Queue() == old(Queue()) + [msg]
    {
      var link := new ListHead<Message>(Some(msg));
      ghost var q, was := Queue(), ring;
      assert link !in ring;
      AddTail(link, msgQueue, ring);
      ring := was + [link];
      EntriesMore(was, link);
    }

    /** Unlinks the first message. */
    method RemoveFirst() returns (msg: Message)
      requires Valid() && Queue() != []
      modifies this`ring, ring
      ensures Valid() && (forall e :: e in ring ==> e in old(ring))
      ensures [msg] + Queue() == old(Queue())
    {
      assert ring[0].next == ring[Succ(0, |ring|)];
      var el: ListHead<Message> := msgQueue.next;
      msg := el.entry.value;
      ghost var was := ring;
      Del(el, ring, 1);
      ring := Without(was, 1);
      EntriesLess(was);
    }

    method QueueIsEmpty() returns (b: bool)
      requires Valid()
      ensures b <==> Queue() == []
    {
      b := IsEmpty(msgQueue, ring);
    }

    /** The end of js_worker_postMessage, between lock and unlock. `ok` is the
        outcome of the write to the pipe. */
    method Enqueue(msg: Message, ok: bool)
      requires Valid()
      modifies this`bytes, this`ring, ring
      ensures Valid() && (forall e :: e in ring ==> e in old(ring) || fresh(e))
      ensures Seen() == AfterPost(old(Seen()), msg, ok)
    {
      var empty := QueueIsEmpty();
      if empty && ok {
        bytes := bytes + 1;
      }
      Append(msg);
    }

    /** js_worker_postMessage, once the message has been serialised: every buffer
        of the message gets a reference, then it is queued. */
    method Post(msg: Message, ok: bool)
      requires Valid() && forall sab :: sab in msg.sabTab ==> !sab.freed && sab.refCount >= 1
      modifies this`bytes, this`ring, ring, msg.sabTab
      ensures Valid() && Seen() == AfterPost(old(Seen()), msg, ok)
      ensures Owned(msg.sabTab)
      ensures Queue() == old(Queue()) + [msg] && bytes == old(bytes) + if old(Queue()) == [] && ok then 1 else 0
      ensures forall sab :: sab in msg.sabTab ==> sab.refCount == old(sab.refCount) + multiset(msg.sabTab)[sab]
    {
      DupAll(msg.sabTab);
      Enqueue(msg, ok);
    }

    /** The first part of handle_posted_message, between lock and unlock. `read` is the
        outcome of the read from the pipe, which would not return without a byte. */
    method Dequeue(read: bool) returns (r: Option<Message>)
      requires Valid()
      requires |Queue()| == 1 && read ==> bytes > 0
      modifies this`bytes, this`ring, ring
      ensures Valid() && (forall e :: e in ring ==> e in old(ring))
      ensures old(Queue()) == [] ==> r == None && Seen() == old(Seen())
      ensures old(Queue()) != [] ==> r == Some(old(Queue())[0]) && Seen() == AfterReceive(old(Seen()), read)
      ensures bytes == if |old(Queue())| != 1 || !read then old(bytes) else if old(bytes) <= 16 then 0 else old(bytes) - 16
      ensures Queue() == if old(Queue()) == [] then [] else old(Queue())[1..]
    {
      r := None;
      var empty := QueueIsEmpty();
      if !empty {
        ghost var q := Queue();
        var msg := RemoveFirst();
        assert Queue() == q[1..];
        r := Some(msg);
        empty := QueueIsEmpty();
        if empty && read {
          bytes := Drained(bytes);
        }
      }
    }

    /** js_free_message_pipe: the last holder gives back the references of all
        messages that were never received. */
    method Free(ghost all: seq<JSSABHeader>)
      requires Valid() && refCount >= 1 && all == AllSabs(Queue())
      requires refCount == 1 ==> Owned(all)
      modifies this`refCount, all
      ensures Valid() && refCount == old(refCount) - 1 && Queue() == old(Queue())
      ensures refCount == 0 ==> GivenBack(all, all, old(Refs(all)))
      ensures refCount > 0 ==> forall sab :: sab in all ==> unchanged(sab)
    {
      refCount := refCount - 1;
      if refCount == 0 {
        FreeAll(all);
      }
    }

    /** `el` comes `k` messages behind the first one. */
    ghost predicate At(el: ListHead<Message>, k: nat)
      requires Valid()
      reads this, ring
    {
      k <= |Queue()| && el == ring[Succ(k, |ring|)]
    }

    method First() returns (el: ListHead<Message>)
      requires Valid()
      ensures At(el, 0)
    {
      assert ring[0].next == ring[Succ(0, |ring|)];
      el := msgQueue.next;
    }

    /** The message of an element, and the element after it. */
    method Visit(el: ListHead<Message>, ghost k: nat) returns (msg: Message, el1: ListHead<Message>)
      requires Valid() && At(el, k) && el != msgQueue
      ensures k < |Queue()| && msg == Queue()[k] && At(el1, k + 1)
    {
      assert ring[k + 1].next == ring[Succ(k + 1, |ring|)];
      el1 := el.next;
      msg := el.entry.value;
    }

    /** The messages from `k` on still have to be freed; `done` are the entries
        given back so far. */
    ghost predicate FreeingFrom(k: nat, all: seq<JSSABHeader>, done: seq<JSSABHeader>, refs: map<JSSABHeader, int>)
      requires Valid()
      reads this, ring, all
    {
      && k <= |Queue()|
      && all == done + AllSabs(Queue()[k..])
      && GivenBack(all, done, refs)
    }

    /** One round of the loop of js_free_message_pipe. */
    method FreeOne(el: ListHead<Message>, ghost k: nat, ghost all: seq<JSSABHeader>, ghost done: seq<JSSABHeader>,
                   ghost refs: map<JSSABHeader, int>)
      returns (el1: ListHead<Message>, ghost done1: seq<JSSABHeader>)
      requires Valid() && At(el, k) && el != msgQueue && FreeingFrom(k, all, done, refs)
      modifies all
      ensures Valid() && Queue() == old(Queue()) && k < |Queue()|
      ensures At(el1, k + 1) && FreeingFrom(k + 1, all, done1, refs)
    {
      var msg;
      msg, el1 := Visit(el, k);
      ghost var q := Queue();
      assert q[k..][1..] == q[k + 1..];
      FreeNext(msg, all, done, AllSabs(q[k + 1..]), refs);
      done1 := done + msg.sabTab;
    }

    /** The loop of js_free_message_pipe. */
    method FreeAll(ghost all: seq<JSSABHeader>)
      requires Valid() && all == AllSabs(Queue()) && Owned(all)
      modifies all
      ensures Valid() && Queue() == old(Queue())
      ensures GivenBack(all, all, old(Refs(all)))
    {
      ghost var refs := Refs(all);
      ghost var k, done: seq<JSSABHeader> := 0, [];
      ghost var q := Queue();
      FreeingStarts(all);
      var el := First();
      while el != msgQueue
        invariant Valid() && Queue() == q && At(el, k)
        invariant FreeingFrom(k, all, done, refs)
        decreases |q| - k
        modifies all
      {
        el, done := FreeOne(el, k, all, done, refs);
        k := k + 1;
      }
      FreeingEnds(k, all, done, refs);
    }

    lemma FreeingStarts(all: seq<JSSABHeader>)
      requires Valid() && all == AllSabs(Queue()) && Owned(all)
      ensures FreeingFrom(0, all, [], Refs(all))
    {
      assert Queue()[0..] == Queue();
      NoneGivenBack(all);
    }

    lemma FreeingEnds(k: nat, all: seq<JSSABHeader>, done: seq<JSSABHeader>, refs: map<JSSABHeader, int>)
      requires Valid() && At(msgQueue, k) && FreeingFrom(k, all, done, refs)
      ensures GivenBack(all, all, refs)
    {
      NotAtEnd(k);
      assert done + [] == done;
    }

    lemma NotAtEnd(k: nat)
      requires Valid() && At(msgQueue, k)
      ensures k == |Queue()|
    {

    }
  }
}
