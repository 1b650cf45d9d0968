/** The worker message pipe of Sources/SubstrataQuickJS/quickjs-libc.c as a protocol:
    any number of threads post, receive and let go of the pipe, one small step
    at a time and in any order that the mutex allows. */
module PipeProtocol {

  import opened Common
  import opened WorkerPipe

  type Sab = nat

  datatype Msg = Msg(data: nat, sabs: seq<Sab>)

  /** Where a thread is in js_worker_postMessage, handle_posted_message or
      js_free_message_pipe. */
  datatype Phase =
    | Idle
    | Duping(msg: Msg, k: nat)     // taking references; `k` taken so far
    | PostLocked(msg: Msg)         // mutex taken, list_empty not yet tested
    | PostNotified(msg: Msg)       // the message is about to be linked in
    | PostLinked                   // about to unlock
    | RecvLocked                   // mutex taken, list_empty not yet tested
    | RecvRemoved(msg: Msg)        // unlinked, list_empty about to be tested again
    | RecvDrained(msg: Msg)        // about to unlock
    | RecvNothing                  // the queue was empty, about to unlock
    | Freeing(msg: Msg, k: nat)    // js_free_message: `k` references given back
    | Closing                      // the last holder, between two messages
    | ClosingMsg(msg: Msg, k: nat) // the last holder, inside js_free_message
    | Closed

  /** `holds`: the number of references to the pipe that the thread has. */
  datatype Thread = Thread(phase: Phase, holds: nat)

  /** `held` are the buffer references of the JavaScript heaps, `refs` the
      reference counts of the buffers. */
  datatype State = State(
    pipe: View<Msg>,
    lock: Option<nat>,
    pipeRefs: nat,
    threads: seq<Thread>,
    held: multiset<Sab>,
    refs: multiset<Sab>)

  /** Steps of js_worker_postMessage. */
  datatype PostStep =
    | Begin(msg: Msg)
    | DupSab
    | Lock
    | Notify(ok: bool)     // the queue is empty: write; `ok` is the outcome
    | NoNotify             // the queue is not empty
    | Link(msg: Msg)

  /** Steps of handle_posted_message inside the critical section. */
  datatype ReceiveStep =
    | LockToReceive
    | FindNothing
    | Remove(msg: Msg)
    | Drain(read: bool)    // the queue is now empty: read; `read` is the outcome
    | NoDrain

  /** Leaving the critical section, js_free_message and the end of
      js_free_message_pipe. */
  datatype ReleaseStep =
    | Unlock
    | FreeSab
    | EndFree
    | CloseNext(msg: Msg)
    | CloseEnd

  datatype HoldStep =
    | DupPipe(u: nat)      // thread `u` gets a reference to the pipe
    | FreePipe

  /** JavaScript objects come and go that refer to buffers. */
  datatype HeapStep = Takes | Drops | Allocates

  datatype Event =
    | Post(t: nat, post: PostStep)
    | Receive(t: nat, receive: ReceiveStep)
    | Release(t: nat, release: ReleaseStep)
    | Hold(t: nat, hold: HoldStep)
    | Heap(sab: Sab, heap: HeapStep)

  function At(s: State, t: nat): Phase {
    if t < |s.threads| then s.threads[t].phase else Closed
  }

  predicate HoldsPipe(s: State, t: nat) {
    t < |s.threads| && s.threads[t].holds > 0
  }

  function Put(s: State, t: nat, p: Phase): State
    requires t < |s.threads|
  {
    s.(threads := s.threads[t := s.threads[t].(phase := p)])
  }

  predicate PostEnabled(s: State, t: nat, a: PostStep) {
    var p := At(s, t);
    match a
    case Begin(_) => p == Idle && HoldsPipe(s, t)
    case DupSab => p.Duping? && p.k < |p.msg.sabs| && p.msg.sabs[p.k] in s.held
    case Lock => p.Duping? && p.k == |p.msg.sabs| && s.lock == None
    case Notify(_) => p.PostLocked? && s.pipe.queue == []
    case NoNotify => p.PostLocked? && s.pipe.queue != []
    case Link(msg) => p == PostNotified(msg)
  }

  function FirePost(s: State, t: nat, a: PostStep): State
    requires PostEnabled(s, t, a)
  {
    var p := At(s, t);
    match a
    case Begin(msg) => Put(s, t, Duping(msg, 0))
    case DupSab => Put(s, t, Duping(p.msg, p.k + 1)).(refs := s.refs + multiset{p.msg.sabs[p.k]})
    case Lock => Put(s, t, PostLocked(p.msg)).(lock := Some(t))
    case Notify(ok) => Put(s, t, PostNotified(p.msg)).(pipe := s.pipe.(bytes := s.pipe.bytes + if ok then 1 else 0))
    case NoNotify => Put(s, t, PostNotified(p.msg))
    case Link(msg) => Put(s, t, PostLinked).(pipe := s.pipe.(queue := s.pipe.queue + [msg]))
  }

  predicate ReceiveEnabled(s: State, t: nat, a: ReceiveStep) {
    var p := At(s, t);
    match a
    case LockToReceive => p == Idle && HoldsPipe(s, t) && s.lock == None
    case FindNothing => p == RecvLocked && s.pipe.queue == []
    case Remove(msg) => p == RecvLocked && s.pipe.queue != [] && s.pipe.queue[0] == msg
    case Drain(read) => p.RecvRemoved? && s.pipe.queue == [] && (read ==> s.pipe.bytes > 0)
    case NoDrain => p.RecvRemoved? && s.pipe.queue != []
  }

  function FireReceive(s: State, t: nat, a: ReceiveStep): State
    requires ReceiveEnabled(s, t, a)
  {
    var p := At(s, t);
    match a
    case LockToReceive => Put(s, t, RecvLocked).(lock := Some(t))
    case FindNothing => Put(s, t, RecvNothing)
    case Remove(msg) => Put(s, t, RecvRemoved(msg)).(pipe := s.pipe.(queue := s.pipe.queue[1..]))
    case Drain(read) =>
      Put(s, t, RecvDrained(p.msg)).(pipe := s.pipe.(bytes := if read then Drained(s.pipe.bytes) else s.pipe.bytes))
    case NoDrain => Put(s, t, RecvDrained(p.msg))
  }

  predicate InFree(p: Phase) {
    p.Freeing? || p.ClosingMsg?
  }

  predicate ReleaseEnabled(s: State, t: nat, a: ReleaseStep) {
    var p := At(s, t);
    match a
    case Unlock => p == PostLinked || p.RecvDrained? || p == RecvNothing
    case FreeSab => InFree(p) && p.k < |p.msg.sabs|
    case EndFree => InFree(p) && p.k == |p.msg.sabs|
    case CloseNext(msg) => p == Closing && s.pipe.queue != [] && s.pipe.queue[0] == msg
    case CloseEnd => p == Closing && s.pipe.queue == []
  }

  /** A received message is freed once the mutex is free again. */
  function Unlocked(p: Phase): Phase {
    if p.RecvDrained? then Freeing(p.msg, 0) else Idle
  }

  function FreedOne(p: Phase): Phase
    requires InFree(p)
  {
    if p.Freeing? then Freeing(p.msg, p.k + 1) else ClosingMsg(p.msg, p.k + 1)
  }

  function FreedAll(p: Phase): Phase {
    if p.Freeing? then Idle else Closing
  }

  /** A reference count that would drop below zero is left alone; that this never
      happens is a theorem. */
  function FireRelease(s: State, t: nat, a: ReleaseStep): State
    requires ReleaseEnabled(s, t, a)
  {
    var p := At(s, t);
    match a
    case Unlock => Put(s, t, Unlocked(p)).(lock := None)
    case FreeSab => Put(s, t, FreedOne(p)).(refs := s.refs - multiset{p.msg.sabs[p.k]})
    case EndFree => Put(s, t, FreedAll(p))
    case CloseNext(msg) => Put(s, t, ClosingMsg(msg, 0)).(pipe := s.pipe.(queue := s.pipe.queue[1..]))
    case CloseEnd => Put(s, t, Closed)
  }

  predicate HoldEnabled(s: State, t: nat, a: HoldStep) {
    && At(s, t) == Idle && HoldsPipe(s, t)
    && (a.DupPipe? ==> a.u < |s.threads| && At(s, a.u) == Idle)
  }

  function FireHold(s: State, t: nat, a: HoldStep): State
    requires HoldEnabled(s, t, a)
  {
    match a
    case DupPipe(u) => s.(threads := s.threads[u := Thread(Idle, s.threads[u].holds + 1)], pipeRefs := s.pipeRefs + 1)
    case FreePipe =>
      s.(threads := s.threads[t := Thread(if s.pipeRefs <= 1 then Closing else Idle, s.threads[t].holds - 1)],
         pipeRefs := if s.pipeRefs == 0 then 0 else s.pipeRefs - 1)
  }

  predicate HeapEnabled(s: State, sab: Sab, a: HeapStep) {
    match a
    case Takes => sab in s.refs
    case Drops => sab in s.held
    case Allocates => sab !in s.refs
  }

  function FireHeap(s: State, sab: Sab, a: HeapStep): State
    requires HeapEnabled(s, sab, a)
  {
    if a == Drops then s.(held := s.held - multiset{sab}, refs := s.refs - multiset{sab})
    else s.(held := s.held + multiset{sab}, refs := s.refs + multiset{sab})
  }

  /** May the event happen? */
  predicate Enabled(s: State, e: Event) {
    match e
    case Post(t, a) => PostEnabled(s, t, a)
    case Receive(t, a) => ReceiveEnabled(s, t, a)
    case Release(t, a) => ReleaseEnabled(s, t, a)
    case Hold(t, a) => HoldEnabled(s, t, a)
    case Heap(sab, a) => HeapEnabled(s, sab, a)
  }

  function Fire(s: State, e: Event): State
    requires Enabled(s, e)
  {
    match e
    case Post(t, a) => FirePost(s, t, a)
    case Receive(t, a) => FireReceive(s, t, a)
    case Release(t, a) => FireRelease(s, t, a)
    case Hold(t, a) => FireHold(s, t, a)
    case Heap(sab, a) => FireHeap(s, sab, a)
  }

  // ---------------------------------------------------------------------
  // Runs
  // ---------------------------------------------------------------------

  /** A new pipe with one holder among `n` threads. */
  function Start(n: nat): State
    requires n > 0
  {
    State(View([], 0), None, 1, seq(n, i => Thread(Idle, if i == 0 then 1 else 0)), multiset{}, multiset{})
  }

  /** Can the events happen one after the other from `s` on? */
  predicate Runs(s: State, es: seq<Event>)
    decreases |es|
  {
    es == [] || (Enabled(s, es[0]) && Runs(Fire(s, es[0]), es[1..]))
  }

  function After(s: State, es: seq<Event>): State
    requires Runs(s, es)
    decreases |es|
  {
    if es == [] then s else After(Fire(s, es[0]), es[1..])
  }

  function SentBy(e: Event): seq<Msg> {
    if e.Post? && e.post.Link? then [e.post.msg] else []
  }

  function LeftBy(e: Event): seq<Msg> {
    if e.Receive? && e.receive.Remove? then [e.receive.msg]
    else if e.Release? && e.release.CloseNext? then [e.release.msg]
    else []
  }

  /** The messages linked into the queue by the events, in order. */
  function Sent(es: seq<Event>): seq<Msg> {
    if es == [] then [] else SentBy(es[0]) + Sent(es[1..])
  }

  /** The messages that left the queue, in order. */
  function Left(es: seq<Event>): seq<Msg> {
    if es == [] then [] else LeftBy(es[0]) + Left(es[1..])
  }

  /** What decides how many bytes the pipe holds: `left` is what the last emptying of
      the queue left in it, `ok` the outcome of the last write. */
  datatype Wake = Wake(left: nat, ok: bool)

  /** The byte of the last write, if it was written. */
  function Written(w: Wake): nat {
    if w.ok then 1 else 0
  }

  function Outcome(w: Wake, e: Event): Wake {
    if e.Post? && e.post.Notify? then w.(ok := e.post.ok)
    else if e.Receive? && e.receive.Drain? then
      w.(left := if e.receive.read then Drained(w.left + Written(w)) else w.left + Written(w))
    else w
  }

  /** The outcomes of the events, after those that led to `w`. */
  function Outcomes(w: Wake, es: seq<Event>): Wake
    decreases |es|
  {
    if es == [] then w else Outcomes(Outcome(w, es[0]), es[1..])
  }

  /** The outcomes of a whole run. */
  function WakeOf(es: seq<Event>): Wake {
    Outcomes(Wake(0, true), es)
  }

  // ---------------------------------------------------------------------
  // The invariant
  // ---------------------------------------------------------------------

  predicate Critical(p: Phase) {
    p.PostLocked? || p.PostNotified? || p.PostLinked? || p.RecvLocked? || p.RecvRemoved? || p.RecvDrained? || p.RecvNothing?
  }

  predicate IsClosing(p: Phase) {
    p.Closing? || p.ClosingMsg? || p.Closed?
  }

  function Front(s: seq<Sab>, k: nat): multiset<Sab> {
    multiset(if k <= |s| then s[..k] else s)
  }

  function Back(s: seq<Sab>, k: nat): multiset<Sab> {
    multiset(if k <= |s| then s[k..] else [])
  }

  lemma FrontBack(s: seq<Sab>, k: nat)
    ensures Front(s, 0) == multiset{} == Back(s, |s|)
    ensures Front(s, |s|) == multiset(s) == Back(s, 0)
    ensures k < |s| ==> Front(s, k + 1) == Front(s, k) + multiset{s[k]}
    ensures k < |s| ==> Back(s, k) == Back(s, k + 1) + multiset{s[k]}
  {
    assert s[..|s|] == s && s[0..] == s;
    if k < |s| {
      assert s[..k + 1] == s[..k] + [s[k]];
      assert s[k..] == [s[k]] + s[k + 1..];
    }
  }

  lemma BackStep(s: seq<Sab>, k: nat)
    requires k < |s|
    ensures Back(s, k) == Back(s, k + 1) + multiset{s[k]}
  {
    FrontBack(s, k);
  }

  lemma BackEnds(s: seq<Sab>)
    ensures Back(s, 0) == multiset(s) && Back(s, |s|) == multiset{}
  {
    FrontBack(s, 0);
  }

  /** The references that a thread owns through the message in its hands. */
  function Owns(p: Phase): multiset<Sab> {
    match p
    case Duping(m, k) => Front(m.sabs, k)
    case PostLocked(m) => multiset(m.sabs)
    case PostNotified(m) => multiset(m.sabs)
    case RecvRemoved(m) => multiset(m.sabs)
    case RecvDrained(m) => multiset(m.sabs)
    case Freeing(m, k) => Back(m.sabs, k)
    case ClosingMsg(m, k) => Back(m.sabs, k)
    case _ => multiset{}
  }

  function InHands(ts: seq<Thread>): multiset<Sab> {
    if ts == [] then multiset{} else Owns(ts[0].phase) + InHands(ts[1..])
  }

  /** One reference for every buffer entry of every queued message. */
  function Queued(q: seq<Msg>): multiset<Sab> {
    if q == [] then multiset{} else multiset(q[0].sabs) + Queued(q[1..])
  }

  function Holders(ts: seq<Thread>): nat {
    if ts == [] then 0 else ts[0].holds + Holders(ts[1..])
  }

  /** The bytes in the pipe are those left when the queue was last empty, and that
      of the last write if there are messages. */
  predicate InStep(v: View<Msg>, w: Wake) {
    v.bytes == w.left + if v.queue != [] then Written(w) else 0
  }

  predicate PhaseFits(p: Phase) {
    (p.Duping? || p.Freeing? || p.ClosingMsg?) ==> p.k <= |p.msg.sabs|
  }

  /** The pipe as the holder of the mutex sees it. */
  predicate MidSection(p: Phase, v: View<Msg>, w: Wake) {
    match p
    case PostNotified(_) => v.bytes == w.left + Written(w)
    case RecvRemoved(_) => v.bytes == w.left + Written(w)
    case RecvNothing => v.queue == [] && v.bytes == w.left
    case _ => InStep(v, w)
  }

  /** Threads inside a critical section hold the mutex, and the pipe is in step
      with the queue. */
  ghost predicate Guarded(s: State, w: Wake) {
    && (s.lock.Some? ==> s.lock.value < |s.threads|)
    && (forall t :: 0 <= t < |s.threads| ==> (Critical(At(s, t)) <==> s.lock == Some(t)))
    && (s.pipeRefs > 0 ==> MidSection(if s.lock.Some? then At(s, s.lock.value) else Idle, s.pipe, w))
  }

  /** Busy threads hold the pipe, except the one that closes it once nobody does. */
  ghost predicate Attached(s: State) {
    && s.pipeRefs == Holders(s.threads)
    && (forall t :: 0 <= t < |s.threads| ==> At(s, t) != Idle ==> HoldsPipe(s, t) != IsClosing(At(s, t)))
    && (forall t :: 0 <= t < |s.threads| && IsClosing(At(s, t)) ==> s.pipeRefs == 0)
    && (forall t :: 0 <= t < |s.threads| && At(s, t) == Closed ==> s.pipe.queue == [])
    && (forall t, u :: 0 <= t < u < |s.threads| && IsClosing(At(s, t)) ==> !IsClosing(At(s, u)))
  }

  /** Every reference count is the number of references there are. */
  ghost predicate Counted(s: State) {
    && (forall t :: 0 <= t < |s.threads| ==> PhaseFits(At(s, t)))
    && s.refs == s.held + Queued(s.pipe.queue) + InHands(s.threads)
  }

  ghost predicate Inv(s: State, w: Wake) {
    Guarded(s, w) && Attached(s) && Counted(s)
  }

  lemma AddFront<T>(c: multiset<T>, a1: multiset<T>, o: multiset<T>, a: multiset<T>, o1: multiset<T>)
    requires a1 + o == a + o1
    ensures (c + a1) + o == (c + a) + o1
  {
    assert (c + a1) + o == c + (a1 + o);
  }

  lemma Swap<T>(o1: multiset<T>, c: multiset<T>, o: multiset<T>)
    ensures (o1 + c) + o == (o + c) + o1
  {
  }

  /** New counts: what a thread no longer owns and what left the queue is gone,
      what came is there. */
  lemma Balance<T>(r: multiset<T>, r1: multiset<T>, h: multiset<T>, q: multiset<T>, q1: multiset<T>,
                   i: multiset<T>, i1: multiset<T>, o: multiset<T>, o1: multiset<T>)
    requires r == h + q + i
    requires r1 + o + q == r + o1 + q1 && i1 + o == i + o1
    ensures r1 == h + q1 + i1
  {
    forall x: T ensures r1[x] == (h + q1 + i1)[x] {
      assert (r1 + o + q)[x] == (r + o1 + q1)[x];
      assert (i1 + o)[x] == (i + o1)[x];
    }
  }

  lemma {:induction false} InHandsUpdate(ts: seq<Thread>, t: nat, x: Thread)
    requires t < |ts|
    ensures InHands(ts[t := x]) + Owns(ts[t].phase) == InHands(ts) + Owns(x.phase)
    decreases |ts|
  {
    var ts1 := ts[t := x];
    if t == 0 {
      assert ts1[1..] == ts[1..];
      Swap(Owns(x.phase), InHands(ts[1..]), Owns(ts[0].phase));
    } else {
      InHandsUpdate(ts[1..], t - 1, x);
      assert ts1[1..] == ts[1..][t - 1 := x];
      AddFront(Owns(ts[0].phase), InHands(ts1[1..]), Owns(ts[t].phase), InHands(ts[1..]), Owns(x.phase));
    }
  }

  lemma {:induction false} HoldersUpdate(ts: seq<Thread>, t: nat, x: Thread)
    requires t < |ts|
    ensures Holders(ts[t := x]) + ts[t].holds == Holders(ts) + x.holds
    ensures Holders(ts) >= ts[t].holds
    decreases |ts|
  {
    var ts1 := ts[t := x];
    if t == 0 {
      assert ts1[1..] == ts[1..];
    } else {
      HoldersUpdate(ts[1..], t - 1, x);
      assert ts1[1..] == ts[1..][t - 1 := x];
    }
  }

  lemma Holding(s: State, t: nat)
    requires HoldsPipe(s, t) && s.pipeRefs == Holders(s.threads)
    ensures s.pipeRefs >= s.threads[t].holds > 0
  {
    HoldersUpdate(s.threads, t, s.threads[t]);
  }

  /** If all references are gone, the threads that do not close are idle. */
  lemma NobodyHolds(s: State, t: nat)
    requires Attached(s) && s.pipeRefs == 0 && t < |s.threads|
    ensures !HoldsPipe(s, t) && (At(s, t) == Idle || IsClosing(At(s, t)))
  {
    if HoldsPipe(s, t) { Holding(s, t); }
  }

  lemma Assoc<T>(a: multiset<T>, b: multiset<T>, c: multiset<T>)
    ensures a + (b + c) == (a + b) + c
  {
  }

  lemma {:induction false} QueuedMore(q: seq<Msg>, m: Msg)
    ensures Queued(q + [m]) == Queued(q) + multiset(m.sabs)
  {
    if q == [] {
      assert (q + [m])[1..] == [];
    } else {
      var rest := q[1..];
      QueuedMore(rest, m);
      assert (q + [m])[1..] == rest + [m];
      Assoc(multiset(q[0].sabs), Queued(rest), multiset(m.sabs));
    }
  }

  // ---------------------------------------------------------------------
  // Every event keeps the invariant
  // ---------------------------------------------------------------------

  /** `s1` is `s` with thread `t` in phase `p`, and other changes to the pipe, the
      mutex and the reference counts. */
  predicate Moved(s: State, t: nat, p: Phase, s1: State) {
    && t < |s.threads|
    && s1 == Put(s, t, p).(pipe := s1.pipe, lock := s1.lock, refs := s1.refs)
  }

  lemma MovedAt(s: State, t: nat, p: Phase, s1: State)
    requires Moved(s, t, p, s1)
    ensures forall u: nat {:trigger At(s1, u)} :: At(s1, u) == (if u == t then p else At(s, u))
    ensures forall u: nat {:trigger HoldsPipe(s1, u)} :: HoldsPipe(s1, u) == HoldsPipe(s, u)
  {
  }

  lemma MovedCounted(s: State, t: nat, p: Phase, s1: State)
    requires Moved(s, t, p, s1) && Counted(s) && PhaseFits(p)
    requires s1.refs + Owns(At(s, t)) + Queued(s.pipe.queue) == s.refs + Owns(p) + Queued(s1.pipe.queue)
    ensures Counted(s1)
  {
    var x := s.threads[t].(phase := p);
    InHandsUpdate(s.threads, t, x);
    Balance(s.refs, s1.refs, s.held, Queued(s.pipe.queue), Queued(s1.pipe.queue), InHands(s.threads),
            InHands(s1.threads), Owns(At(s, t)), Owns(p));
    MovedAt(s, t, p, s1);
  }

  lemma MovedAttached(s: State, t: nat, p: Phase, s1: State)
    requires Moved(s, t, p, s1) && Attached(s)
    requires p != Idle ==> HoldsPipe(s, t) != IsClosing(p)
    requires IsClosing(p) ==> IsClosing(At(s, t)) && (p == Closed ==> s.pipe.queue == [])
    requires s1.pipe.queue != [] && s.pipe.queue == [] ==> HoldsPipe(s, t)
    ensures Attached(s1)
  {
    HoldersUpdate(s.threads, t, s.threads[t].(phase := p));
    MovedAt(s, t, p, s1);
  }

  lemma MovedGuarded(s: State, t: nat, p: Phase, s1: State, w: Wake, w1: Wake)
    requires Moved(s, t, p, s1) && Guarded(s, w)
    requires Critical(p) <==> s1.lock == Some(t)
    requires s1.lock != s.lock ==> (s.lock == None && s1.lock == Some(t)) || (s.lock == Some(t) && s1.lock == None)
    requires s.pipeRefs > 0 && s1.lock != Some(t) ==>
      if s1.lock == None then InStep(s1.pipe, w1) else s1.pipe == s.pipe && w1 == w
    requires s.pipeRefs > 0 && s1.lock == Some(t) ==> MidSection(p, s1.pipe, w1)
    ensures Guarded(s1, w1)
  {
  }

  lemma Move(s: State, t: nat, p: Phase, s1: State, w: Wake, w1: Wake)
    requires Moved(s, t, p, s1) && Inv(s, w) && PhaseFits(p)
    requires s1.refs + Owns(At(s, t)) + Queued(s.pipe.queue) == s.refs + Owns(p) + Queued(s1.pipe.queue)
    requires p != Idle ==> HoldsPipe(s, t) != IsClosing(p)
    requires IsClosing(p) ==> IsClosing(At(s, t)) && (p == Closed ==> s.pipe.queue == [])
    requires s1.pipe.queue != [] && s.pipe.queue == [] ==> HoldsPipe(s, t)
    requires Critical(p) <==> s1.lock == Some(t)
    requires s1.lock != s.lock ==> (s.lock == None && s1.lock == Some(t)) || (s.lock == Some(t) && s1.lock == None)
    requires s.pipeRefs > 0 && s1.lock != Some(t) ==>
      if s1.lock == None then InStep(s1.pipe, w1) else s1.pipe == s.pipe && w1 == w
    requires s.pipeRefs > 0 && s1.lock == Some(t) ==> MidSection(p, s1.pipe, w1)
    ensures Inv(s1, w1)
  {
    MovedCounted(s, t, p, s1);
    MovedAttached(s, t, p, s1);
    MovedGuarded(s, t, p, s1, w, w1);
  }

  lemma BeginKeeps(s: State, t: nat, m: Msg, w: Wake)
    requires Inv(s, w) && PostEnabled(s, t, Begin(m))
    ensures Inv(FirePost(s, t, Begin(m)), w)
  {
    OwnsAtEnds(m);
    Move(s, t, Duping(m, 0), FirePost(s, t, Begin(m)), w, w);
  }

  /** What a thread owns at the ends of the loops over a message's buffers. */
  lemma OwnsAtEnds(m: Msg)
    ensures Owns(Duping(m, 0)) == Owns(Idle)
    ensures Owns(Duping(m, |m.sabs|)) == Owns(PostLocked(m))
  {
    FrontBack(m.sabs, 0);
  }

  lemma OwnsFreeing(m: Msg, p: Phase)
    requires p.Freeing? || p.ClosingMsg?
    requires p.msg == m
    ensures p.k == 0 ==> Owns(p) == multiset(m.sabs)
    ensures p.k == |m.sabs| ==> Owns(p) == multiset{}
  {
    BackEnds(m.sabs);
    assert Owns(p) == Back(m.sabs, p.k);
  }

  lemma DupSabRefs(r: multiset<Sab>, m: Msg, k: nat)
    requires k < |m.sabs|
    ensures (r + multiset{m.sabs[k]}) + Owns(Duping(m, k)) == r + Owns(Duping(m, k + 1))
  {
    FrontBack(m.sabs, k);
    Swap(r, multiset{m.sabs[k]}, Front(m.sabs, k));
    Rotate(r, multiset{m.sabs[k]}, Front(m.sabs, k));
  }

  lemma Rotate<T>(a: multiset<T>, b: multiset<T>, c: multiset<T>)
    ensures (a + b) + c == a + (c + b)
  {
  }

  lemma DupSabCounted(s: State, t: nat, s1: State)
    requires Counted(s) && PostEnabled(s, t, DupSab) && s1 == FirePost(s, t, DupSab)
    ensures Counted(s1)
  {
    var m, k := At(s, t).msg, At(s, t).k;
    DupSabRefs(s.refs, m, k);
    MovedCounted(s, t, Duping(m, k + 1), s1);
  }

  lemma DupSabKeeps(s: State, t: nat, w: Wake)
    requires Inv(s, w) && PostEnabled(s, t, DupSab)
    ensures Inv(FirePost(s, t, DupSab), w)
  {
    var p, s1 := Duping(At(s, t).msg, At(s, t).k + 1), FirePost(s, t, DupSab);
    DupSabCounted(s, t, s1);
    assert Attached(s1) by { MovedAttached(s, t, p, s1); }
    assert Guarded(s1, w) by { MovedGuarded(s, t, p, s1, w, w); }
  }

  lemma LockKeeps(s: State, t: nat, w: Wake)
    requires Inv(s, w) && PostEnabled(s, t, Lock)
    ensures Inv(FirePost(s, t, Lock), w)
  {
    var m := At(s, t).msg;
    OwnsAtEnds(m);
    Move(s, t, PostLocked(m), FirePost(s, t, Lock), w, w);
  }

  lemma NotifyGuarded(s: State, t: nat, a: PostStep, s1: State, w: Wake)
    requires Guarded(s, w) && PostEnabled(s, t, a) && (a.NoNotify? || a.Notify?) && s1 == FirePost(s, t, a)
    ensures Guarded(s1, Outcome(w, Post(t, a)))
  {
    MovedGuarded(s, t, PostNotified(At(s, t).msg), s1, w, Outcome(w, Post(t, a)));
  }

  lemma NotifyCounted(s: State, t: nat, a: PostStep, s1: State)
    requires Counted(s) && PostEnabled(s, t, a) && (a.NoNotify? || a.Notify?) && s1 == FirePost(s, t, a)
    ensures Counted(s1)
  {
    MovedCounted(s, t, PostNotified(At(s, t).msg), s1);
  }

  lemma NotifyKeeps(s: State, t: nat, a: PostStep, w: Wake)
    requires Inv(s, w) && PostEnabled(s, t, a) && (a.NoNotify? || a.Notify?)
    ensures Inv(FirePost(s, t, a), Outcome(w, Post(t, a)))
  {
    var s1 := FirePost(s, t, a);
    NotifyGuarded(s, t, a, s1, w);
    NotifyCounted(s, t, a, s1);
    assert Attached(s1) by { MovedAttached(s, t, PostNotified(At(s, t).msg), s1); }
  }

  lemma LinkRefs(r: multiset<Sab>, q: seq<Msg>, m: Msg)
    ensures r + Owns(PostNotified(m)) + Queued(q) == r + Owns(PostLinked) + Queued(q + [m])
  {
    QueuedMore(q, m);
    Rotate(r, multiset(m.sabs), Queued(q));
    assert r + multiset{} == r;
  }

  lemma LinkKeeps(s: State, t: nat, m: Msg, w: Wake)
    requires Inv(s, w) && PostEnabled(s, t, Link(m))
    ensures Inv(FirePost(s, t, Link(m)), w)
  {
    LinkRefs(s.refs, s.pipe.queue, m);
    Move(s, t, PostLinked, FirePost(s, t, Link(m)), w, w);
  }

  lemma LockToReceiveKeeps(s: State, t: nat, w: Wake)
    requires Inv(s, w) && ReceiveEnabled(s, t, LockToReceive)
    ensures Inv(FireReceive(s, t, LockToReceive), w)
  {
    Move(s, t, RecvLocked, FireReceive(s, t, LockToReceive), w, w);
  }

  lemma FindNothingKeeps(s: State, t: nat, w: Wake)
    requires Inv(s, w) && ReceiveEnabled(s, t, FindNothing)
    ensures Inv(FireReceive(s, t, FindNothing), w)
  {
    Move(s, t, RecvNothing, FireReceive(s, t, FindNothing), w, w);
  }

  lemma DrainGuarded(s: State, t: nat, read: bool, s1: State, w: Wake)
    requires Guarded(s, w) && ReceiveEnabled(s, t, Drain(read)) && s1 == FireReceive(s, t, Drain(read))
    ensures Guarded(s1, Outcome(w, Receive(t, Drain(read))))
  {
    var w1 := Outcome(w, Receive(t, Drain(read)));
    assert s.lock == Some(t) && (s.pipeRefs > 0 ==> InStep(s1.pipe, w1));
    MovedGuarded(s, t, RecvDrained(At(s, t).msg), s1, w, w1);
  }

  lemma DrainCounted(s: State, t: nat, read: bool, s1: State)
    requires Counted(s) && ReceiveEnabled(s, t, Drain(read)) && s1 == FireReceive(s, t, Drain(read))
    ensures Counted(s1)
  {
    SameHands(At(s, t).msg);
    MovedCounted(s, t, RecvDrained(At(s, t).msg), s1);
  }

  lemma DrainAttached(s: State, t: nat, read: bool, s1: State)
    requires Attached(s) && ReceiveEnabled(s, t, Drain(read)) && s1 == FireReceive(s, t, Drain(read))
    ensures Attached(s1)
  {
    MovedAttached(s, t, RecvDrained(At(s, t).msg), s1);
  }

  lemma DrainKeeps(s: State, t: nat, read: bool, w: Wake)
    requires Inv(s, w) && ReceiveEnabled(s, t, Drain(read))
    ensures Inv(FireReceive(s, t, Drain(read)), Outcome(w, Receive(t, Drain(read))))
  {
    var s1 := FireReceive(s, t, Drain(read));
    DrainGuarded(s, t, read, s1, w);
    DrainCounted(s, t, read, s1);
    DrainAttached(s, t, read, s1);
  }

  lemma NoDrainGuarded(s: State, t: nat, s1: State, w: Wake)
    requires Guarded(s, w) && ReceiveEnabled(s, t, NoDrain) && s1 == FireReceive(s, t, NoDrain)
    ensures Guarded(s1, w)
  {
    MovedGuarded(s, t, RecvDrained(At(s, t).msg), s1, w, w);
  }

  lemma SameHands(m: Msg)
    ensures Owns(RecvRemoved(m)) == Owns(RecvDrained(m)) == multiset(m.sabs)
  {
  }

  lemma NoDrainCounted(s: State, t: nat, s1: State)
    requires Counted(s) && ReceiveEnabled(s, t, NoDrain) && s1 == FireReceive(s, t, NoDrain)
    ensures Counted(s1)
  {
    SameHands(At(s, t).msg);
    MovedCounted(s, t, RecvDrained(At(s, t).msg), s1);
  }

  lemma NoDrainKeeps(s: State, t: nat, w: Wake)
    requires Inv(s, w) && ReceiveEnabled(s, t, NoDrain)
    ensures Inv(FireReceive(s, t, NoDrain), w)
  {
    var s1 := FireReceive(s, t, NoDrain);
    NoDrainGuarded(s, t, s1, w);
    NoDrainCounted(s, t, s1);
    assert Attached(s1) by { MovedAttached(s, t, RecvDrained(At(s, t).msg), s1); }
  }

  /** Taking the first message out of the queue moves its references from the
      queue to the thread. */
  lemma Unqueue(q: seq<Msg>, r: multiset<Sab>, p: Phase, p1: Phase)
    requires q != [] && Owns(p) == multiset{} && Owns(p1) == multiset(q[0].sabs)
    ensures r + Owns(p) + Queued(q) == r + Owns(p1) + Queued(q[1..])
  {
    Assoc(r, multiset(q[0].sabs), Queued(q[1..]));
    assert r + multiset{} == r;
  }

  lemma RemoveKeeps(s: State, t: nat, m: Msg, w: Wake)
    requires Inv(s, w) && ReceiveEnabled(s, t, Remove(m))
    ensures Inv(FireReceive(s, t, Remove(m)), w)
  {
    Unqueue(s.pipe.queue, s.refs, RecvLocked, RecvRemoved(m));
    Move(s, t, RecvRemoved(m), FireReceive(s, t, Remove(m)), w, w);
  }

  lemma UnlockGuarded(s: State, t: nat, s1: State, w: Wake)
    requires Guarded(s, w) && ReleaseEnabled(s, t, Unlock) && s1 == Put(s, t, Unlocked(At(s, t))).(lock := None)
    ensures Guarded(s1, w)
  {
    MovedGuarded(s, t, Unlocked(At(s, t)), s1, w, w);
  }

  lemma UnlockCounted(s: State, t: nat, s1: State)
    requires Counted(s) && ReleaseEnabled(s, t, Unlock) && s1 == Put(s, t, Unlocked(At(s, t))).(lock := None)
    ensures Counted(s1)
  {
    UnlockOwns(At(s, t));
    MovedCounted(s, t, Unlocked(At(s, t)), s1);
  }

  lemma UnlockAttached(s: State, t: nat, s1: State)
    requires Attached(s) && ReleaseEnabled(s, t, Unlock) && s1 == Put(s, t, Unlocked(At(s, t))).(lock := None)
    ensures Attached(s1)
  {
    MovedAttached(s, t, Unlocked(At(s, t)), s1);
  }

  lemma UnlockKeeps(s: State, t: nat, w: Wake)
    requires Inv(s, w) && ReleaseEnabled(s, t, Unlock)
    ensures Inv(FireRelease(s, t, Unlock), w)
  {
    var s1 := Put(s, t, Unlocked(At(s, t))).(lock := None);
    UnlockCounted(s, t, s1);
    UnlockGuarded(s, t, s1, w);
    UnlockAttached(s, t, s1);
    assert FireRelease(s, t, Unlock) == s1;
  }

  lemma UnlockOwns(p: Phase)
    requires p.PostLinked? || p.RecvDrained? || p.RecvNothing?
    ensures Owns(Unlocked(p)) == Owns(p)
  {
    if p.RecvDrained? { OwnsFreeing(p.msg, Freeing(p.msg, 0)); }
  }

  lemma OwnsBack(m: Msg, k: nat)
    ensures Owns(Freeing(m, k)) == Back(m.sabs, k)
    ensures Owns(ClosingMsg(m, k)) == Back(m.sabs, k)
  {
  }

  lemma OwnsInFree(p: Phase)
    requires InFree(p)
    ensures Owns(p) == Back(p.msg.sabs, p.k) && Owns(FreedOne(p)) == Back(p.msg.sabs, p.k + 1)
  {
    OwnsBack(p.msg, p.k);
    OwnsBack(p.msg, p.k + 1);
    assert p == Freeing(p.msg, p.k) || p == ClosingMsg(p.msg, p.k);
  }

  lemma FreeSabRefs(r: multiset<Sab>, p: Phase)
    requires InFree(p) && p.k < |p.msg.sabs| && p.msg.sabs[p.k] in r
    ensures (r - multiset{p.msg.sabs[p.k]}) + Owns(p) == r + Owns(FreedOne(p))
  {
    var tab, k := p.msg.sabs, p.k;
    BackStep(tab, k);
    OwnsInFree(p);
    Return(r, Back(tab, k + 1), tab[k]);
  }

  lemma Return<T>(r: multiset<T>, b: multiset<T>, x: T)
    requires x in r
    ensures (r - multiset{x}) + (b + multiset{x}) == r + b
  {
  }

  /** The count that js_sab_free decrements is not zero. */
  lemma FreeSabHasRef(s: State, t: nat)
    requires Counted(s) && ReleaseEnabled(s, t, FreeSab)
    ensures At(s, t).msg.sabs[At(s, t).k] in s.refs
  {
    var p := At(s, t);
    BackStep(p.msg.sabs, p.k);
    OwnsInFree(p);
    OwnedIsLive(s, t, p.msg.sabs[p.k]);
  }

  lemma FreeSabCounted(s: State, t: nat, s1: State)
    requires Counted(s) && ReleaseEnabled(s, t, FreeSab) && s1 == FireRelease(s, t, FreeSab)
    ensures Counted(s1)
  {
    FreeSabHasRef(s, t);
    FreeSabRefs(s.refs, At(s, t));
    MovedCounted(s, t, FreedOne(At(s, t)), s1);
  }

  lemma FreeSabKeeps(s: State, t: nat, w: Wake)
    requires Inv(s, w) && ReleaseEnabled(s, t, FreeSab)
    ensures Inv(FireRelease(s, t, FreeSab), w)
  {
    var s1 := FireRelease(s, t, FreeSab);
    FreeSabCounted(s, t, s1);
    assert Attached(s1) by { MovedAttached(s, t, FreedOne(At(s, t)), s1); }
    assert Guarded(s1, w) by { MovedGuarded(s, t, FreedOne(At(s, t)), s1, w, w); }
  }

  lemma EndFreeCounted(s: State, t: nat, s1: State)
    requires Counted(s) && ReleaseEnabled(s, t, EndFree) && s1 == FireRelease(s, t, EndFree)
    ensures Counted(s1)
  {
    OwnsFreeing(At(s, t).msg, At(s, t));
    MovedCounted(s, t, FreedAll(At(s, t)), s1);
  }

  lemma EndFreeGuarded(s: State, t: nat, s1: State, w: Wake)
    requires Inv(s, w) && ReleaseEnabled(s, t, EndFree) && s1 == FireRelease(s, t, EndFree)
    ensures Guarded(s1, w)
  {
    if At(s, t).ClosingMsg? { NotLocked(s, t, w); }
    MovedGuarded(s, t, FreedAll(At(s, t)), s1, w, w);
  }

  lemma EndFreeKeeps(s: State, t: nat, w: Wake)
    requires Inv(s, w) && ReleaseEnabled(s, t, EndFree)
    ensures Inv(FireRelease(s, t, EndFree), w)
  {
    var s1 := FireRelease(s, t, EndFree);
    EndFreeCounted(s, t, s1);
    EndFreeGuarded(s, t, s1, w);
    assert Attached(s1) by { MovedAttached(s, t, FreedAll(At(s, t)), s1); }
  }

  lemma CloseNextKeeps(s: State, t: nat, m: Msg, w: Wake)
    requires Inv(s, w) && ReleaseEnabled(s, t, CloseNext(m))
    ensures Inv(FireRelease(s, t, CloseNext(m)), w)
  {
    OwnsFreeing(m, ClosingMsg(m, 0));
    Unqueue(s.pipe.queue, s.refs, Closing, ClosingMsg(m, 0));
    NotLocked(s, t, w);
    Move(s, t, ClosingMsg(m, 0), FireRelease(s, t, CloseNext(m)), w, w);
  }

  lemma CloseEndKeeps(s: State, t: nat, w: Wake)
    requires Inv(s, w) && ReleaseEnabled(s, t, CloseEnd)
    ensures Inv(FireRelease(s, t, CloseEnd), w)
  {
    NotLocked(s, t, w);
    Move(s, t, Closed, FireRelease(s, t, CloseEnd), w, w);
  }

  /** While the pipe is being closed, nobody is in a critical section. */
  lemma NotLocked(s: State, t: nat, w: Wake)
    requires Inv(s, w) && t < |s.threads| && IsClosing(At(s, t))
    ensures s.lock == None && s.pipeRefs == 0
  {
    if s.lock.Some? { NobodyHolds(s, s.lock.value); }
  }

  /** Thread `u` becomes `x`, and the references to the pipe change with it. */
  ghost predicate Held(s: State, u: nat, x: Thread, s1: State) {
    && u < |s.threads| && At(s, u) == Idle
    && s1 == s.(threads := s.threads[u := x], pipeRefs := s1.pipeRefs)
    && s1.pipeRefs + s.threads[u].holds == s.pipeRefs + x.holds
    && s.pipeRefs > 0 && (x.phase == Idle || (x == Thread(Closing, 0) && s1.pipeRefs == 0))
  }

  lemma HeldAt(s: State, u: nat, x: Thread, s1: State)
    requires Held(s, u, x, s1)
    ensures forall v: nat {:trigger At(s1, v)} :: At(s1, v) == if v == u then x.phase else At(s, v)
    ensures forall v: nat {:trigger HoldsPipe(s1, v)} :: HoldsPipe(s1, v) == if v == u then x.holds > 0 else HoldsPipe(s, v)
  {
  }

  lemma HeldCounted(s: State, u: nat, x: Thread, s1: State)
    requires Held(s, u, x, s1) && Counted(s)
    ensures Counted(s1)
  {
    HeldAt(s, u, x, s1);
    InHandsUpdate(s.threads, u, x);
    assert Owns(s.threads[u].phase) == multiset{} == Owns(x.phase);
    Nothing(InHands(s1.threads), InHands(s.threads));
  }

  lemma HeldAttached(s: State, u: nat, x: Thread, s1: State)
    requires Held(s, u, x, s1) && Attached(s)
    ensures Attached(s1)
  {
    HeldAt(s, u, x, s1);
    HoldersUpdate(s.threads, u, x);
  }

  lemma HeldGuarded(s: State, u: nat, x: Thread, s1: State, w: Wake)
    requires Held(s, u, x, s1) && Guarded(s, w)
    ensures Guarded(s1, w)
  {
    HeldAt(s, u, x, s1);
  }

  lemma Nothing<T>(a: multiset<T>, b: multiset<T>)
    requires a + multiset{} == b + multiset{}
    ensures a == b
  {
    assert a + multiset{} == a && b + multiset{} == b;
  }

  lemma HoldKeeps(s: State, t: nat, a: HoldStep, w: Wake)
    requires Inv(s, w) && HoldEnabled(s, t, a)
    ensures s.pipeRefs >= 1 && Inv(FireHold(s, t, a), w)
  {
    Holding(s, t);
    var u := if a.DupPipe? then a.u else t;
    var s1 := FireHold(s, t, a);
    var x := s1.threads[u];
    HeldCounted(s, u, x, s1);
    HeldAttached(s, u, x, s1);
    HeldGuarded(s, u, x, s1, w);
  }

  lemma HeapRefs(s: State, s1: State)
    requires s1 == s.(held := s1.held, refs := s1.refs)
    requires exists x: Sab ::
      || (s1.refs == s.refs + multiset{x} && s1.held == s.held + multiset{x})
      || (x in s.held && s1.refs == s.refs - multiset{x} && s1.held == s.held - multiset{x})
    requires Counted(s)
    ensures Counted(s1)
  {
    assert forall v: nat {:trigger At(s1, v)} :: At(s1, v) == At(s, v);
    assert s1.refs == s1.held + Queued(s.pipe.queue) + InHands(s.threads);
  }

  lemma HeapKeeps(s: State, sab: Sab, a: HeapStep, w: Wake)
    requires Inv(s, w) && HeapEnabled(s, sab, a)
    ensures Inv(FireHeap(s, sab, a), w)
  {
    var s1 := FireHeap(s, sab, a);
    HeapRefs(s, s1);
    assert forall v: nat {:trigger At(s1, v)} :: At(s1, v) == At(s, v);
    assert forall v: nat {:trigger HoldsPipe(s1, v)} :: HoldsPipe(s1, v) == HoldsPipe(s, v);
  }

  /** A buffer of the message in a thread's hands is alive: its count is at least
      the number of references that the thread owns. */
  lemma OwnedIsLive(s: State, t: nat, sab: Sab)
    requires Counted(s) && t < |s.threads|
    ensures s.refs[sab] >= Owns(At(s, t))[sab]
  {
    var x := s.threads[t].(phase := Idle);
    InHandsUpdate(s.threads, t, x);
    assert (InHands(s.threads[t := x]) + Owns(At(s, t)))[sab] == (InHands(s.threads) + Owns(Idle))[sab];
  }

  /** No buffer of a queued message has been freed. */
  lemma QueuedIsLive(s: State, sab: Sab)
    requires Counted(s)
    ensures s.refs[sab] >= Queued(s.pipe.queue)[sab]
  {
  }

  lemma PostKeeps(s: State, t: nat, a: PostStep, w: Wake)
    requires Inv(s, w) && PostEnabled(s, t, a)
    ensures Inv(FirePost(s, t, a), Outcome(w, Post(t, a)))
  {
    match a
    case Begin(m) => BeginKeeps(s, t, m, w);
    case DupSab => DupSabKeeps(s, t, w);
    case Lock => LockKeeps(s, t, w);
    case Notify(_) => NotifyKeeps(s, t, a, w);
    case NoNotify => NotifyKeeps(s, t, a, w);
    case Link(m) => LinkKeeps(s, t, m, w);
  }

  lemma ReceiveKeeps(s: State, t: nat, a: ReceiveStep, w: Wake)
    requires Inv(s, w) && ReceiveEnabled(s, t, a)
    ensures Inv(FireReceive(s, t, a), Outcome(w, Receive(t, a)))
  {
    match a
    case Drain(read) => DrainKeeps(s, t, read, w);
    case Remove(m) => RemoveKeeps(s, t, m, w);
    case _ =>
      assert Outcome(w, Receive(t, a)) == w;
      OtherReceiveKeeps(s, t, a, w);
  }

  lemma OtherReceiveKeeps(s: State, t: nat, a: ReceiveStep, w: Wake)
    requires Inv(s, w) && ReceiveEnabled(s, t, a) && !a.Drain? && !a.Remove?
    ensures Inv(FireReceive(s, t, a), w)
  {
    match a
    case LockToReceive => LockToReceiveKeeps(s, t, w);
    case FindNothing => FindNothingKeeps(s, t, w);
    case NoDrain => NoDrainKeeps(s, t, w);
  }

  lemma ReleaseKeeps(s: State, t: nat, a: ReleaseStep, w: Wake)
    requires Inv(s, w) && ReleaseEnabled(s, t, a)
    ensures Inv(FireRelease(s, t, a), w)
  {
    match a
    case Unlock => UnlockKeeps(s, t, w);
    case FreeSab => FreeSabKeeps(s, t, w);
    case EndFree => EndFreeKeeps(s, t, w);
    case CloseNext(m) => CloseNextKeeps(s, t, m, w);
    case CloseEnd => CloseEndKeeps(s, t, w);
  }

  lemma EventKeeps(s: State, e: Event, w: Wake)
    requires Inv(s, w) && Enabled(s, e)
    ensures Inv(Fire(s, e), Outcome(w, e))
  {
    match e
    case Post(t, a) => PostKeeps(s, t, a, w);
    case Receive(t, a) => ReceiveKeeps(s, t, a, w);
    case Release(t, a) => ReleaseKeeps(s, t, a, w);
    case Hold(t, a) => HoldKeeps(s, t, a, w);
    case Heap(sab, a) => HeapKeeps(s, sab, a, w);
  }

  // ---------------------------------------------------------------------
  // All runs
  // ---------------------------------------------------------------------

  lemma {:induction false} NobodyBusy(ts: seq<Thread>)
    requires forall t :: 0 <= t < |ts| ==> ts[t] == Thread(Idle, 0)
    ensures InHands(ts) == multiset{} && Holders(ts) == 0
  {
    if ts != [] { NobodyBusy(ts[1..]); }
  }

  lemma StartInv(n: nat)
    requires n > 0
    ensures Inv(Start(n), Wake(0, true))
  {
    var ts := Start(n).threads;
    NobodyBusy(ts[1..]);
    assert Owns(ts[0].phase) == multiset{};
    assert InHands(ts) == multiset{};
  }

  lemma {:induction false} RunKeeps(s: State, es: seq<Event>, w: Wake)
    requires Inv(s, w) && Runs(s, es)
    ensures Inv(After(s, es), Outcomes(w, es))
    decreases |es|
  {
    if es != [] {
      EventKeeps(s, es[0], w);
      RunKeeps(Fire(s, es[0]), es[1..], Outcome(w, es[0]));
    }
  }

  lemma Reached(n: nat, es: seq<Event>)
    requires n > 0 && Runs(Start(n), es)
    ensures Inv(After(Start(n), es), WakeOf(es))
  {
    StartInv(n);
    RunKeeps(Start(n), es, Wake(0, true));
  }

  /** Whenever the mutex of a pipe in use is free, the pipe holds what was left in it
      when the queue was last empty, and the byte of the last write if there are
      messages; so it wakes the receiver exactly if there are messages under the
      condition on the outcomes. */
  lemma WakeUp(n: nat, es: seq<Event>)
    requires n > 0 && Runs(Start(n), es)
    ensures var s, w := After(Start(n), es), WakeOf(es);
      s.lock == None && s.pipeRefs > 0 ==>
        && s.pipe.bytes == w.left + (if s.pipe.queue != [] then Written(w) else 0)
        && (Signalled(s.pipe) <==> w.left + (if s.pipe.queue != [] then Written(w) else 1) == 1)
  {
    Reached(n, es);
  }

  predicate Writes(es: seq<Event>) {
    forall i :: 0 <= i < |es| && es[i].Post? && es[i].post.Notify? ==> es[i].post.ok
  }

  predicate Reads(es: seq<Event>) {
    forall i :: 0 <= i < |es| && es[i].Receive? && es[i].receive.Drain? ==> es[i].receive.read
  }

  lemma {:induction false} AllWritten(w: Wake, es: seq<Event>)
    requires Writes(es) && w.ok
    ensures Outcomes(w, es).ok
    decreases |es|
  {
    if es != [] { AllWritten(Outcome(w, es[0]), es[1..]); }
  }

  lemma {:induction false} AllRead(w: Wake, es: seq<Event>)
    requires Reads(es) && w.left == 0
    ensures Outcomes(w, es).left == 0
    decreases |es|
  {
    if es != [] { AllRead(Outcome(w, es[0]), es[1..]); }
  }

  /** If all reads succeed, there is a byte exactly if there are messages and the last
      write succeeded. */
  lemma WakeUpIfRead(n: nat, es: seq<Event>)
    requires n > 0 && Runs(Start(n), es) && Reads(es)
    ensures var s := After(Start(n), es);
      s.lock == None && s.pipeRefs > 0 ==> s.pipe.bytes == if s.pipe.queue != [] && WakeOf(es).ok then 1 else 0
  {
    WakeUp(n, es);
    AllRead(Wake(0, true), es);
  }

  /** If all writes succeed as well, the byte is there exactly while there are
      messages. */
  lemma WakeUpIfWritten(n: nat, es: seq<Event>)
    requires n > 0 && Runs(Start(n), es) && Reads(es) && Writes(es)
    ensures var s := After(Start(n), es); s.lock == None && s.pipeRefs > 0 ==> Signalled(s.pipe)
  {
    WakeUpIfRead(n, es);
    AllWritten(Wake(0, true), es);
  }

  /** At most one thread is in a critical section. */
  lemma MutualExclusion(n: nat, es: seq<Event>, t: nat, u: nat)
    requires n > 0 && Runs(Start(n), es)
    requires var s := After(Start(n), es); t < |s.threads| && u < |s.threads| && Critical(At(s, t)) && Critical(At(s, u))
    ensures t == u
  {
    Reached(n, es);
  }

  /** A step of the thread with the mutex, other than giving up on the read. */
  predicate Onward(e: Event, t: nat) {
    (e.Post? || e.Receive? || e.Release?) && e.t == t && e != Receive(t, Drain(false))
  }

  /** The holder of the mutex is held up only in the read of an empty pipe, and that
      happens exactly after a failed write with nothing left from before. */
  lemma HolderProceeds(n: nat, es: seq<Event>, t: nat)
    requires n > 0 && Runs(Start(n), es) && After(Start(n), es).lock == Some(t)
    ensures var s, w := After(Start(n), es), WakeOf(es);
      (exists e: Event :: Enabled(s, e) && Onward(e, t))
      <==> !(At(s, t).RecvRemoved? && s.pipe.queue == [] && w == Wake(0, false))
  {
    Reached(n, es);
    var s, w := After(Start(n), es), WakeOf(es);
    Holding(s, t);
    if At(s, t).RecvRemoved? && s.pipe.queue == [] && w == Wake(0, false) {
      NoStep(s, t);
    } else if At(s, t).RecvRemoved? {
      Possible(s, t, Receive(t, if s.pipe.queue != [] then NoDrain else Drain(true)));
    } else {
      Possible(s, t, NextStep(s, t));
    }
  }

  /** The step of the thread with the mutex, except at the read. */
  function NextStep(s: State, t: nat): Event {
    match At(s, t)
    case PostLocked(_) => Post(t, if s.pipe.queue == [] then Notify(true) else NoNotify)
    case PostNotified(m) => Post(t, Link(m))
    case RecvLocked => Receive(t, if s.pipe.queue == [] then FindNothing else Remove(s.pipe.queue[0]))
    case _ => Release(t, Unlock)
  }

  lemma NoStep(s: State, t: nat)
    requires At(s, t).RecvRemoved? && s.pipe.queue == [] && s.pipe.bytes == 0
    ensures !exists e: Event :: Enabled(s, e) && Onward(e, t)
  {
  }

  lemma Possible(s: State, t: nat, e: Event)
    requires Enabled(s, e) && Onward(e, t)
    ensures exists e: Event :: Enabled(s, e) && Onward(e, t)
  {
  }

  lemma EventQueue(s: State, e: Event)
    requires Enabled(s, e)
    ensures s.pipe.queue + SentBy(e) == LeftBy(e) + Fire(s, e).pipe.queue
  {
    var q := s.pipe.queue;
    if LeftBy(e) != [] { assert q == [q[0]] + q[1..]; }
    assert q + [] == q && [] + Fire(s, e).pipe.queue == Fire(s, e).pipe.queue;
  }

  lemma Chain<T>(q: seq<T>, a: seq<T>, l: seq<T>, q1: seq<T>, b: seq<T>, m: seq<T>, end: seq<T>)
    requires q + a == l + q1 && q1 + b == m + end
    ensures q + (a + b) == (l + m) + end
  {
    assert q + (a + b) == (q + a) + b;
    assert (l + q1) + b == l + (q1 + b);
    assert l + (m + end) == (l + m) + end;
  }

  lemma {:induction false} QueueHistory(s: State, es: seq<Event>)
    requires Runs(s, es)
    ensures s.pipe.queue + Sent(es) == Left(es) + After(s, es).pipe.queue
    decreases |es|
  {
    if es == [] {
      assert s.pipe.queue + [] == [] + s.pipe.queue;
    } else {
      var s1, rest := Fire(s, es[0]), es[1..];
      EventQueue(s, es[0]);
      QueueHistory(s1, rest);
      Chain(s.pipe.queue, SentBy(es[0]), LeftBy(es[0]), s1.pipe.queue, Sent(rest), Left(rest), After(s1, rest).pipe.queue);
    }
  }

  /** Messages leave in posting order, each one once: what was posted is what has
      left, followed by what is still queued. */
  lemma InOrder(n: nat, es: seq<Event>)
    requires n > 0 && Runs(Start(n), es)
    ensures Sent(es) == Left(es) + After(Start(n), es).pipe.queue
  {
    QueueHistory(Start(n), es);
    assert [] + Sent(es) == Sent(es);
  }

  /** Every undelivered message holds one reference for each of its buffer entries,
      on top of those of the JavaScript heaps and of messages in a thread's hands. */
  lemma References(n: nat, es: seq<Event>)
    requires n > 0 && Runs(Start(n), es)
    ensures var s := After(Start(n), es);
      && s.refs == s.held + Queued(s.pipe.queue) + InHands(s.threads)
      && forall sab :: s.refs[sab] >= Queued(s.pipe.queue)[sab]
  {
    Reached(n, es);
    var s := After(Start(n), es);
    forall sab ensures s.refs[sab] >= Queued(s.pipe.queue)[sab] { QueuedIsLive(s, sab); }
  }

  /** js_sab_free never decrements a count of zero, and js_free_message_pipe neither. */
  lemma NoUnderflow(n: nat, es: seq<Event>, t: nat)
    requires n > 0 && Runs(Start(n), es)
    ensures var s := After(Start(n), es);
      && (ReleaseEnabled(s, t, FreeSab) ==> At(s, t).msg.sabs[At(s, t).k] in s.refs)
      && (HoldEnabled(s, t, FreePipe) ==> s.pipeRefs >= 1)
  {
    Reached(n, es);
    var s := After(Start(n), es);
    if ReleaseEnabled(s, t, FreeSab) { FreeSabHasRef(s, t); }
    if HoldEnabled(s, t, FreePipe) { Holding(s, t); }
  }

  lemma {:induction false} NothingInHands(ts: seq<Thread>)
    requires forall t :: 0 <= t < |ts| ==> ts[t].phase == Idle || ts[t].phase == Closed
    ensures InHands(ts) == multiset{}
  {
    if ts != [] { NothingInHands(ts[1..]); }
  }

  /** Once the pipe is closed, the references of undelivered messages are gone. */
  lemma NoLeak(n: nat, es: seq<Event>, t: nat)
    requires n > 0 && Runs(Start(n), es)
    requires t < |After(Start(n), es).threads| && At(After(Start(n), es), t) == Closed
    ensures var s := After(Start(n), es); s.pipe.queue == [] && s.refs == s.held
  {
    Reached(n, es);
    var s := After(Start(n), es);
    forall u | 0 <= u < |s.threads| ensures s.threads[u].phase == Idle || s.threads[u].phase == Closed {
      NobodyHolds(s, u);
      assert At(s, u) == s.threads[u].phase;
    }
    NothingInHands(s.threads);
    assert s.held + multiset{} + multiset{} == s.held;
  }

  // ---------------------------------------------------------------------
  // A whole critical section, one thread alone
  // ---------------------------------------------------------------------

  /** From taking to giving back the mutex, posting changes the pipe as the pipe
      object's Enqueue does. */
  lemma PostSection(s: State, t: nat, m: Msg, ok: bool)
    requires PostEnabled(s, t, Lock) && t < |s.threads| && At(s, t) == Duping(m, |m.sabs|)
    ensures var es := [Post(t, Lock), Post(t, if s.pipe.queue == [] then Notify(ok) else NoNotify), Post(t, Link(m)),
                       Release(t, Unlock)];
      && Runs(s, es)
      && After(s, es) == Put(s, t, Idle).(pipe := AfterPost(s.pipe, m, ok))
  {
    var a := if s.pipe.queue == [] then Notify(ok) else NoNotify;
    var s1 := FirePost(s, t, Lock);
    var s2 := FirePost(s1, t, a);
    var s3 := FirePost(s2, t, Link(m));
    var s4 := FireRelease(s3, t, Unlock);
    RunFour(s, Post(t, Lock), Post(t, a), Post(t, Link(m)), Release(t, Unlock));
    assert s4.threads == s.threads[t := s.threads[t].(phase := Idle)];
  }

  lemma RunFour(s: State, a: Event, b: Event, c: Event, d: Event)
    requires Enabled(s, a) && Enabled(Fire(s, a), b) && Enabled(Fire(Fire(s, a), b), c)
    requires Enabled(Fire(Fire(Fire(s, a), b), c), d)
    ensures Runs(s, [a, b, c, d]) && After(s, [a, b, c, d]) == Fire(Fire(Fire(Fire(s, a), b), c), d)
  {
    var s1 := Fire(s, a);
    var s2 := Fire(s1, b);
    var s3 := Fire(s2, c);
    assert [a, b, c, d][1..] == [b, c, d] && [b, c, d][1..] == [c, d] && [c, d][1..] == [d] && [d][1..] == [];
    assert Runs(Fire(s3, d), [d][1..]) && After(Fire(s3, d), [d][1..]) == Fire(s3, d);
    assert Runs(s3, [d]) && After(s3, [d]) == Fire(s3, d);
    assert Runs(s2, [c, d]) && After(s2, [c, d]) == Fire(s3, d);
    assert Runs(s1, [b, c, d]) && After(s1, [b, c, d]) == Fire(s3, d);
  }

  /** The same for receiving and the pipe object's Dequeue. */
  lemma ReceiveSection(s: State, t: nat, read: bool)
    requires ReceiveEnabled(s, t, LockToReceive) && s.pipe.queue != []
    requires |s.pipe.queue| == 1 && read ==> s.pipe.bytes > 0
    ensures var m := s.pipe.queue[0];
      var es := [Receive(t, LockToReceive), Receive(t, Remove(m)),
                 Receive(t, if |s.pipe.queue| == 1 then Drain(read) else NoDrain), Release(t, Unlock)];
      && Runs(s, es)
      && After(s, es) == Put(s, t, Freeing(m, 0)).(pipe := AfterReceive(s.pipe, read))
  {
    var m := s.pipe.queue[0];
    var a := if |s.pipe.queue| == 1 then Drain(read) else NoDrain;
    var s1 := FireReceive(s, t, LockToReceive);
    var s2 := FireReceive(s1, t, Remove(m));
    var s3 := FireReceive(s2, t, a);
    var s4 := FireRelease(s3, t, Unlock);
    RunFour(s, Receive(t, LockToReceive), Receive(t, Remove(m)), Receive(t, a), Release(t, Unlock));
    assert s4.threads == s.threads[t := s.threads[t].(phase := Freeing(m, 0))];
  }

  // ---------------------------------------------------------------------
  // Runs that go wrong
  // ---------------------------------------------------------------------

  /** A post whose write fails. */
  function FailedPost(m: Msg): seq<Event> {
    [Post(0, Begin(m)), Post(0, Lock), Post(0, Notify(false)), Post(0, Link(m)), Release(0, Unlock)]
  }

  lemma RunMore(s: State, e: Event, es: seq<Event>)
    requires Enabled(s, e) && Runs(Fire(s, e), es)
    ensures Runs(s, [e] + es) && After(s, [e] + es) == After(Fire(s, e), es)
  {
    assert ([e] + es)[1..] == es;
  }

  /** The wake-up byte is lost: the mutex is free and a message waits, with nothing in
      the pipe. */
  lemma LostWakeUp(m: Msg)
    requires m.sabs == []
    ensures Runs(Start(1), FailedPost(m))
    ensures After(Start(1), FailedPost(m)) == Start(1).(pipe := View([m], 0))
  {
    var s := Fire(Start(1), Post(0, Begin(m)));
    PostSection(s, 0, m, false);
    var es := [Post(0, Lock), Post(0, Notify(false)), Post(0, Link(m)), Release(0, Unlock)];
    RunMore(Start(1), Post(0, Begin(m)), es);
    assert FailedPost(m) == [Post(0, Begin(m))] + es;
    assert After(s, es).threads == Start(1).threads;
  }

  /** The first steps of receiving after that. */
  function FailedReceive(m: Msg): seq<Event> {
    FailedPost(m) + [Receive(0, LockToReceive), Receive(0, Remove(m))]
  }

  /** The state after the first event. */
  lemma FirstOf(s: State, es: seq<Event>, fs: seq<Event>) returns (s1: State)
    requires Runs(s, es) && es != []
    ensures Runs(s1, es[1..]) && After(s, es) == After(s1, es[1..])
    ensures Runs(s1, es[1..] + fs) ==> Runs(s, es + fs) && After(s, es + fs) == After(s1, es[1..] + fs)
  {
    s1 := Fire(s, es[0]);
    assert (es + fs)[0] == es[0] && (es + fs)[1..] == es[1..] + fs;
  }

  lemma {:induction false} RunThen(s: State, es: seq<Event>, fs: seq<Event>)
    requires Runs(s, es) && Runs(After(s, es), fs)
    ensures Runs(s, es + fs) && After(s, es + fs) == After(After(s, es), fs)
    decreases |es|
  {
    if es == [] {
      assert es + fs == fs;
    } else {
      var s1 := FirstOf(s, es, fs);
      RunThen(s1, es[1..], fs);
    }
  }

  lemma RunTwo(s: State, a: Event, b: Event)
    requires Enabled(s, a) && Enabled(Fire(s, a), b)
    ensures Runs(s, [a, b]) && After(s, [a, b]) == Fire(Fire(s, a), b)
  {
    var s2 := Fire(Fire(s, a), b);
    assert Runs(s2, []) && After(s2, []) == s2;
    RunMore(Fire(s, a), b, []);
    RunMore(s, a, [b]);
    assert [b] + [] == [b] && [a] + [b] == [a, b];
  }

  /** Should the receiver look nevertheless, it has the mutex and is held up on its
      read: its only step is a read that fails. */
  lemma HeldUp(m: Msg)
    requires m.sabs == []
    ensures Runs(Start(1), FailedReceive(m))
    ensures var s := After(Start(1), FailedReceive(m));
      s.lock == Some(0) && s.pipe == View([], 0) && forall e :: Enabled(s, e) ==> !Onward(e, 0)
  {
    LostWakeUp(m);
    var s := After(Start(1), FailedPost(m));
    var rest := [Receive(0, LockToReceive), Receive(0, Remove(m))];
    RunTwo(s, rest[0], rest[1]);
    RunThen(Start(1), FailedPost(m), rest);
  }

  /** A post that wakes the receiver, whose read then fails. */
  function FailedRead(m: Msg): seq<Event> {
    [Post(0, Begin(m)), Post(0, Lock), Post(0, Notify(true)), Post(0, Link(m)), Release(0, Unlock)]
    + [Receive(0, LockToReceive), Receive(0, Remove(m)), Receive(0, Drain(false)), Release(0, Unlock)]
  }

  /** The byte stays behind: the mutex is free and the queue empty, with a byte in the
      pipe. */
  lemma StaleWakeUp(m: Msg)
    requires m.sabs == []
    ensures Runs(Start(1), FailedRead(m))
    ensures var s := After(Start(1), FailedRead(m)); s.lock == None && s.pipe == View([], 1)
  {
    var s := Fire(Start(1), Post(0, Begin(m)));
    PostSection(s, 0, m, true);
    var es := [Post(0, Lock), Post(0, Notify(true)), Post(0, Link(m)), Release(0, Unlock)];
    var fs := [Receive(0, LockToReceive), Receive(0, Remove(m)), Receive(0, Drain(false)), Release(0, Unlock)];
    ReceiveSection(After(s, es), 0, false);
    RunThen(s, es, fs);
    RunMore(Start(1), Post(0, Begin(m)), es + fs);
    assert FailedRead(m) == [Post(0, Begin(m))] + (es + fs);
  }
}
