/**
 The thread pool of src/threads.c as a step system: producers, workers and the cleaner
 interleave freely, and a step is what one of them does between two points where another
 thread can see the difference (a critical section, a semaphore call, a status write).
 */
module ThreadPool {
  import opened Options
  import opened RequestRing
  import opened HandleList

  /** Where a worker is in IPStat_request_handler. */
  datatype Phase<R> =
    | Waiting             // in sem_timedwait
    | Woken               // holds a semaphore token, has not dequeued yet
    | Dequeued(r: R)      // owns a request, its handle still reads SLEEP
    | Serving(r: R)       // inside request_func
    | Served              // request done, active_threads not decremented yet
    | Looping             // about to test the loop condition
    | Leaving             // out of the loop
    | Gone                // returned

  /** A thread and its handle; a new handle joins the list, and total_threads, after its
      thread was created. */
  datatype Worker<R> = Worker(status: Status, phase: Phase<R>, linked: bool)

  /** The pool, followed by its history: the requests in the ring as a sequence, those
      accepted by enqueue, those served, those lost by doubling a wrapped ring, and how many
      NULLs were taken off the queue. */
  datatype Pool<R(==)> = Pool(
    ring: Ring<R>,
    sem: nat,
    owed: nat,             // threads about to post: after the unlock of an enqueue, after a cancel
    workers: seq<Worker<R>>,
    testing: nat,          // threads that found room in IPStat_spawn_thread, before pthread_create
    cancelling: Option<nat>, // the handle that the cleaner found asleep and is about to cancel
    maxThreads: nat,
    spawners: nat,         // how many threads can be in IPStat_spawn_thread at a time
    active: int,
    queued: seq<Option<R>>,
    accepted: multiset<Option<R>>,
    done: multiset<Option<R>>,
    lost: multiset<Option<R>>,
    skipped: nat,
    wrappedGrowths: nat)

  datatype Step<R> =
    | SpawnTest
    | SpawnCreate(created: bool)
    | SpawnLink(i: nat)
    | Enqueue(request: Option<R>, memory: bool)
    | Post
    | Wake(i: nat)
    | Timeout(i: nat)
    | WaitError(i: nat)
    | Fetch(i: nat)
    | Begin(i: nat)
    | Finish(i: nat)
    | Release(i: nat)
    | Loop(i: nat)
    | Exit(i: nat)
    | CancelTest(i: nat)
    | CancelSet
    | Sweep

  // ---------- the steps ----------

  predicate At<R(==)>(p: Pool<R>, i: nat, phase: Phase<R> -> bool) {
    i < |p.workers| && phase(p.workers[i].phase)
  }

  predicate Enabled<R(==)>(p: Pool<R>, step: Step<R>) {
    match step
    case SpawnTest => p.testing + (|p.workers| - LinkedCount(p.workers)) < p.spawners
    case SpawnCreate(_) => p.testing > 0
    case SpawnLink(i) => i < |p.workers| && !p.workers[i].linked
    case Enqueue(_, _) => true
    case Post => p.owed > 0
    case Wake(i) => At(p, i, (x: Phase<R>) => x.Waiting?) && p.sem > 0
    case Timeout(i) => At(p, i, (x: Phase<R>) => x.Waiting?)
    case WaitError(i) => At(p, i, (x: Phase<R>) => x.Waiting?)
    case Fetch(i) => At(p, i, (x: Phase<R>) => x.Woken?)
    case Begin(i) => At(p, i, (x: Phase<R>) => x.Dequeued?)
    case Finish(i) => At(p, i, (x: Phase<R>) => x.Serving?)
    case Release(i) => At(p, i, (x: Phase<R>) => x.Served?)
    case Loop(i) => At(p, i, (x: Phase<R>) => x.Looping?)
    case Exit(i) => At(p, i, (x: Phase<R>) => x.Leaving?)
    // the cleaner picks RUNNING handles that read SLEEP
    case CancelTest(i) =>
      && p.cancelling.None? && At(p, i, (x: Phase<R>) => !x.Serving?)
      && p.workers[i].linked && p.workers[i].status == Running
    case CancelSet => p.cancelling.Some? && p.cancelling.value < |p.workers|
    case Sweep => p.cancelling.None?
  }

  function Move<R(==)>(p: Pool<R>, i: nat, phase: Phase<R>): Pool<R>
    requires i < |p.workers|
  {
    p.(workers := p.workers[i := p.workers[i].(phase := phase)])
  }

  function AfterLoopTest<R>(w: Worker<R>): Phase<R> {
    if w.status == Cancelled then Leaving else Waiting
  }

  function Apply<R(==)>(p: Pool<R>, step: Step<R>): Pool<R>
    requires Enabled(p, step) && p.ring.head < |p.ring.slots| && p.ring.tail < |p.ring.slots|
  {
    match step
    case SpawnTest =>
      if LinkedCount(p.workers) >= p.maxThreads then p else p.(testing := p.testing + 1)
    case SpawnCreate(created) =>
      p.(testing := p.testing - 1,
         workers := if created then p.workers + [Worker(Running, Waiting, false)] else p.workers)
    case SpawnLink(i) =>
      p.(workers := p.workers[i := p.workers[i].(linked := true)])
    case Enqueue(request, memory) =>
      ApplyEnqueue(p, request, memory)
    case Post =>
      p.(owed := p.owed - 1, sem := p.sem + 1)
    case Wake(i) =>
      Move(p, i, Woken).(sem := p.sem - 1)
    case Timeout(i) =>
      Move(p, i, AfterLoopTest(p.workers[i]))
    case WaitError(i) =>
      Move(p, i, Leaving)
    case Fetch(i) =>
      ApplyFetch(p, i)
    case Begin(i) =>
      Move(p, i, Serving(p.workers[i].phase.r))
    case Finish(i) =>
      Move(p, i, Served).(done := p.done + multiset{Some(p.workers[i].phase.r)})
    case Release(i) =>
      Move(p, i, Looping).(active := p.active - 1)
    case Loop(i) =>
      Move(p, i, AfterLoopTest(p.workers[i]))
    case Exit(i) =>
      p.(workers := p.workers[i := p.workers[i].(status := Exited, phase := Gone)])
    case CancelTest(i) =>
      p.(cancelling := Some(i))
    case CancelSet =>
      var i := p.cancelling.value;
      p.(workers := p.workers[i := p.workers[i].(status := Cancelled)], owed := p.owed + 1, cancelling := None)
    case Sweep =>
      p.(workers := Remaining(p.workers))
  }

  /** The critical section of IPStat_request_enqueue. */
  function ApplyEnqueue<R(==)>(p: Pool<R>, request: Option<R>, memory: bool): Pool<R>
    requires p.ring.head < |p.ring.slots| && p.ring.tail < |p.ring.slots|
  {
    var (ring, accepted) := RequestRing.Enqueue(p.ring, request, memory);
    if !accepted then p.(ring := ring)
    else if WrappedGrowth(p.ring, memory) then
      p.(ring := ring, owed := p.owed + 1, queued := [], accepted := p.accepted + multiset{request},
         lost := p.lost + multiset(p.queued) + multiset{request},
         wrappedGrowths := p.wrappedGrowths + 1)
    else
      p.(ring := ring, owed := p.owed + 1, queued := p.queued + [request],
         accepted := p.accepted + multiset{request})
  }

  /** IPStat_request_dequeue and the test of its result: active_threads is raised for every
      slot taken, but a NULL request sends the worker straight to the loop test. */
  function ApplyFetch<R(==)>(p: Pool<R>, i: nat): Pool<R>
    requires i < |p.workers| && p.ring.head < |p.ring.slots|
  {
    var (ring, taken) := Dequeue(p.ring);
    var queued := if taken.None? || p.queued == [] then p.queued else p.queued[1..];
    match taken
    case None =>
      Move(p, i, Looping)
    case Some(None) =>
      Move(p, i, Looping).(ring := ring, queued := queued, active := p.active + 1, skipped := p.skipped + 1)
    case Some(Some(r)) =>
      Move(p, i, Dequeued(r)).(ring := ring, queued := queued, active := p.active + 1)
  }

  predicate Swept<R>(w: Worker<R>) { w.linked && w.status == Exited }

  function Remaining<R>(ws: seq<Worker<R>>): (r: seq<Worker<R>>)
    ensures |r| <= |ws|
  {
    if ws == [] then []
    else (if Swept(ws[0]) then [] else [ws[0]]) + Remaining(ws[1..])
  }

  lemma {:induction false} RemainingMember<R>(ws: seq<Worker<R>>, w: Worker<R>)
    ensures w in Remaining(ws) <==> w in ws && !Swept(w)
  {
    if ws != [] { RemainingMember(ws[1..], w); }
  }

  // ---------- counting workers ----------

  function LinkedIn<R>(w: Worker<R>): nat { if w.linked then 1 else 0 }

  /** total_threads. */
  function LinkedCount<R>(ws: seq<Worker<R>>): (n: nat)
    ensures n <= |ws|
  {
    if ws == [] then 0 else LinkedIn(ws[0]) + LinkedCount(ws[1..])
  }

  function WokenIn<R>(w: Worker<R>): nat { if w.phase.Woken? then 1 else 0 }

  function BusyIn<R>(w: Worker<R>): nat {
    if w.phase.Dequeued? || w.phase.Serving? || w.phase.Served? then 1 else 0
  }

  /** Whether a worker owns the request, as a number. */
  ghost function HeldIn<R>(w: Worker<R>, q: Option<R>): nat {
    if (w.phase.Dequeued? || w.phase.Serving?) && q == Some(w.phase.r) then 1 else 0
  }

  function WokenCount<R>(ws: seq<Worker<R>>): nat {
    if ws == [] then 0 else WokenIn(ws[0]) + WokenCount(ws[1..])
  }

  /** The workers between taking a request and giving up their place in active_threads. */
  function BusyCount<R>(ws: seq<Worker<R>>): nat {
    if ws == [] then 0 else BusyIn(ws[0]) + BusyCount(ws[1..])
  }

  ghost function Held<R>(ws: seq<Worker<R>>, q: Option<R>): nat {
    if ws == [] then 0 else HeldIn(ws[0], q) + Held(ws[1..], q)
  }

  lemma {:induction false} CountUpdate<R>(ws: seq<Worker<R>>, i: nat, w: Worker<R>)
    requires i < |ws|
    ensures WokenCount(ws[i := w]) + WokenIn(ws[i]) == WokenCount(ws) + WokenIn(w)
    ensures BusyCount(ws[i := w]) + BusyIn(ws[i]) == BusyCount(ws) + BusyIn(w)
    ensures LinkedCount(ws[i := w]) + LinkedIn(ws[i]) == LinkedCount(ws) + LinkedIn(w)
  {
    if i > 0 {
      assert ws[i := w][1..] == ws[1..][i - 1 := w];
      CountUpdate(ws[1..], i - 1, w);
    } else {
      assert ws[i := w][1..] == ws[1..];
    }
  }

  lemma {:induction false} HeldUpdate<R>(ws: seq<Worker<R>>, i: nat, w: Worker<R>, q: Option<R>)
    requires i < |ws|
    ensures Held(ws[i := w], q) + HeldIn(ws[i], q) == Held(ws, q) + HeldIn(w, q)
  {
    if i > 0 {
      assert ws[i := w][1..] == ws[1..][i - 1 := w];
      HeldUpdate(ws[1..], i - 1, w, q);
    } else {
      assert ws[i := w][1..] == ws[1..];
    }
  }

  lemma {:induction false} CountAppend<R>(ws: seq<Worker<R>>, w: Worker<R>, q: Option<R>)
    ensures WokenCount(ws + [w]) == WokenCount(ws) + WokenIn(w)
    ensures BusyCount(ws + [w]) == BusyCount(ws) + BusyIn(w)
    ensures LinkedCount(ws + [w]) == LinkedCount(ws) + LinkedIn(w)
    ensures Held(ws + [w], q) == Held(ws, q) + HeldIn(w, q)
  {
    if ws != [] {
      assert (ws + [w])[1..] == ws[1..] + [w];
      CountAppend(ws[1..], w, q);
    }
  }

  lemma {:induction false} CountRemaining<R>(ws: seq<Worker<R>>, q: Option<R>)
    requires forall w | w in ws :: w.status == Exited ==> w.phase == Gone
    ensures WokenCount(Remaining(ws)) == WokenCount(ws)
    ensures BusyCount(Remaining(ws)) == BusyCount(ws)
    ensures Held(Remaining(ws), q) == Held(ws, q)
  {
    if ws != [] {
      CountRemaining(ws[1..], q);
      assert ws[0] in ws;
      if !Swept(ws[0]) {
        assert Remaining(ws) == [ws[0]] + Remaining(ws[1..]);
      } else {
        assert Remaining(ws) == Remaining(ws[1..]);
      }
    }
  }

  // ---------- the invariant ----------

  /** A queued request always has a token, a woken worker or an owed post coming for it. */
  ghost predicate NoLostWakeup<R>(p: Pool<R>) {
    p.sem + WokenCount(p.workers) + p.owed >= |p.queued|
  }

  /** The places an accepted request can be in: queued, held, served, lost, or, for a NULL,
      taken and skipped. */
  ghost function Places<R>(p: Pool<R>, q: Option<R>): nat {
    multiset(p.queued)[q] + Held(p.workers, q) + p.done[q] + p.lost[q] + (if q == None then p.skipped else 0)
  }

  ghost predicate Conserved<R(!new)>(p: Pool<R>) {
    forall q :: p.accepted[q] == Places(p, q)
  }

  /** Threads that exist or are about to: each spawner can overshoot the maximum by one. */
  predicate CrewBound<R(==)>(p: Pool<R>) {
    |p.workers| + p.testing == 0 || |p.workers| + p.testing <= p.maxThreads + p.spawners - 1
  }

  /** A handle reads EXITED only if its thread is gone, and then no longer RUNNING. */
  predicate Sane<R>(w: Worker<R>) {
    (w.status == Exited ==> w.phase.Gone?) && (w.phase.Gone? ==> w.status != Running)
  }

  ghost predicate Inv<R(!new)>(p: Pool<R>) {
    && WellFormed(p.ring) && p.queued == Contents(p.ring)
    && NoLostWakeup(p)
    && Conserved(p)
    && p.active == BusyCount(p.workers) + p.skipped
    && CrewBound(p)
    && (forall w | w in p.workers :: Sane(w))
    && (p.cancelling.Some? ==> p.cancelling.value < |p.workers|)
    && (p.wrappedGrowths == 0 <==> p.lost == multiset{})
  }

  function Init<R(==)>(maxThreads: nat, spawners: nat): Pool<R> {
    Pool(Empty(), 0, 0, [], 0, None, maxThreads, spawners, 0, [], multiset{}, multiset{}, multiset{}, 0, 0)
  }

  /** An enqueue in terms of the queued sequence. */
  ghost predicate Enqueued<R>(p: Pool<R>, request: Option<R>, p': Pool<R>) {
    || p' == p.(ring := p'.ring)
    || p' == p.(ring := p'.ring, owed := p.owed + 1, queued := p.queued + [request],
                accepted := p.accepted + multiset{request})
    || p' == p.(ring := p'.ring, owed := p.owed + 1, queued := [], accepted := p.accepted + multiset{request},
                lost := p.lost + multiset(p.queued) + multiset{request}, wrappedGrowths := p.wrappedGrowths + 1)
  }

  lemma EnqueueIsEnqueued<R>(p: Pool<R>, request: Option<R>, memory: bool)
    requires WellFormed(p.ring) && p.queued == Contents(p.ring)
    ensures var p' := ApplyEnqueue(p, request, memory);
            Enqueued(p, request, p') && WellFormed(p'.ring) && p'.queued == Contents(p'.ring)
  {
    EnqueueMeaning(p.ring, request, memory);
  }

  lemma EnqueuedPlaces<R>(p: Pool<R>, request: Option<R>, p': Pool<R>, q: Option<R>)
    requires Enqueued(p, request, p')
    ensures Places(p', q) - p'.accepted[q] == Places(p, q) - p.accepted[q]
  {}

  lemma EnqueueKeepsInv<R(!new)>(p: Pool<R>, request: Option<R>, memory: bool)
    requires Inv(p)
    ensures Inv(ApplyEnqueue(p, request, memory))
  {
    EnqueueIsEnqueued(p, request, memory);
    var p' := ApplyEnqueue(p, request, memory);
    forall q ensures p'.accepted[q] == Places(p', q) {
      assert p.accepted[q] == Places(p, q);
      EnqueuedPlaces(p, request, p', q);
    }
  }

  /** A fetch in terms of the queued sequence. */
  ghost predicate Fetched<R>(p: Pool<R>, i: nat, p': Pool<R>)
    requires i < |p.workers|
  {
    if p.queued == [] then p' == Move(p, i, Looping)
    else
      var next := p.(ring := p'.ring, queued := p.queued[1..], active := p.active + 1);
      match p.queued[0]
      case None => p' == Move(next, i, Looping).(skipped := p.skipped + 1)
      case Some(r) => p' == Move(next, i, Dequeued(r))
  }

  lemma FetchIsFetched<R>(p: Pool<R>, i: nat)
    requires WellFormed(p.ring) && p.queued == Contents(p.ring) && i < |p.workers|
    ensures Fetched(p, i, ApplyFetch(p, i))
    ensures WellFormed(ApplyFetch(p, i).ring)
    ensures ApplyFetch(p, i).queued == Contents(ApplyFetch(p, i).ring)
  {
    DequeueMeaning(p.ring);
  }

  lemma FirstTaken<T>(s: seq<T>, q: T)
    requires s != []
    ensures multiset(s)[q] == multiset(s[1..])[q] + if s[0] == q then 1 else 0
  {
    assert s == [s[0]] + s[1..];
  }

  lemma FetchedPlaces<R>(p: Pool<R>, i: nat, p': Pool<R>, q: Option<R>)
    requires i < |p.workers| && p.workers[i].phase.Woken? && Fetched(p, i, p')
    ensures Places(p', q) == Places(p, q)
  {
    HeldUpdate(p.workers, i, p'.workers[i], q);
    if p.queued != [] {
      FirstTaken(p.queued, q);
    }
  }

  lemma FetchedCounts<R>(p: Pool<R>, i: nat, p': Pool<R>)
    requires i < |p.workers| && p.workers[i].phase.Woken? && Fetched(p, i, p') && NoLostWakeup(p)
    requires p.active == BusyCount(p.workers) + p.skipped
    ensures NoLostWakeup(p') && p'.active == BusyCount(p'.workers) + p'.skipped
  {
    CountUpdate(p.workers, i, p'.workers[i]);
  }

  lemma FetchedCrew<R>(p: Pool<R>, i: nat, p': Pool<R>)
    requires i < |p.workers| && p.workers[i].phase.Woken? && Fetched(p, i, p')
    requires CrewBound(p) && forall w | w in p.workers :: Sane(w)
    ensures CrewBound(p') && |p'.workers| == |p.workers| && forall w | w in p'.workers :: Sane(w)
    ensures p'.cancelling == p.cancelling && p'.lost == p.lost && p'.wrappedGrowths == p.wrappedGrowths
    ensures p'.accepted == p.accepted
  {
    assert Sane(p.workers[i]);
  }

  lemma FetchKeepsInv<R(!new)>(p: Pool<R>, i: nat)
    requires Inv(p) && i < |p.workers| && p.workers[i].phase.Woken?
    ensures Inv(ApplyFetch(p, i))
  {
    FetchIsFetched(p, i);
    var p' := ApplyFetch(p, i);
    FetchedCounts(p, i, p');
    FetchedCrew(p, i, p');
    forall q ensures p'.accepted[q] == Places(p', q) {
      assert p.accepted[q] == Places(p, q);
      FetchedPlaces(p, i, p', q);
    }
  }

  /** A step of one worker keeps the invariant if what its phase counts for moves along. */
  lemma WorkerKeepsInv<R(!new)>(p: Pool<R>, i: nat, w: Worker<R>, p': Pool<R>)
    requires Inv(p) && i < |p.workers|
    requires p' == p.(workers := p.workers[i := w], sem := p'.sem, owed := p'.owed, done := p'.done,
                      active := p'.active, cancelling := p'.cancelling)
    requires p'.cancelling.Some? ==> p'.cancelling.value < |p.workers|
    requires p'.sem + p'.owed + WokenIn(w) >= p.sem + p.owed + WokenIn(p.workers[i])
    requires p'.active - BusyIn(w) == p.active - BusyIn(p.workers[i])
    requires forall q :: p'.done[q] + HeldIn(w, q) == p.done[q] + HeldIn(p.workers[i], q)
    requires Sane(w)
    ensures Inv(p')
  {
    CountUpdate(p.workers, i, w);
    forall q ensures p'.accepted[q] == Places(p', q) {
      HeldUpdate(p.workers, i, w, q);
      assert p.accepted[q] == Places(p, q);
      assert p'.done[q] + HeldIn(w, q) == p.done[q] + HeldIn(p.workers[i], q);
    }
  }

  /** Workers may join or leave as long as they hold and count nothing. */
  lemma CrewKeepsInv<R(!new)>(p: Pool<R>, ws: seq<Worker<R>>, testing: nat)
    requires Inv(p) && CrewBound(p.(workers := ws, testing := testing))
    requires p.cancelling.Some? ==> p.cancelling.value < |ws|
    requires WokenCount(ws) == WokenCount(p.workers) && BusyCount(ws) == BusyCount(p.workers)
    requires forall q :: Held(ws, q) == Held(p.workers, q)
    requires forall w | w in ws :: Sane(w)
    ensures Inv(p.(workers := ws, testing := testing))
  {
    forall q ensures p.accepted[q] == Places(p.(workers := ws, testing := testing), q) {
      assert p.accepted[q] == Places(p, q);
      assert Held(ws, q) == Held(p.workers, q);
    }
  }

  lemma SpawnKeepsInv<R(!new)>(p: Pool<R>, created: bool)
    requires Inv(p) && p.testing > 0
    ensures Inv(Apply(p, SpawnCreate(created)))
  {
    var w := Worker<R>.Worker(Running, Waiting, false);
    forall q ensures Held(p.workers + [w], q) == Held(p.workers, q) {
      CountAppend(p.workers, w, q);
    }
    CountAppend(p.workers, w, None);
    CrewKeepsInv(p, if created then p.workers + [w] else p.workers, p.testing - 1);
  }

  lemma TestKeepsInv<R(!new)>(p: Pool<R>)
    requires Inv(p) && Enabled(p, SpawnTest)
    ensures Inv(Apply(p, SpawnTest))
  {
    if LinkedCount(p.workers) < p.maxThreads {
      CrewKeepsInv(p, p.workers, p.testing + 1);
    }
  }

  lemma SweepKeepsInv<R(!new)>(p: Pool<R>)
    requires Inv(p) && Enabled(p, Sweep)
    ensures Inv(Apply(p, Sweep))
  {
    forall q ensures Held(Remaining(p.workers), q) == Held(p.workers, q) {
      CountRemaining(p.workers, q);
    }
    CountRemaining(p.workers, None);
    forall w | w in Remaining(p.workers) ensures Sane(w) { RemainingMember(p.workers, w); }
    CrewKeepsInv(p, Remaining(p.workers), p.testing);
  }

  lemma CancelTestKeepsInv<R(!new)>(p: Pool<R>, i: nat)
    requires Inv(p) && Enabled(p, CancelTest(i))
    ensures Inv(Apply(p, CancelTest(i)))
  {
    assert p.workers[i := p.workers[i]] == p.workers && Sane(p.workers[i]);
    WorkerKeepsInv(p, i, p.workers[i], Apply(p, CancelTest(i)));
  }

  lemma CancelSetKeepsInv<R(!new)>(p: Pool<R>)
    requires Inv(p) && Enabled(p, CancelSet)
    ensures Inv(Apply(p, CancelSet))
  {
    var i := p.cancelling.value;
    assert Sane(p.workers[i]);
    WorkerKeepsInv(p, i, p.workers[i].(status := Cancelled), Apply(p, CancelSet));
  }

  /** The steps of one worker that leave the queue alone. */
  predicate IsWorkerStep<R>(step: Step<R>) {
    || step.SpawnLink? || step.Wake? || step.Timeout? || step.WaitError? || step.Begin? || step.Finish?
    || step.Release? || step.Loop? || step.Exit?
  }

  lemma FinishKeepsInv<R(!new)>(p: Pool<R>, i: nat)
    requires Inv(p) && Enabled(p, Finish(i))
    ensures Inv(Apply(p, Finish(i)))
  {
    var p' := Apply(p, Finish(i));
    assert Sane(p.workers[i]);
    WorkerKeepsInv(p, i, p'.workers[i], p');
  }

  lemma WorkerStepKeepsInv<R(!new)>(p: Pool<R>, step: Step<R>)
    requires Inv(p) && Enabled(p, step) && IsWorkerStep(step)
    ensures Inv(Apply(p, step))
  {
    if step.Finish? {
      FinishKeepsInv(p, step.i);
    } else {
      var p' := Apply(p, step);
      assert p'.done == p.done && Sane(p.workers[step.i]);
      WorkerKeepsInv(p, step.i, p'.workers[step.i], p');
    }
  }

  lemma StepKeepsInv<R(!new)>(p: Pool<R>, step: Step<R>)
    requires Inv(p) && Enabled(p, step)
    ensures Inv(Apply(p, step))
  {
    if IsWorkerStep(step) {
      WorkerStepKeepsInv(p, step);
    } else {
      match step
      case SpawnTest => TestKeepsInv(p);
      case SpawnCreate(created) => SpawnKeepsInv(p, created);
      case CancelTest(i) => CancelTestKeepsInv(p, i);
      case CancelSet => CancelSetKeepsInv(p);
      case Sweep => SweepKeepsInv(p);
      case Enqueue(request, memory) => EnqueueKeepsInv(p, request, memory);
      case Post => PostKeepsInv(p);
      case Fetch(i) => FetchKeepsInv(p, i);
    }
  }

  lemma PostKeepsInv<R(!new)>(p: Pool<R>)
    requires Inv(p) && p.owed > 0
    ensures Inv(Apply(p, Post))
  {
    forall q ensures p.accepted[q] == Places(Apply(p, Post), q) {
      assert p.accepted[q] == Places(p, q);
    }
  }

  // ---------- every interleaving ----------

  /** The pool after an arbitrary schedule; a step that is not enabled does nothing. The
      invariant holds after every one. */
  ghost function Exec<R(!new)>(maxThreads: nat, spawners: nat, steps: seq<Step<R>>): (p: Pool<R>)
    ensures Inv(p) && p.maxThreads == maxThreads && p.spawners == spawners
  {
    if steps == [] then Init(maxThreads, spawners)
    else
      var before, step := Exec(maxThreads, spawners, steps[..|steps| - 1]), steps[|steps| - 1];
      if Enabled(before, step) then
        StepKeepsInv(before, step);
        Apply(before, step)
      else
        before
  }

  lemma ExecExtends<R(!new)>(maxThreads: nat, spawners: nat, steps: seq<Step<R>>, step: Step<R>)
    ensures var p := Exec(maxThreads, spawners, steps);
            Exec(maxThreads, spawners, steps + [step]) == if Enabled(p, step) then Apply(p, step) else p
  {
    assert (steps + [step])[..|steps|] == steps;
  }

  /** No step of the schedule is of a kind that fits the state it is taken in. */
  ghost predicate Never<R(!new)>(maxThreads: nat, spawners: nat, steps: seq<Step<R>>, bad: (Pool<R>, Step<R>) -> bool) {
    steps == [] ||
    (var before, step := steps[..|steps| - 1], steps[|steps| - 1];
     var p := Exec(maxThreads, spawners, before);
     Never(maxThreads, spawners, before, bad) && !(Enabled(p, step) && bad(p, step)))
  }

  /** An enqueue that doubles a wrapped ring. */
  predicate DoublesWrapped<R(==)>(p: Pool<R>, step: Step<R>) {
    step.Enqueue? && p.ring.head < |p.ring.slots| && WrappedGrowth(p.ring, step.memory)
  }

  /** A worker takes a NULL off the queue. */
  predicate TakesNull<R(==)>(p: Pool<R>, step: Step<R>) {
    step.Fetch? && p.queued != [] && p.queued[0] == None
  }

  /** The cleaner cancels a worker that has returned since it was found asleep. */
  predicate CancelsGone<R(==)>(p: Pool<R>, step: Step<R>) {
    step.CancelSet? && p.cancelling.Some? && p.cancelling.value < |p.workers| &&
    p.workers[p.cancelling.value].phase.Gone?
  }

  /** No request is stranded: when nobody is about to post or dequeue, there is a semaphore
      token for each queued request, and so a waiting worker can be woken. */
  lemma QueuedRequestsHaveTokens<R(!new)>(maxThreads: nat, spawners: nat, steps: seq<Step<R>>, i: nat)
    ensures var p := Exec(maxThreads, spawners, steps);
            p.owed == 0 && WokenCount(p.workers) == 0 ==>
              && p.sem >= |Contents(p.ring)|
              && (Contents(p.ring) != [] && i < |p.workers| && p.workers[i].phase.Waiting? ==> Enabled(p, Wake(i)))
  {
    assert NoLostWakeup(Exec(maxThreads, spawners, steps));
  }

  // ---------- lost requests ----------

  /** A request that was accepted once is in exactly one place, as long as no wrapped ring
      has been doubled. */
  lemma ExactlyOnePlace<R(!new)>(maxThreads: nat, spawners: nat, steps: seq<Step<R>>, r: R)
    ensures var p := Exec(maxThreads, spawners, steps);
            var queued, held, done := multiset(Contents(p.ring))[Some(r)], Held(p.workers, Some(r)), p.done[Some(r)];
            Never(maxThreads, spawners, steps, DoublesWrapped) && p.accepted[Some(r)] == 1 ==>
            || (queued == 1 && held == 0 && done == 0)
            || (queued == 0 && held == 1 && done == 0)
            || (queued == 0 && held == 0 && done == 1)
  {
    var p := Exec(maxThreads, spawners, steps);
    WrappedIff(maxThreads, spawners, steps);
    assert p.accepted[Some(r)] == Places(p, Some(r));
  }

  lemma {:induction false} WrappedIff<R(!new)>(maxThreads: nat, spawners: nat, steps: seq<Step<R>>)
    ensures Exec(maxThreads, spawners, steps).wrappedGrowths == 0 <==> Never(maxThreads, spawners, steps, DoublesWrapped)
  {
    if steps != [] {
      var before, step := steps[..|steps| - 1], steps[|steps| - 1];
      WrappedIff(maxThreads, spawners, before);
      var p := Exec(maxThreads, spawners, before);
      if Enabled(p, step) { StepWraps(p, step); }
    }
  }

  lemma StepWraps<R(!new)>(p: Pool<R>, step: Step<R>)
    requires Inv(p) && Enabled(p, step)
    ensures Apply(p, step).wrappedGrowths == p.wrappedGrowths + if DoublesWrapped(p, step) then 1 else 0
  {
    if step.Enqueue? { EnqueueMeaning(p.ring, step.request, step.memory); }
  }

  /** Every accepted request is queued, held, served or a skipped NULL, after exactly the
      schedules that never double a wrapped ring. */
  lemma NothingLostIff<R(!new)>(maxThreads: nat, spawners: nat, steps: seq<Step<R>>)
    ensures var p := Exec(maxThreads, spawners, steps);
            (forall q :: p.accepted[q] ==
              multiset(Contents(p.ring))[q] + Held(p.workers, q) + p.done[q] + if q == None then p.skipped else 0)
            <==> Never(maxThreads, spawners, steps, DoublesWrapped)
  {
    WrappedIff(maxThreads, spawners, steps);
    LostNothing(Exec(maxThreads, spawners, steps));
  }

  lemma LostNothing<R(!new)>(p: Pool<R>)
    requires Inv(p)
    ensures (forall q :: p.accepted[q] ==
              multiset(Contents(p.ring))[q] + Held(p.workers, q) + p.done[q] + if q == None then p.skipped else 0)
            <==> p.wrappedGrowths == 0
  {
    assert forall q :: p.accepted[q] == Places(p, q);
    if p.lost != multiset{} {
      var q :| q in p.lost;
      assert p.accepted[q] == Places(p, q);
    }
  }

  // ---------- active_threads ----------

  lemma StepSkips<R(!new)>(p: Pool<R>, step: Step<R>)
    requires Inv(p) && Enabled(p, step)
    ensures Apply(p, step).skipped == p.skipped + if TakesNull(p, step) then 1 else 0
  {
    if step.Fetch? { FetchIsFetched(p, step.i); }
  }

  lemma {:induction false} SkippedIff<R(!new)>(maxThreads: nat, spawners: nat, steps: seq<Step<R>>)
    ensures Exec(maxThreads, spawners, steps).skipped == 0 <==> Never(maxThreads, spawners, steps, TakesNull)
  {
    if steps != [] {
      var before, step := steps[..|steps| - 1], steps[|steps| - 1];
      SkippedIff(maxThreads, spawners, before);
      var p := Exec(maxThreads, spawners, before);
      if Enabled(p, step) { StepSkips(p, step); }
    }
  }

  /** active_threads counts the busy workers after exactly the schedules in which no NULL is
      taken off the queue, and so whenever none was ever accepted. */
  lemma ActiveThreadsExact<R(!new)>(maxThreads: nat, spawners: nat, steps: seq<Step<R>>)
    ensures var p := Exec(maxThreads, spawners, steps);
            && (p.active == BusyCount(p.workers) <==> Never(maxThreads, spawners, steps, TakesNull))
            && (p.accepted[None] == 0 ==> p.active == BusyCount(p.workers))
  {
    SkippedIff(maxThreads, spawners, steps);
    var p := Exec(maxThreads, spawners, steps);
    assert p.accepted[None] == Places(p, None);
  }

  lemma FetchNull<R(!new)>(p: Pool<R>, i: nat)
    requires Inv(p) && Enabled(p, Fetch(i)) && p.queued != [] && p.queued[0] == None
    ensures var p' := Apply(p, Fetch(i)); p'.active == p.active + 1 && BusyCount(p'.workers) == BusyCount(p.workers)
  {
    FetchIsFetched(p, i);
    CountUpdate(p.workers, i, ApplyFetch(p, i).workers[i]);
  }

  /** Fetching a NULL request raises active_threads for good although nobody is busier. */
  lemma NullRequestLeaks<R(!new)>(maxThreads: nat, spawners: nat, steps: seq<Step<R>>, i: nat)
    ensures var p, p' := Exec(maxThreads, spawners, steps), Exec(maxThreads, spawners, steps + [Fetch(i)]);
            Enabled(p, Fetch(i)) && p.queued != [] && p.queued[0] == None ==>
              p'.active == p.active + 1 && BusyCount(p'.workers) == BusyCount(p.workers)
  {
    var p := Exec(maxThreads, spawners, steps);
    ExecExtends(maxThreads, spawners, steps, Fetch(i));
    if Enabled(p, Fetch(i)) && p.queued != [] && p.queued[0] == None {
      FetchNull(p, i);
    }
  }

  /** Takes one more step. */
  lemma Do<R(!new)>(maxThreads: nat, spawners: nat, steps: seq<Step<R>>, step: Step<R>) returns (steps': seq<Step<R>>)
    requires Enabled(Exec(maxThreads, spawners, steps), step)
    ensures Exec(maxThreads, spawners, steps') == Apply(Exec(maxThreads, spawners, steps), step)
  {
    ExecExtends(maxThreads, spawners, steps, step);
    steps' := steps + [step];
  }

  /** One waiting worker, and nothing has happened yet. */
  ghost function OneWorker<R>(maxThreads: nat, spawners: nat): Pool<R> {
    Init(maxThreads, spawners).(workers := [Worker(Running, Waiting, true)])
  }

  lemma FirstWorker<R(!new)>(maxThreads: nat, spawners: nat) returns (steps: seq<Step<R>>)
    requires maxThreads > 0 && spawners > 0
    ensures Exec(maxThreads, spawners, steps) == OneWorker(maxThreads, spawners)
  {
    steps := [];
    steps := Do(maxThreads, spawners, steps, SpawnTest);
    steps := Do(maxThreads, spawners, steps, SpawnCreate(true));
    steps := Do(maxThreads, spawners, steps, SpawnLink(0));
  }

  lemma NullEnqueued<R(!new)>(p: Pool<R>)
    requires Inv(p) && p.ring == Empty()
    ensures var p' := Apply(p, Enqueue(None, true));
            p'.queued == [None] && p'.owed == p.owed + 1 && p'.workers == p.workers && p'.active == p.active
  {
    FullMeans(p.ring);
    EnqueueMeaning(p.ring, None, true);
  }

  lemma NullPosted<R(!new)>(maxThreads: nat, spawners: nat) returns (steps: seq<Step<R>>)
    requires maxThreads > 0 && spawners > 0
    ensures var p := Exec(maxThreads, spawners, steps);
            p.queued == [None] && p.sem == 1 && p.active == 0 && p.workers == [Worker(Running, Waiting, true)]
  {
    steps := FirstWorker(maxThreads, spawners);
    NullEnqueued(Exec(maxThreads, spawners, steps));
    steps := Do(maxThreads, spawners, steps, Enqueue(None, true));
    steps := Do(maxThreads, spawners, steps, Post);
  }

  /** A reachable leak: a NULL request is enqueued, posted, and taken by the only worker. */
  lemma NullLeakIsReached<R(!new)>(maxThreads: nat, spawners: nat) returns (steps: seq<Step<R>>)
    requires maxThreads > 0 && spawners > 0
    ensures var p := Exec(maxThreads, spawners, steps); p.active == 1 && BusyCount(p.workers) == 0
  {
    steps := NullPosted(maxThreads, spawners);
    steps := Do(maxThreads, spawners, steps, Wake(0));
    var p := Exec(maxThreads, spawners, steps);
    assert p.workers == [Worker(Running, Woken, true)] && BusyCount(p.workers) == 0;
    FetchNull(p, 0);
    steps := Do(maxThreads, spawners, steps, Fetch(0));
  }

  // ---------- the number of threads ----------

  /** With k threads that can spawn at a time, the test against max_threads admits up to
      k - 1 threads too many, and none with a single one. */
  lemma ThreadBound<R(!new)>(maxThreads: nat, spawners: nat, steps: seq<Step<R>>)
    ensures var p := Exec(maxThreads, spawners, steps);
            && LinkedCount(p.workers) <= |p.workers|
            && (p.workers == [] || |p.workers| <= maxThreads + spawners - 1)
            && (spawners == 1 ==> |p.workers| <= maxThreads)
  {
    assert CrewBound(Exec(maxThreads, spawners, steps));
  }

  /** n threads spawned one after the other. */
  lemma {:induction false} Crew<R(!new)>(maxThreads: nat, spawners: nat, n: nat) returns (steps: seq<Step<R>>)
    requires n <= maxThreads && spawners > 0
    ensures var p := Exec(maxThreads, spawners, steps); p.testing == 0 && |p.workers| == LinkedCount(p.workers) == n
  {
    if n == 0 {
      steps := [];
    } else {
      steps := Crew(maxThreads, spawners, n - 1);
      steps := Do(maxThreads, spawners, steps, SpawnTest);
      steps := OneMore(maxThreads, spawners, steps);
      var p := Exec(maxThreads, spawners, steps);
      CountUpdate(p.workers, n - 1, p.workers[n - 1].(linked := true));
      steps := Do(maxThreads, spawners, steps, SpawnLink(n - 1));
    }
  }

  lemma OneMore<R(!new)>(maxThreads: nat, spawners: nat, steps: seq<Step<R>>) returns (steps': seq<Step<R>>)
    requires Exec(maxThreads, spawners, steps).testing > 0
    ensures var p, p' := Exec(maxThreads, spawners, steps), Exec(maxThreads, spawners, steps');
            && p'.testing == p.testing - 1 && p'.workers == p.workers + [Worker(Running, Waiting, false)]
            && LinkedCount(p'.workers) == LinkedCount(p.workers)
  {
    CountAppend(Exec(maxThreads, spawners, steps).workers, Worker(Running, Waiting, false), None);
    steps' := Do(maxThreads, spawners, steps, SpawnCreate(true));
  }

  /** n of k spawners find room for one more thread. */
  lemma {:induction false} Tested<R(!new)>(maxThreads: nat, spawners: nat, n: nat) returns (steps: seq<Step<R>>)
    requires 0 < maxThreads && 0 < spawners && n <= spawners
    ensures var p := Exec(maxThreads, spawners, steps);
            p.testing == n && |p.workers| == LinkedCount(p.workers) == maxThreads - 1
  {
    if n == 0 {
      steps := Crew(maxThreads, spawners, maxThreads - 1);
    } else {
      steps := Tested(maxThreads, spawners, n - 1);
      steps := Do(maxThreads, spawners, steps, SpawnTest);
    }
  }

  /** And n of them create theirs. */
  lemma {:induction false} Created<R(!new)>(maxThreads: nat, spawners: nat, n: nat) returns (steps: seq<Step<R>>)
    requires 0 < maxThreads && 0 < spawners && n <= spawners
    ensures var p := Exec(maxThreads, spawners, steps);
            p.testing == spawners - n && |p.workers| == maxThreads - 1 + n
  {
    if n == 0 {
      steps := Tested(maxThreads, spawners, spawners);
    } else {
      steps := Created(maxThreads, spawners, n - 1);
      steps := OneMore(maxThreads, spawners, steps);
    }
  }

  /** The bound is reached for every maximum and every number of spawners. */
  lemma ThreadBoundIsReached<R(!new)>(maxThreads: nat, spawners: nat) returns (steps: seq<Step<R>>)
    requires 0 < maxThreads && 0 < spawners
    ensures |Exec(maxThreads, spawners, steps).workers| == maxThreads + spawners - 1
  {
    steps := Created(maxThreads, spawners, spawners);
  }

  // ---------- handles that are never swept ----------

  /** The thread is gone, and its handle reads CANCELLED and not EXITED. */
  predicate Stuck<R>(w: Worker<R>) { w.phase.Gone? && w.status == Cancelled }

  ghost predicate HasStuck<R>(p: Pool<R>) {
    exists j | 0 <= j < |p.workers| :: Stuck(p.workers[j])
  }

  lemma UpdateSticks<R>(p: Pool<R>, i: nat, w: Worker<R>, p': Pool<R>)
    requires i < |p.workers| && p'.workers == p.workers[i := w] && (Stuck(p.workers[i]) ==> Stuck(w))
    ensures HasStuck(p') <==> HasStuck(p) || Stuck(w)
  {
    if HasStuck(p) {
      var j :| 0 <= j < |p.workers| && Stuck(p.workers[j]);
      assert Stuck(p'.workers[j]);
    }
    if Stuck(w) {
      assert Stuck(p'.workers[i]);
    }
  }

  lemma CrewSticks<R>(p: Pool<R>, p': Pool<R>)
    requires forall w | Stuck(w) :: w in p'.workers <==> w in p.workers
    ensures HasStuck(p') <==> HasStuck(p)
  {
    if HasStuck(p) {
      var j :| 0 <= j < |p.workers| && Stuck(p.workers[j]);
      var w := p.workers[j];
      assert w in p'.workers;
    }
    if HasStuck(p') {
      var j :| 0 <= j < |p'.workers| && Stuck(p'.workers[j]);
      var w := p'.workers[j];
      assert w in p.workers;
    }
  }

  /** The index of the worker that a step changes, if it changes one. */
  function Changed<R(==)>(p: Pool<R>, step: Step<R>): Option<nat> {
    match step
    case SpawnTest => None
    case SpawnCreate(_) => None
    case Enqueue(_, _) => None
    case Post => None
    case CancelTest(_) => None
    case Sweep => None
    case CancelSet => p.cancelling
    case _ => Some(step.i)
  }

  /** A handle gets stuck only when the cleaner overwrites EXITED, and then it stays. */
  lemma StepSticks<R(!new)>(p: Pool<R>, step: Step<R>)
    requires Inv(p) && Enabled(p, step)
    ensures HasStuck(Apply(p, step)) <==> HasStuck(p) || CancelsGone(p, step)
  {
    var i := Changed(p, step);
    if i.Some? {
      assert Sane(p.workers[i.value]);
      ChangeSticks(p, step, i.value);
    } else {
      forall w | Stuck(w) ensures step.Sweep? ==> (w in Remaining(p.workers) <==> w in p.workers) {
        RemainingMember(p.workers, w);
      }
      CrewSticks(p, Apply(p, step));
    }
  }

  lemma ChangeSticks<R>(p: Pool<R>, step: Step<R>, i: nat)
    requires WellFormed(p.ring) && Enabled(p, step) && Changed(p, step) == Some(i) && Sane(p.workers[i])
    ensures HasStuck(Apply(p, step)) <==> HasStuck(p) || CancelsGone(p, step)
  {
    var p' := Apply(p, step);
    var w := p'.workers[i];
    assert Stuck(w) <==> Stuck(p.workers[i]) || CancelsGone(p, step);
    UpdateSticks(p, i, w, p');
  }

  /** The handles of all returned threads read EXITED, and so are swept, after exactly the
      schedules in which the cleaner never cancels a thread that returned behind its back. */
  lemma SweepableIff<R(!new)>(maxThreads: nat, spawners: nat, steps: seq<Step<R>>)
    ensures (forall w | w in Exec(maxThreads, spawners, steps).workers :: w.phase.Gone? ==> w.status == Exited)
            <==> Never(maxThreads, spawners, steps, CancelsGone)
  {
    StuckIff(maxThreads, spawners, steps);
    var p := Exec(maxThreads, spawners, steps);
    assert forall w | w in p.workers :: Sane(w);
    if HasStuck(p) {
      var j :| 0 <= j < |p.workers| && Stuck(p.workers[j]);
      assert p.workers[j] in p.workers;
    }
  }

  lemma {:induction false} StuckIff<R(!new)>(maxThreads: nat, spawners: nat, steps: seq<Step<R>>)
    ensures HasStuck(Exec(maxThreads, spawners, steps)) <==> !Never(maxThreads, spawners, steps, CancelsGone)
  {
    if steps != [] {
      var before, step := steps[..|steps| - 1], steps[|steps| - 1];
      StuckIff(maxThreads, spawners, before);
      var p := Exec(maxThreads, spawners, before);
      if Enabled(p, step) { StepSticks(p, step); }
    }
  }

  /** A reachable stuck handle: the worker fails to wait between the cleaner's test and its
      write. */
  lemma StuckIsReached<R(!new)>(maxThreads: nat, spawners: nat) returns (steps: seq<Step<R>>)
    requires maxThreads > 0 && spawners > 0
    ensures Exec(maxThreads, spawners, steps).workers == [Worker(Cancelled, Gone, true)]
  {
    steps := FirstWorker(maxThreads, spawners);
    steps := Do(maxThreads, spawners, steps, CancelTest(0));
    steps := Do(maxThreads, spawners, steps, WaitError(0));
    steps := Do(maxThreads, spawners, steps, Exit(0));
    steps := Do(maxThreads, spawners, steps, CancelSet);
  }
}
