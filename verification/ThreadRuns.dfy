/**
 What the workers of the pool of src/threads.c do from one end to the other: how one request
 is served, when a worker leaves, and what pays for every wake-up and every thread.
 */
module ThreadRuns {
  import opened Options
  import opened HandleList
  import opened RequestRing
  import opened ThreadPool

  ghost predicate RingOk<R>(p: Pool<R>) { WellFormed(p.ring) && p.queued == Contents(p.ring) }

  /** A step that is not enabled does nothing. */
  function Next<R(==)>(p: Pool<R>, step: Step<R>): Pool<R> {
    if Enabled(p, step) && p.ring.head < |p.ring.slots| && p.ring.tail < |p.ring.slots| then Apply(p, step) else p
  }

  function Then<R(==)>(p: Pool<R>, steps: seq<Step<R>>): Pool<R>
    decreases |steps|
  {
    if steps == [] then p else Then(Next(p, steps[0]), steps[1..])
  }

  lemma ThenCons<R>(p: Pool<R>, step: Step<R>, rest: seq<Step<R>>)
    ensures Then(p, [step] + rest) == Then(Next(p, step), rest)
  {
    assert ([step] + rest)[1..] == rest;
  }

  lemma ExecNext<R(!new)>(maxThreads: nat, spawners: nat, steps: seq<Step<R>>, step: Step<R>)
    ensures Exec(maxThreads, spawners, steps + [step]) == Next(Exec(maxThreads, spawners, steps), step)
  {
    ExecExtends(maxThreads, spawners, steps, step);
  }

  /** A schedule that goes on. */
  lemma {:induction false} ExecThen<R(!new)>(maxThreads: nat, spawners: nat, steps: seq<Step<R>>, more: seq<Step<R>>)
    ensures Exec(maxThreads, spawners, steps + more) == Then(Exec(maxThreads, spawners, steps), more)
    decreases |more|
  {
    if more == [] {
      assert steps + more == steps;
    } else {
      var first, rest := steps + [more[0]], more[1..];
      assert steps + more == first + rest;
      ExecNext(maxThreads, spawners, steps, more[0]);
      ExecThen(maxThreads, spawners, first, rest);
    }
  }

  // ---------- one request ----------

  /** From the semaphore token to the loop test. */
  function Round<R>(i: nat): seq<Step<R>> {
    [Wake(i)] + ([Fetch(i)] + ([Begin(i)] + ([Finish(i)] + ([Release(i)] + ([Loop(i)] + [])))))
  }

  ghost predicate CanWake<R>(p: Pool<R>, i: nat) {
    i < |p.workers| && p.workers[i].phase == Waiting && p.sem > 0
  }

  function After<R>(w: Worker<R>): Worker<R> {
    w.(phase := if w.status == Cancelled then Leaving else Waiting)
  }

  lemma Takes<R>(p: Pool<R>, i: nat, r: R)
    requires RingOk(p) && CanWake(p, i) && p.queued != [] && p.queued[0] == Some(r)
    ensures var p' := Next(Next(p, Wake(i)), Fetch(i));
            RingOk(p') && p' == p.(ring := p'.ring, sem := p.sem - 1, queued := p.queued[1..], active := p.active + 1,
                     workers := p.workers[i := p.workers[i].(phase := Dequeued(r))])
  {
    var w := p.workers[i];
    var p1 := Next(p, Wake(i));
    FetchIsFetched(p1, i);
    assert p1.workers[i := w.(phase := Dequeued(r))] == p.workers[i := w.(phase := Dequeued(r))];
  }

  lemma Serves<R>(p: Pool<R>, i: nat, r: R)
    requires RingOk(p) && i < |p.workers| && p.workers[i].phase == Dequeued(r)
    ensures var p' := Next(Next(p, Begin(i)), Finish(i));
            p' == p.(done := p.done + multiset{Some(r)}, workers := p.workers[i := p.workers[i].(phase := Served)])
  {
    var w := p.workers[i];
    var p1 := Next(p, Begin(i));
    assert p1.workers[i := w.(phase := Served)] == p.workers[i := w.(phase := Served)];
  }

  lemma Returns<R>(p: Pool<R>, i: nat)
    requires RingOk(p) && i < |p.workers| && p.workers[i].phase == Served
    ensures var p' := Next(Next(p, Release(i)), Loop(i));
            p' == p.(active := p.active - 1, workers := p.workers[i := After(p.workers[i])])
  {
    var w := p.workers[i];
    var p1 := Next(p, Release(i));
    assert p1.workers[i := After(w)] == p.workers[i := After(w)];
  }

  lemma RoundIs<R>(p: Pool<R>, i: nat)
    ensures Then(p, Round(i)) == Next(Next(Next(Next(Next(Next(p, Wake(i)), Fetch(i)), Begin(i)), Finish(i)), Release(i)), Loop(i))
  {
    var p1 := Next(p, Wake(i));
    var p2 := Next(p1, Fetch(i));
    var p3 := Next(p2, Begin(i));
    var p4 := Next(p3, Finish(i));
    var p5 := Next(p4, Release(i));
    var l: seq<Step<R>> := [Loop(i)] + [];
    ThenCons(p5, Loop(i), []);
    ThenCons(p4, Release(i), l);
    ThenCons(p3, Finish(i), [Release(i)] + l);
    ThenCons(p2, Begin(i), [Finish(i)] + ([Release(i)] + l));
    ThenCons(p1, Fetch(i), [Begin(i)] + ([Finish(i)] + ([Release(i)] + l)));
    ThenCons(p, Wake(i), [Fetch(i)] + ([Begin(i)] + ([Finish(i)] + ([Release(i)] + l))));
  }

  lemma RoundServes<R>(p: Pool<R>, i: nat, r: R)
    requires RingOk(p) && CanWake(p, i) && p.queued != [] && p.queued[0] == Some(r)
    ensures var p' := Then(p, Round(i));
            p' == p.(ring := p'.ring, sem := p.sem - 1, queued := p.queued[1..], done := p.done + multiset{Some(r)},
                     workers := p.workers[i := After(p.workers[i])])
  {
    var w := p.workers[i];
    var p2 := Next(Next(p, Wake(i)), Fetch(i));
    Takes(p, i, r);
    var p4 := Next(Next(p2, Begin(i)), Finish(i));
    Serves(p2, i, r);
    Returns(p4, i);
    RoundIs(p, i);
    assert p2.workers[i := w.(phase := Served)] == p.workers[i := w.(phase := Served)];
    assert p4.workers[i := After(w)] == p.workers[i := After(w)];
  }

  /** After any schedule, a waiting worker that gets a token serves the oldest request and waits
      again, or leaves if it was cancelled; nothing else changes. */
  lemma ServesOldest<R(!new)>(maxThreads: nat, spawners: nat, steps: seq<Step<R>>, i: nat, r: R)
    ensures var p, p' := Exec(maxThreads, spawners, steps), Exec(maxThreads, spawners, steps + Round(i));
            CanWake(p, i) && p.queued != [] && p.queued[0] == Some(r) ==>
              p' == p.(ring := p'.ring, sem := p.sem - 1, queued := p.queued[1..], done := p.done + multiset{Some(r)},
                       workers := p.workers[i := p.workers[i].(
                         phase := if p.workers[i].status == Cancelled then Leaving else Waiting)])
  {
    var p := Exec(maxThreads, spawners, steps);
    ExecThen(maxThreads, spawners, steps, Round(i));
    if CanWake(p, i) && p.queued != [] && p.queued[0] == Some(r) { RoundServes(p, i, r); }
  }

  /** A woken worker that finds no request, or a NULL one, goes straight to its loop test. */
  lemma WakesForNothing<R>(p: Pool<R>, i: nat)
    requires RingOk(p) && CanWake(p, i) && (p.queued == [] || p.queued[0] == None)
    ensures var p' := Next(Next(Next(p, Wake(i)), Fetch(i)), Loop(i));
            var taken := if p.queued == [] then 0 else 1;
            p' == p.(ring := p'.ring, sem := p.sem - 1, queued := p.queued[taken..], active := p.active + taken,
                     skipped := p.skipped + taken, workers := p.workers[i := After(p.workers[i])])
  {
    var w := p.workers[i];
    TakesNone(p, i);
    assert p.workers[i := w.(phase := Looping)][i := After(w)] == p.workers[i := After(w)];
  }

  lemma TakesNone<R>(p: Pool<R>, i: nat)
    requires RingOk(p) && CanWake(p, i) && (p.queued == [] || p.queued[0] == None)
    ensures var p' := Next(Next(p, Wake(i)), Fetch(i));
            var taken := if p.queued == [] then 0 else 1;
            RingOk(p') && p' == p.(ring := p'.ring, sem := p.sem - 1, queued := p.queued[taken..],
                                   active := p.active + taken, skipped := p.skipped + taken,
                                   workers := p.workers[i := p.workers[i].(phase := Looping)])
  {
    var w, p1 := p.workers[i], Next(p, Wake(i));
    FetchIsFetched(p1, i);
    assert p1 == p.(sem := p.sem - 1, workers := p.workers[i := w.(phase := Woken)]);
    assert p1.workers[i := w.(phase := Looping)] == p.workers[i := w.(phase := Looping)];
    if p.queued == [] {
      assert p.queued[0..] == p.queued;
    }
  }

  // ---------- staying and leaving ----------

  /** The steps that can end a worker: the cleaner cancels one, or a wait fails. */
  predicate EndsWorker<R(==)>(p: Pool<R>, step: Step<R>) { step.CancelSet? || step.WaitError? }

  predicate Stays<R>(w: Worker<R>) { w.status == Running && !w.phase.Leaving? && !w.phase.Gone? }

  lemma ChangeStays<R>(p: Pool<R>, step: Step<R>, i: nat)
    requires RingOk(p) && Enabled(p, step) && Changed(p, step) == Some(i) && i < |p.workers|
    requires Stays(p.workers[i]) && !EndsWorker(p, step)
    ensures Apply(p, step).workers == p.workers[i := Apply(p, step).workers[i]] && Stays(Apply(p, step).workers[i])
  {
    if step.Fetch? { FetchIsFetched(p, step.i); }
  }

  lemma StepStays<R(!new)>(p: Pool<R>, step: Step<R>)
    requires Inv(p) && Enabled(p, step) && !EndsWorker(p, step)
    requires forall w | w in p.workers :: Stays(w)
    ensures forall w | w in Apply(p, step).workers :: Stays(w)
  {
    var i := Changed(p, step);
    if i.Some? {
      assert Stays(p.workers[i.value]);
      ChangeStays(p, step, i.value);
    } else {
      CrewStays(p, step);
    }
  }

  lemma CrewStays<R>(p: Pool<R>, step: Step<R>)
    requires RingOk(p) && Enabled(p, step) && Changed(p, step) == None
    requires forall w | w in p.workers :: Stays(w)
    ensures forall w | w in Apply(p, step).workers :: Stays(w)
  {
    var ws := Apply(p, step).workers;
    match step
    case Sweep =>
      forall w | w in ws ensures Stays(w) { RemainingMember(p.workers, w); }
    case SpawnCreate(_) => assert Stays(Worker<R>.Worker(Running, Waiting, false));
    case Enqueue(_, _) => assert ws == p.workers;
    case SpawnTest => assert ws == p.workers;
    case Post => assert ws == p.workers;
    case CancelTest(_) => assert ws == p.workers;
    case CancelSet => assert ws == p.workers;
  }

  /** Workers go on as long as nobody cancels one and no wait fails: none of them leaves. */
  lemma {:induction false} WorkersStay<R(!new)>(maxThreads: nat, spawners: nat, steps: seq<Step<R>>)
    ensures Never(maxThreads, spawners, steps, EndsWorker) ==>
              forall w | w in Exec(maxThreads, spawners, steps).workers ::
                w.status == Running && !w.phase.Leaving? && !w.phase.Gone?
  {
    if steps != [] && Never(maxThreads, spawners, steps, EndsWorker) {
      var before, step := steps[..|steps| - 1], steps[|steps| - 1];
      WorkersStay(maxThreads, spawners, before);
      var p := Exec(maxThreads, spawners, before);
      assert forall w | w in p.workers :: Stays(w);
      if Enabled(p, step) { StepStays(p, step); }
      assert forall w | w in Exec(maxThreads, spawners, steps).workers :: Stays(w);
    }
  }

  lemma {:induction false} RemainingSplit<R>(a: seq<Worker<R>>, b: seq<Worker<R>>)
    ensures Remaining(a + b) == Remaining(a) + Remaining(b)
  {
    if a == [] {
      assert a + b == b;
    } else {
      assert (a + b)[0] == a[0] && (a + b)[1..] == a[1..] + b;
      RemainingSplit(a[1..], b);
      var head := if Swept(a[0]) then [] else [a[0]];
      assert Remaining(a + b) == head + Remaining(a[1..] + b);
      assert Remaining(a) == head + Remaining(a[1..]);
    }
  }

  lemma SweptAway<R>(ws: seq<Worker<R>>, i: nat)
    requires i < |ws| && ws[i].linked && ws[i].status == Exited
    ensures Remaining(ws) == Remaining(ws[..i] + ws[i + 1..])
  {
    var a, w, b := ws[..i], ws[i], ws[i + 1..];
    assert ws == a + ([w] + b);
    RemainingSplit(a, [w] + b);
    RemainingSplit([w], b);
    RemainingSplit(a, b);
  }

  /** The end of a cancelled worker: it tests the loop condition or times out, leaves, and the
      next sweep drops its handle. */
  function Ending<R>(test: Step<R>, i: nat): seq<Step<R>> { [test] + ([Exit(i)] + ([Sweep] + [])) }

  lemma Leaves<R>(p: Pool<R>, test: Step<R>, i: nat)
    requires RingOk(p) && (test == Loop(i) || test == Timeout(i)) && Enabled(p, test)
    requires p.workers[i].status == Cancelled
    ensures Next(Next(p, test), Exit(i)) ==
            p.(workers := p.workers[i := p.workers[i].(status := Exited, phase := Gone)])
  {
    var w := p.workers[i];
    var p1 := Next(p, test);
    assert p1 == p.(workers := p.workers[i := w.(phase := Leaving)]);
    assert p1.workers[i := w.(status := Exited, phase := Gone)] == p.workers[i := w.(status := Exited, phase := Gone)];
  }

  lemma EndingIs<R>(p: Pool<R>, test: Step<R>, i: nat)
    requires RingOk(p) && p.cancelling.None? && (test == Loop(i) || test == Timeout(i)) && Enabled(p, test)
    requires p.workers[i].status == Cancelled && p.workers[i].linked
    ensures Then(p, Ending(test, i)) == p.(workers := Remaining(p.workers[..i] + p.workers[i + 1..]))
  {
    EndingSteps(p, test, i);
    Leaves(p, test, i);
    var ws := p.workers[i := p.workers[i].(status := Exited, phase := Gone)];
    SweptAway(ws, i);
    assert ws[..i] == p.workers[..i] && ws[i + 1..] == p.workers[i + 1..];
    assert Next(p.(workers := ws), Sweep) == p.(workers := Remaining(ws));
  }

  lemma EndingSteps<R>(p: Pool<R>, test: Step<R>, i: nat)
    ensures Then(p, Ending(test, i)) == Next(Next(Next(p, test), Exit(i)), Sweep)
  {
    var p1 := Next(p, test);
    var p2 := Next(p1, Exit(i));
    ThenCons(p, test, [Exit(i)] + ([Sweep] + []));
    ThenCons(p1, Exit(i), [Sweep] + []);
    ThenCons(p2, Sweep, []);
  }

  /** After any schedule, a cancelled worker that gets to its loop test or times out leaves, and
      the sweep after that leaves the pool as if it had not been there. */
  lemma CancelledIsSwept<R(!new)>(maxThreads: nat, spawners: nat, steps: seq<Step<R>>, test: Step<R>, i: nat)
    ensures var p := Exec(maxThreads, spawners, steps);
            && p.cancelling.None? && (test == Loop(i) || test == Timeout(i)) && Enabled(p, test)
            && p.workers[i].status == Cancelled && p.workers[i].linked ==>
              Exec(maxThreads, spawners, steps + Ending(test, i)) ==
              p.(workers := Remaining(p.workers[..i] + p.workers[i + 1..]))
  {
    var p := Exec(maxThreads, spawners, steps);
    ExecThen(maxThreads, spawners, steps, Ending(test, i));
    if p.cancelling.None? && (test == Loop(i) || test == Timeout(i)) && Enabled(p, test) {
      if p.workers[i].status == Cancelled && p.workers[i].linked { EndingIs(p, test, i); }
    }
  }

  // ---------- what pays for tokens and threads ----------

  /** The sum of a weight over the steps that were enabled. */
  ghost function Total<R(!new)>(maxThreads: nat, spawners: nat, steps: seq<Step<R>>, weight: (Pool<R>, Step<R>) -> nat): nat {
    if steps == [] then 0
    else
      var before, step := steps[..|steps| - 1], steps[|steps| - 1];
      var p := Exec(maxThreads, spawners, before);
      Total(maxThreads, spawners, before, weight) + if Enabled(p, step) then weight(p, step) else 0
  }

  function Waking<R(==)>(p: Pool<R>, step: Step<R>): nat { if step.Wake? then 1 else 0 }

  /** An enqueue posts if it stored its request, and so does a cancel. */
  function Posting<R(==)>(p: Pool<R>, step: Step<R>): nat {
    if step.CancelSet? || (step.Enqueue? && p.ring.head < |p.ring.slots| && Accepts(p.ring, step.memory)) then 1 else 0
  }

  function Creating<R(==)>(p: Pool<R>, step: Step<R>): nat { if step == SpawnCreate(true) then 1 else 0 }

  function Linking<R(==)>(p: Pool<R>, step: Step<R>): nat { if step.SpawnLink? then 1 else 0 }

  function ExitedCount<R>(ws: seq<Worker<R>>): nat {
    if ws == [] then 0 else (if ws[0].linked && ws[0].status == Exited then 1 else 0) + ExitedCount(ws[1..])
  }

  function Sweeping<R(==)>(p: Pool<R>, step: Step<R>): nat { if step.Sweep? then ExitedCount(p.workers) else 0 }

  lemma {:induction false} RemainingCounts<R>(ws: seq<Worker<R>>)
    ensures |Remaining(ws)| + ExitedCount(ws) == |ws|
    ensures LinkedCount(Remaining(ws)) + ExitedCount(ws) == LinkedCount(ws)
  {
    if ws != [] {
      RemainingCounts(ws[1..]);
      var rest := Remaining(ws[1..]);
      if Swept(ws[0]) {
        assert Remaining(ws) == rest;
      } else {
        assert Remaining(ws) == [ws[0]] + rest;
        assert ([ws[0]] + rest)[1..] == rest;
      }
    }
  }

  lemma StepTokens<R(!new)>(p: Pool<R>, step: Step<R>)
    requires Inv(p) && Enabled(p, step)
    ensures Apply(p, step).sem + Apply(p, step).owed + Waking(p, step) == p.sem + p.owed + Posting(p, step)
  {
    if step.Enqueue? { EnqueueMeaning(p.ring, step.request, step.memory); }
  }

  /** Every wake-up is paid by one accepted request or one cancel, and what is not spent yet is
      in the semaphore or about to be posted. */
  lemma {:induction false} TokensExact<R(!new)>(maxThreads: nat, spawners: nat, steps: seq<Step<R>>)
    ensures var p := Exec(maxThreads, spawners, steps);
            p.sem + p.owed + Total(maxThreads, spawners, steps, Waking) == Total(maxThreads, spawners, steps, Posting)
  {
    if steps != [] {
      var before, step := steps[..|steps| - 1], steps[|steps| - 1];
      TokensExact(maxThreads, spawners, before);
      var p := Exec(maxThreads, spawners, before);
      if Enabled(p, step) { StepTokens(p, step); }
    }
  }

  lemma ChangeCrew<R>(p: Pool<R>, step: Step<R>, i: nat)
    requires WellFormed(p.ring) && Enabled(p, step) && Changed(p, step) == Some(i) && i < |p.workers|
    ensures |Apply(p, step).workers| == |p.workers|
    ensures LinkedCount(Apply(p, step).workers) == LinkedCount(p.workers) + Linking(p, step)
  {
    var w := Apply(p, step).workers[i];
    assert Apply(p, step).workers == p.workers[i := w];
    CountUpdate(p.workers, i, w);
  }

  lemma StepCrew<R(!new)>(p: Pool<R>, step: Step<R>)
    requires Inv(p) && Enabled(p, step)
    ensures |Apply(p, step).workers| + Sweeping(p, step) == |p.workers| + Creating(p, step)
    ensures LinkedCount(Apply(p, step).workers) + Sweeping(p, step) == LinkedCount(p.workers) + Linking(p, step)
  {
    var i := Changed(p, step);
    if i.Some? {
      assert Sane(p.workers[i.value]);
      ChangeCrew(p, step, i.value);
    } else {
      match step
      case SpawnCreate(_) => CountAppend(p.workers, Worker(Running, Waiting, false), None);
      case Sweep => RemainingCounts(p.workers);
      case Enqueue(_, _) => assert Apply(p, step).workers == p.workers;
      case SpawnTest =>
      case Post =>
      case CancelTest(_) =>
    }
  }

  /** The threads that exist are those created and not swept, and total_threads counts those
      linked and not swept. */
  lemma {:induction false} CrewExact<R(!new)>(maxThreads: nat, spawners: nat, steps: seq<Step<R>>)
    ensures var p := Exec(maxThreads, spawners, steps);
            && |p.workers| + Total(maxThreads, spawners, steps, Sweeping) == Total(maxThreads, spawners, steps, Creating)
            && LinkedCount(p.workers) + Total(maxThreads, spawners, steps, Sweeping) ==
               Total(maxThreads, spawners, steps, Linking)
  {
    if steps != [] {
      var before, step := steps[..|steps| - 1], steps[|steps| - 1];
      CrewExact(maxThreads, spawners, before);
      var p := Exec(maxThreads, spawners, before);
      if Enabled(p, step) { StepCrew(p, step); }
    }
  }
}
