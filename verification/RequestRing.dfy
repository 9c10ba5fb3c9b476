/**
 The request queue of src/threads.c: a ring of 256 * 2^k slots that doubles by a linear copy
 when it is full.
 */
module RequestRing {
  import opened Bits
  import opened Options

  /** The queue fields of THREAD_POOL. A slot holds a request pointer, None being NULL. */
  datatype Ring<R> = Ring(slots: seq<Option<R>>, head: nat, tail: nat)

  const MAX_SIZE := 65536

  /** The size is 256 * 2^k and at most 65536, so that masking works. */
  ghost predicate SizeOk(n: nat) {
    exists k | 8 <= k <= 16 :: n == Pow2(k)
  }

  ghost predicate WellFormed<R>(r: Ring<R>) {
    SizeOk(|r.slots|) && r.head < |r.slots| && r.tail < |r.slots|
  }

  /** The queued requests, oldest first. */
  function Contents<R>(r: Ring<R>): seq<Option<R>>
    requires r.head <= |r.slots| && r.tail <= |r.slots|
  {
    if r.head <= r.tail then r.slots[r.head..r.tail] else r.slots[r.head..] + r.slots[..r.tail]
  }

  function Empty<R>(): (r: Ring<R>)
    ensures WellFormed(r) && Contents(r) == []
  {
    assert Pow2(8) == 256;
    Ring(seq(256, _ => None), 0, 0)
  }

  /** The reset of an empty queue to the front of the ring. */
  function Rewound<R>(r: Ring<R>): Ring<R> {
    if r.head == r.tail && r.head != 0 then r.(head := 0, tail := 0) else r
  }

  predicate Full<R>(r: Ring<R>)
    requires |r.slots| > 0 && r.head <= |r.slots|
  {
    (r.tail + |r.slots| - r.head) % |r.slots| == |r.slots| - 1
  }

  function Store<R>(r: Ring<R>, request: Option<R>): Ring<R>
    requires r.tail < |r.slots|
  {
    r.(slots := r.slots[r.tail := request], tail := BitAnd(r.tail + 1, |r.slots| - 1))
  }

  /** IPStat_request_enqueue; the flag says whether the request was stored. */
  function Enqueue<R>(r: Ring<R>, request: Option<R>, memory: bool): (Ring<R>, bool)
    requires r.head < |r.slots| && r.tail < |r.slots|
  {
    var r := Rewound(r);
    if !Full(r) then
      (Store(r, request), true)
    else if |r.slots| >= MAX_SIZE || !memory then
      (r, false)
    else
      (Store(Doubled(r), request), true)
  }

  /** IPStat_request_dequeue; nothing is taken from an empty queue. */
  function Dequeue<R>(r: Ring<R>): (Ring<R>, Option<Option<R>>)
    requires r.head < |r.slots|
  {
    if r.head == r.tail then (r, None)
    else (r.(head := BitAnd(r.head + 1, |r.slots| - 1)), Some(r.slots[r.head]))
  }

  // ---------- masking is wrap-around ----------

  lemma MaskWraps(size: nat, i: nat)
    requires SizeOk(size) && i < size
    ensures BitAnd(i + 1, size - 1) == (if i + 1 == size then 0 else i + 1)
  {
    var k :| 8 <= k <= 16 && size == Pow2(k);
    AndLowMask(i + 1, k);
    if i + 1 == size {
      ModUnique(i + 1, size, 1, 0);
    } else {
      ModUnique(i + 1, size, 0, i + 1);
    }
  }

  lemma DoubleSizeOk(size: nat)
    requires SizeOk(size) && size < MAX_SIZE
    ensures SizeOk(2 * size)
  {
    var k :| 8 <= k <= 16 && size == Pow2(k);
    assert Pow2(16) == MAX_SIZE by {
      assert Pow2(8) == 256;
      Pow2Adds(8, 8);
    }
    assert 2 * size == Pow2(k + 1);
  }

  /** A ring is full exactly when one slot is left; it has not wrapped only if head is 0. */
  lemma FullMeans<R>(r: Ring<R>)
    requires WellFormed(r)
    ensures Full(r) <==> |Contents(r)| == |r.slots| - 1
    ensures Full(r) ==> if r.head == 0 then r.tail == |r.slots| - 1 else r.tail == r.head - 1
  {
    var n := |r.slots|;
    var d := r.tail + n - r.head;
    if r.head <= r.tail {
      ModUnique(d, n, 1, r.tail - r.head);
    } else {
      ModUnique(d, n, 0, d);
    }
  }

  lemma StoreAppends<R>(r: Ring<R>, request: Option<R>)
    requires WellFormed(r) && !Full(r)
    ensures WellFormed(Store(r, request))
    ensures Contents(Store(r, request)) == Contents(r) + [request]
  {
    FullMeans(r);
    MaskWraps(|r.slots|, r.tail);
  }

  /** The growth step would keep the queue only when the full ring starts at slot 0. */
  predicate WrappedGrowth<R>(r: Ring<R>, memory: bool)
    requires r.head < |r.slots|
  {
    Full(r) && |r.slots| < MAX_SIZE && memory && r.head != 0
  }

  predicate Accepts<R>(r: Ring<R>, memory: bool)
    requires r.head < |r.slots|
  {
    !Full(r) || (|r.slots| < MAX_SIZE && memory)
  }

  /** What an enqueue does in every case: it refuses a request and keeps the queue, or
      appends it, or, when a full ring that has wrapped is doubled, loses the whole queue
      together with the new request. */
  lemma EnqueueMeaning<R>(r: Ring<R>, request: Option<R>, memory: bool)
    requires WellFormed(r)
    ensures var (r', accepted) := Enqueue(r, request, memory);
            && WellFormed(r')
            && accepted == Accepts(r, memory)
            && Contents(r') ==
               if !accepted then Contents(r)
               else if WrappedGrowth(r, memory) then []
               else Contents(r) + [request]
  {
    var r0 := Rewound(r);
    FullMeans(r);
    FullMeans(r0);
    if !Full(r0) {
      StoreAppends(r0, request);
    } else if |r.slots| < MAX_SIZE && memory {
      GrowMeaning(r, request);
    }
  }

  function Doubled<R>(r: Ring<R>): Ring<R> { r.(slots := r.slots + seq(|r.slots|, _ => None)) }

  lemma GrowUnwrapped<R>(r: Ring<R>, request: Option<R>)
    requires WellFormed(r) && Full(r) && |r.slots| < MAX_SIZE && r.head == 0
    ensures WellFormed(Store(Doubled(r), request)) && Contents(Store(Doubled(r), request)) == Contents(r) + [request]
  {
    FullMeans(r);
    DoubleSizeOk(|r.slots|);
    FullMeans(Doubled(r));
    StoreAppends(Doubled(r), request);
    assert Contents(Doubled(r)) == Contents(r);
  }

  lemma GrowWrapped<R>(r: Ring<R>, request: Option<R>)
    requires WellFormed(r) && Full(r) && |r.slots| < MAX_SIZE && r.head != 0
    ensures WellFormed(Store(Doubled(r), request)) && Contents(Store(Doubled(r), request)) == []
  {
    FullMeans(r);
    DoubleSizeOk(|r.slots|);
    MaskWraps(2 * |r.slots|, r.tail);
  }

  /** Doubling a full ring keeps the queue if it starts at slot 0 and empties it otherwise. */
  lemma GrowMeaning<R>(r: Ring<R>, request: Option<R>)
    requires WellFormed(r) && Full(r) && |r.slots| < MAX_SIZE
    ensures var r' := Store(Doubled(r), request);
            WellFormed(r') && Contents(r') == if r.head != 0 then [] else Contents(r) + [request]
  {
    if r.head == 0 { GrowUnwrapped(r, request); } else { GrowWrapped(r, request); }
  }

  /** FIFO append holds for exactly the accepted requests outside a wrapped growth. */
  lemma EnqueueIsFifoIff<R>(r: Ring<R>, request: Option<R>, memory: bool)
    requires WellFormed(r)
    ensures WellFormed(Enqueue(r, request, memory).0)
    ensures Contents(r) + [request] == Contents(Enqueue(r, request, memory).0) <==>
            Accepts(r, memory) && !WrappedGrowth(r, memory)
  {
    EnqueueMeaning(r, request, memory);
    assert |Contents(r) + [request]| == |Contents(r)| + 1;
  }

  lemma DequeueMeaning<R>(r: Ring<R>)
    requires WellFormed(r)
    ensures var (r', taken) := Dequeue(r);
            && WellFormed(r')
            && (Contents(r) == [] <==> taken == None)
            && (taken == None ==> r' == r)
            && (taken.Some? ==> Contents(r) == [taken.value] + Contents(r'))
  {
    MaskWraps(|r.slots|, r.head);
    if r.head != r.tail {
      SlotTaken(r.slots, r.head, r.tail);
    }
  }

  lemma SlotTaken<T>(s: seq<T>, head: nat, tail: nat)
    requires head < |s| && tail < |s| && head != tail
    ensures head < tail ==> s[head..tail] == [s[head]] + s[head + 1..tail]
    ensures head > tail ==> s[head..] + s[..tail] == [s[head]] + (s[head + 1..] + s[..tail])
    ensures head + 1 == |s| ==> s[head..] + s[..tail] == [s[head]] + s[0..tail]
  {}

  // ---------- whole runs ----------

  datatype Op<R> = Put(request: Option<R>, memory: bool) | Take

  /** A run of the queue, with everything that was accepted and handed out, in order. */
  datatype History<R> = History(ring: Ring<R>, accepted: seq<Option<R>>, taken: seq<Option<R>>)

  function Step<R>(h: History<R>, op: Op<R>): History<R>
    requires h.ring.head < |h.ring.slots| && h.ring.tail < |h.ring.slots|
  {
    match op
    case Put(request, memory) =>
      var (ring, accepted) := Enqueue(h.ring, request, memory);
      History(ring, if accepted then h.accepted + [request] else h.accepted, h.taken)
    case Take =>
      var (ring, taken) := Dequeue(h.ring);
      History(ring, h.accepted, if taken.Some? then h.taken + [taken.value] else h.taken)
  }

  lemma StepWellFormed<R>(h: History<R>, op: Op<R>)
    requires WellFormed(h.ring)
    ensures WellFormed(Step(h, op).ring)
  {
    if op.Put? {
      EnqueueMeaning(h.ring, op.request, op.memory);
    } else {
      DequeueMeaning(h.ring);
    }
  }

  ghost function Run<R>(ops: seq<Op<R>>): (h: History<R>)
    ensures WellFormed(h.ring)
  {
    if ops == [] then History(Empty(), [], [])
    else
      var before := Run(ops[..|ops| - 1]);
      StepWellFormed(before, ops[|ops| - 1]);
      Step(before, ops[|ops| - 1])
  }

  /** No operation of the run doubles a wrapped ring. */
  ghost predicate GrowsOnlyAtZero<R>(ops: seq<Op<R>>) {
    forall i | 0 <= i < |ops| && ops[i].Put? :: !WrappedGrowth(Run(ops[..i]).ring, ops[i].memory)
  }

  /** A prefix of a run grows only at zero if the run does. */
  lemma GrowsPrefix<R>(ops: seq<Op<R>>)
    requires ops != []
    ensures var before, op := ops[..|ops| - 1], ops[|ops| - 1];
            GrowsOnlyAtZero(ops) <==>
            GrowsOnlyAtZero(before) && (op.Put? ==> !WrappedGrowth(Run(before).ring, op.memory))
  {
    var before := ops[..|ops| - 1];
    assert forall i | 0 <= i < |before| :: before[..i] == ops[..i] && before[i] == ops[i];
  }

  lemma StepKeepsOrder<R>(h: History<R>, op: Op<R>)
    requires WellFormed(h.ring) && (op.Put? ==> !WrappedGrowth(h.ring, op.memory))
    requires h.taken + Contents(h.ring) == h.accepted
    ensures WellFormed(Step(h, op).ring)
    ensures Step(h, op).taken + Contents(Step(h, op).ring) == Step(h, op).accepted
  {
    var h' := Step(h, op);
    if op.Put? {
      EnqueueMeaning(h.ring, op.request, op.memory);
    } else {
      DequeueMeaning(h.ring);
      if h'.taken != h.taken {
        assert h'.taken == h.taken + [Contents(h.ring)[0]];
      }
    }
  }

  lemma {:induction false} RunKeepsOrder<R>(ops: seq<Op<R>>)
    requires GrowsOnlyAtZero(ops)
    ensures Run(ops).taken + Contents(Run(ops).ring) == Run(ops).accepted
  {
    if ops != [] {
      GrowsPrefix(ops);
      var before, op := ops[..|ops| - 1], ops[|ops| - 1];
      RunKeepsOrder(before);
      StepKeepsOrder(Run(before), op);
    }
  }

  /** What a wrapped growth loses never comes back. */
  lemma {:induction false} RunLoses<R>(ops: seq<Op<R>>)
    ensures |Run(ops).taken| + |Contents(Run(ops).ring)| <= |Run(ops).accepted|
    ensures !GrowsOnlyAtZero(ops) ==> |Run(ops).taken| + |Contents(Run(ops).ring)| < |Run(ops).accepted|
  {
    if ops != [] {
      GrowsPrefix(ops);
      var before, op := ops[..|ops| - 1], ops[|ops| - 1];
      RunLoses(before);
      var h := Run(before);
      if op.Put? {
        EnqueueMeaning(h.ring, op.request, op.memory);
      } else {
        DequeueMeaning(h.ring);
      }
    }
  }

  /** The queue is FIFO over exactly the runs whose growths happen with head at slot 0: what
      was handed out, followed by what is queued, is what was accepted. */
  lemma RunIsFifoIff<R>(ops: seq<Op<R>>)
    ensures Run(ops).taken + Contents(Run(ops).ring) == Run(ops).accepted <==> GrowsOnlyAtZero(ops)
  {
    if GrowsOnlyAtZero(ops) {
      RunKeepsOrder(ops);
    } else {
      RunLoses(ops);
      assert |Run(ops).taken + Contents(Run(ops).ring)| == |Run(ops).taken| + |Contents(Run(ops).ring)|;
    }
  }

  function Fill<R>(request: Option<R>, n: nat): seq<Op<R>> { seq(n, _ => Put(request, true)) }

  lemma {:induction false} FillRun<R>(request: Option<R>, n: nat)
    requires n < 256
    ensures var ring := Run(Fill(request, n)).ring; |ring.slots| == 256 && ring.head == 0 && ring.tail == n
    ensures |Run(Fill(request, n)).accepted| == n && Run(Fill(request, n)).taken == []
  {
    if n > 0 {
      FillRun(request, n - 1);
      assert Fill(request, n)[..n - 1] == Fill(request, n - 1);
      var ring := Run(Fill(request, n - 1)).ring;
      FullMeans(ring);
      MaskWraps(256, ring.tail);
    }
  }

  lemma RunExtends<R>(ops: seq<Op<R>>, op: Op<R>)
    ensures Run(ops + [op]) == Step(Run(ops), op)
  {
    assert (ops + [op])[..|ops|] == ops;
  }

  /** 255 requests, one taken, one more: the ring is full and has wrapped. */
  lemma WrappedFull<R>(request: Option<R>)
    ensures var h := Run(Fill(request, 255) + [Take] + [Put(request, true)]);
            && |h.ring.slots| == 256 && h.ring.head == 1 && h.ring.tail == 0
            && |h.accepted| == 256 && |h.taken| == 1
  {
    var a := Fill(request, 255);
    FillRun(request, 255);
    RunExtends(a, Take);
    MaskWraps(256, 0);
    var r := Run(a + [Take]).ring;
    FullMeans(r);
    RunExtends(a + [Take], Put(request, true));
    MaskWraps(256, 255);
  }

  /** The loss is reachable: 255 requests, one taken, two more, and none of the 256 accepted
      and waiting requests is left in the queue. */
  lemma WrappedGrowthLosesRequests<R>(request: Option<R>)
    ensures var h := Run(Fill(request, 255) + [Take] + [Put(request, true)] + [Put(request, true)]);
            && |h.accepted| == 257 && |h.taken| == 1 && Contents(h.ring) == []
  {
    var c := Fill(request, 255) + [Take] + [Put(request, true)];
    WrappedFull(request);
    RunExtends(c, Put(request, true));
    EnqueueMeaning(Run(c).ring, request, true);
  }

  // ---------- a drained queue ----------

  /** A drained ring starts again at slot 0, wherever it had got to. */
  lemma DrainedRestarts<R>(r: Ring<R>, request: Option<R>, memory: bool)
    requires WellFormed(r) && Contents(r) == []
    ensures var (r', accepted) := Enqueue(r, request, memory);
            accepted && r'.head == 0 && r'.tail == 1 && |r'.slots| == |r.slots| && r'.slots[0] == request
  {
    FullMeans(r);
    FullMeans(Rewound(r));
    MaskWraps(|r.slots|, 0);
  }

  /** From slot 0 the ring grows up to 65535 requests and keeps them all. */
  lemma PutAtZero<R>(r: Ring<R>, request: Option<R>)
    requires WellFormed(r) && r.head == 0 && |Contents(r)| < 65535
    ensures var (r', accepted) := Enqueue(r, request, true);
            accepted && WellFormed(r') && r'.head == 0 && Contents(r') == Contents(r) + [request]
  {
    FullMeans(r);
    EnqueueMeaning(r, request, true);
  }

  lemma BurstStep<R>(h: History<R>, request: Option<R>)
    requires WellFormed(h.ring) && (h.ring.head == 0 || Contents(h.ring) == []) && |Contents(h.ring)| < 65535
    ensures var h' := Step(h, Put(request, true));
            && WellFormed(h'.ring) && h'.ring.head == 0 && Contents(h'.ring) == Contents(h.ring) + [request]
            && h'.accepted == h.accepted + [request] && h'.taken == h.taken
  {
    if h.ring.head == 0 {
      PutAtZero(h.ring, request);
    } else {
      DrainedRestarts(h.ring, request, true);
      EnqueueMeaning(h.ring, request, true);
      FullMeans(h.ring);
    }
  }

  function Puts<R>(requests: seq<Option<R>>): seq<Op<R>> {
    seq(|requests|, i requires 0 <= i < |requests| => Put(requests[i], true))
  }

  ghost function PutAll<R>(h: History<R>, requests: seq<Option<R>>): (h': History<R>)
    requires WellFormed(h.ring)
    ensures WellFormed(h'.ring)
  {
    if requests == [] then h
    else
      var n := |requests| - 1;
      var before := PutAll(h, requests[..n]);
      StepWellFormed(before, Put(requests[n], true));
      Step(before, Put(requests[n], true))
  }

  lemma {:induction false} BurstKept<R>(h: History<R>, burst: seq<Option<R>>)
    requires WellFormed(h.ring) && Contents(h.ring) == [] && |burst| <= 65535
    ensures var h' := PutAll(h, burst);
            && Contents(h'.ring) == burst && h'.accepted == h.accepted + burst && h'.taken == h.taken
            && (burst != [] ==> h'.ring.head == 0)
  {
    if burst != [] {
      var n := |burst| - 1;
      BurstKept(h, burst[..n]);
      BurstStep(PutAll(h, burst[..n]), burst[n]);
      assert burst == burst[..n] + [burst[n]];
    }
  }

  lemma {:induction false} PutsRun<R>(ops: seq<Op<R>>, requests: seq<Option<R>>)
    ensures Run(ops + Puts(requests)) == PutAll(Run(ops), requests)
  {
    if requests == [] {
      assert ops + Puts(requests) == ops;
    } else {
      var n := |requests| - 1;
      var before, op := ops + Puts(requests[..n]), Put(requests[n], true);
      assert ops + Puts(requests) == before + [op];
      PutsRun(ops, requests[..n]);
      RunExtends(before, op);
    }
  }

  /** After any run that leaves the queue empty, a burst of up to 65535 requests is queued as a
      whole, in order. */
  lemma DrainedTakesBurst<R>(ops: seq<Op<R>>, burst: seq<Option<R>>)
    requires Contents(Run(ops).ring) == [] && |burst| <= 65535
    ensures var h, h' := Run(ops), Run(ops + Puts(burst));
            Contents(h'.ring) == burst && h'.accepted == h.accepted + burst && h'.taken == h.taken
  {
    PutsRun(ops, burst);
    BurstKept(Run(ops), burst);
  }

  // ---------- the array ----------

  /** The queue fields of THREAD_POOL, updated in place. */
  class RequestQueue<R> {
    var queue: array<Option<R>>
    var head: nat
    var tail: nat
    var requestCount: nat

    ghost predicate Valid()
      reads this, queue
    {
      WellFormed(View())
    }

    ghost function View(): Ring<R>
      reads this, queue
    {
      Ring(queue[..], head, tail)
    }

    constructor ()
      ensures Valid() && fresh(queue) && View() == Empty() && requestCount == 0
    {
      queue := new Option<R>[256](_ => None);
      head, tail, requestCount := 0, 0, 0;
      new;
      assert View() == Empty();
    }

    method DequeueRequest() returns (request: Option<R>, ghost taken: bool)
      requires Valid()
      modifies this`head
      ensures Valid()
      ensures View() == Dequeue(old(View())).0
      ensures Dequeue(old(View())).1 == if taken then Some(request) else None
      ensures !taken ==> request == None
    {
      DequeueMeaning(View());
      if head == tail {
        return None, false;
      }
      request, taken := queue[head], true;
      head := BitAnd(head + 1, queue.Length - 1);
    }

    /** Doubles the ring by copying its slots linearly. */
    method Grow()
      modifies this`queue
      ensures fresh(queue) && queue[..] == old(queue[..]) + seq(old(queue.Length), _ => None)
    {
      var grown := new Option<R>[2 * queue.Length](_ => None);
      forall i | 0 <= i < queue.Length {
        grown[i] := queue[i];
      }
      queue := grown;
    }

    method StoreRequest(request: Option<R>)
      requires tail < queue.Length
      modifies this`tail, queue
      ensures View() == Store(old(View()), request)
    {
      ghost var before := queue[..];
      queue[tail] := request;
      assert queue[..] == before[tail := request];
      tail := BitAnd(tail + 1, queue.Length - 1);
    }

    method EnqueueRequest(request: Option<R>, memory: bool) returns (accepted: bool)
      requires Valid()
      modifies this, queue
      ensures Valid() && (queue == old(queue) || fresh(queue))
      ensures (View(), accepted) == Enqueue(old(View()), request, memory)
      ensures requestCount == old(requestCount) + 1
    {
      EnqueueMeaning(View(), request, memory);
      requestCount := requestCount + 1;
      if head == tail && head != 0 {
        head, tail := 0, 0;
      }
      var entries := (tail + queue.Length - head) % queue.Length;
      if entries == queue.Length - 1 {
        if queue.Length >= MAX_SIZE || !memory {
          return false;
        }
        Grow();
      }
      StoreRequest(request);
      accepted := true;
    }
  }
}
