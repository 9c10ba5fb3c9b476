/**
 Quota enforcement of ipstat_system_group_limit/main.c: my_autz compares a node's traffic
 with its limit, my_acct adds to the traffic later, and packets pass between the two.
 */
module LimitQuota {
  import opened Options
  import opened GroupLimits

  datatype Packet = Packet(user: nat, group: nat, notSum: bool, len: nat)

  /** find_group_traffic: the first node for the user and the traffic group. */
  function Find(limits: seq<Config>, user: nat, group: nat): (r: Option<nat>)
    ensures r.Some? ==> r.value < |limits| && limits[r.value].user == user && limits[r.value].group == group
    ensures forall i | 0 <= i < |limits| && (r.Some? ==> i < r.value) ::
              limits[i].user != user || limits[i].group != group
  {
    if limits == [] then None
    else if limits[0].user == user && limits[0].group == group then Some(0)
    else
      var rest := Find(limits[1..], user, group);
      assert forall i | 0 < i < |limits| :: limits[i] == limits[1..][i - 1];
      if rest.Some? then Some(rest.value + 1) else None
  }

  /** The nodes' traffic and the packets that were let through and not accounted yet. */
  datatype State = State(traffic: seq<nat>, pending: seq<Packet>)

  datatype Step =
    | Autz(packet: Packet)
    | Acct(i: nat)
    | Rollover(period: nat)

  /** A packet counts for node j if it is charged to it. */
  predicate ChargedTo(limits: seq<Config>, p: Packet, j: nat) {
    !p.notSum && Find(limits, p.user, p.group) == Some(j)
  }

  function PendingCount(limits: seq<Config>, pending: seq<Packet>, j: nat): nat {
    if pending == [] then 0
    else (if ChargedTo(limits, pending[0], j) then 1 else 0) + PendingCount(limits, pending[1..], j)
  }

  function PendingBytes(limits: seq<Config>, pending: seq<Packet>, j: nat): nat {
    if pending == [] then 0
    else (if ChargedTo(limits, pending[0], j) then pending[0].len else 0) + PendingBytes(limits, pending[1..], j)
  }

  /** my_autz for traffic: a packet without a node is let through. */
  predicate Verdict(limits: seq<Config>, s: State, p: Packet)
    requires |s.traffic| == |limits|
  {
    var j := Find(limits, p.user, p.group);
    j.Some? ==> Allows(limits[j.value], s.traffic[j.value])
  }

  // ---------- the verdict and the charge, said without the search ----------

  ghost predicate NoneFor(limits: seq<Config>, user: nat, group: nat) {
    forall j | 0 <= j < |limits| :: limits[j].user != user || limits[j].group != group
  }

  /** Node i is the first one for a user and a traffic group. */
  ghost predicate FirstFor(limits: seq<Config>, i: nat, user: nat, group: nat) {
    && i < |limits| && limits[i].user == user && limits[i].group == group
    && forall j | 0 <= j < i :: limits[j].user != user || limits[j].group != group
  }

  lemma FindMeans(limits: seq<Config>, user: nat, group: nat)
    ensures Find(limits, user, group) == None <==> NoneFor(limits, user, group)
    ensures forall i: nat :: FirstFor(limits, i, user, group) <==> Find(limits, user, group) == Some(i)
  {
    var k := Find(limits, user, group);
    forall i: nat ensures FirstFor(limits, i, user, group) <==> k == Some(i) {
      if FirstFor(limits, i, user, group) {
        assert k.Some? && !(k.value < i) && !(i < k.value);
      }
    }
  }

  /** What a packet may expect: it goes through if no node is meant for it; the first node that
      is refuses it if it is blocked, and else lets it through if it has no limit or its
      traffic is below the limit. */
  ghost predicate Gate(limits: seq<Config>, traffic: seq<nat>, p: Packet, flag: bool)
    requires |traffic| == |limits|
  {
    && (NoneFor(limits, p.user, p.group) ==> flag)
    && forall i: nat | FirstFor(limits, i, p.user, p.group) ::
         && (limits[i].blocked ==> !flag)
         && (!limits[i].blocked && limits[i].limitation == -1 ==> flag)
         && (!limits[i].blocked && 0 <= limits[i].limitation < UNLIMITED ==> (flag <==> traffic[i] < limits[i].limitation))
         && (!limits[i].blocked && !(-1 <= limits[i].limitation < UNLIMITED) ==>  // it wraps around in 64 bits
               (flag <==> Quota(limits[i]) == UNLIMITED || traffic[i] < Quota(limits[i])))
  }

  lemma VerdictMeaning(limits: seq<Config>, s: State, p: Packet)
    requires |s.traffic| == |limits|
    ensures Gate(limits, s.traffic, p, Verdict(limits, s, p))
  {
    FindMeans(limits, p.user, p.group);
  }

  /** A packet adds its length to the counter of the first node that is meant for it, unless it
      is not to be summed, and to no other counter. */
  ghost predicate Charges(limits: seq<Config>, p: Packet, before: seq<nat>, after: seq<nat>) {
    && |before| == |after| == |limits|
    && (p.notSum || NoneFor(limits, p.user, p.group) ==> after == before)
    && forall i: nat | FirstFor(limits, i, p.user, p.group) && !p.notSum :: after == before[i := before[i] + p.len]
  }

  lemma FirstIsOne(limits: seq<Config>, k: nat, user: nat, group: nat)
    requires FirstFor(limits, k, user, group)
    ensures forall i: nat :: FirstFor(limits, i, user, group) <==> i == k
    ensures !NoneFor(limits, user, group)
  {
    forall i: nat | FirstFor(limits, i, user, group) ensures i == k {
      assert !(i < k) && !(k < i);
    }
  }

  lemma ChargesFirst(limits: seq<Config>, k: nat, p: Packet, t: seq<nat>)
    requires FirstFor(limits, k, p.user, p.group) && !p.notSum && |t| == |limits|
    ensures Charges(limits, p, t, t[k := t[k] + p.len])
  {
    FirstIsOne(limits, k, p.user, p.group);
  }

  /** These two determine what my_autz and my_acct do, and so they are the steps below. */
  lemma GateIsVerdict(limits: seq<Config>, traffic: seq<nat>, p: Packet, flag: bool)
    requires |traffic| == |limits| && Gate(limits, traffic, p, flag)
    ensures flag == Verdict(limits, State(traffic, []), p)
  {
    FindMeans(limits, p.user, p.group);
  }

  lemma ChargesIsStep(limits: seq<Config>, p: Packet, before: seq<nat>, after: seq<nat>)
    requires Charges(limits, p, before, after)
    ensures after == Apply(limits, State(before, [p]), Acct(0)).traffic
  {
    FindMeans(limits, p.user, p.group);
    assert [p][..0] + [p][1..] == [];
  }

  /** The load on the system: at most k charged packets of at most m bytes are under way for
      any node. */
  predicate Enabled(limits: seq<Config>, k: nat, m: nat, s: State, step: Step) {
    match step
    case Autz(p) => p.len <= m && forall j | 0 <= j < |limits| && ChargedTo(limits, p, j) ::
                      PendingCount(limits, s.pending, j) < k
    case Acct(i) => i < |s.pending|
    case Rollover(_) => true
  }

  function Apply(limits: seq<Config>, s: State, step: Step): (s': State)
    requires |s.traffic| == |limits| && (step.Acct? ==> step.i < |s.pending|)
    ensures |s'.traffic| == |limits|
  {
    match step
    case Autz(p) =>
      if Verdict(limits, s, p) then s.(pending := s.pending + [p]) else s
    case Acct(i) =>
      var p, rest := s.pending[i], s.pending[..i] + s.pending[i + 1..];
      var j := Find(limits, p.user, p.group);
      if p.notSum || j.None? then s.(pending := rest)
      else State(s.traffic[j.value := s.traffic[j.value] + p.len], rest)
    case Rollover(period) =>
      s.(traffic := seq(|s.traffic|, i requires 0 <= i < |s.traffic| =>
                          if limits[i].period == period then 0 else s.traffic[i]))
  }

  // ---------- the bound ----------

  function Max(a: int, b: int): int { if a > b then a else b }

  function Bound(limit: Config, start: nat, k: nat, m: nat): int {
    Max(start, Quota(limit) - 1 + k * m)
  }

  predicate NodeOk(limits: seq<Config>, start: seq<nat>, k: nat, m: nat, s: State, j: nat)
    requires |s.traffic| == |limits| == |start| && j < |limits|
  {
    var count, bytes := PendingCount(limits, s.pending, j), PendingBytes(limits, s.pending, j);
    && count <= k
    && bytes <= count * m
    && (Quota(limits[j]) != UNLIMITED ==> s.traffic[j] + bytes <= Bound(limits[j], start[j], k, m))
  }

  ghost predicate Inv(limits: seq<Config>, start: seq<nat>, k: nat, m: nat, s: State) {
    && |s.traffic| == |limits| == |start|
    && (forall i | 0 <= i < |s.pending| :: s.pending[i].len <= m)
    && forall j | 0 <= j < |limits| :: NodeOk(limits, start, k, m, s, j)
  }

  lemma {:induction false} PendingSplit(limits: seq<Config>, a: seq<Packet>, b: seq<Packet>, j: nat)
    ensures PendingCount(limits, a + b, j) == PendingCount(limits, a, j) + PendingCount(limits, b, j)
    ensures PendingBytes(limits, a + b, j) == PendingBytes(limits, a, j) + PendingBytes(limits, b, j)
  {
    if a == [] {
      assert a + b == b;
    } else {
      assert (a + b)[1..] == a[1..] + b;
      PendingSplit(limits, a[1..], b, j);
    }
  }

  /** Taking packet i out of the pending ones. */
  lemma PendingWithout(limits: seq<Config>, pending: seq<Packet>, i: nat, j: nat)
    requires i < |pending|
    ensures var rest, one := pending[..i] + pending[i + 1..], ChargedTo(limits, pending[i], j);
            && PendingCount(limits, pending, j) == PendingCount(limits, rest, j) + (if one then 1 else 0)
            && PendingBytes(limits, pending, j) == PendingBytes(limits, rest, j) + (if one then pending[i].len else 0)
  {
    var a, x, b := pending[..i], [pending[i]], pending[i + 1..];
    assert pending == a + (x + b);
    PendingSplit(limits, a, x + b, j);
    PendingSplit(limits, x, b, j);
    PendingSplit(limits, a, b, j);
  }

  lemma {:induction false} PendingBound(limits: seq<Config>, pending: seq<Packet>, m: nat, j: nat)
    requires forall i | 0 <= i < |pending| :: pending[i].len <= m
    ensures PendingBytes(limits, pending, j) <= PendingCount(limits, pending, j) * m
  {
    if pending != [] {
      PendingBound(limits, pending[1..], m, j);
      var n := PendingCount(limits, pending[1..], j);
      assert (n + 1) * m == n * m + m;
    }
  }

  lemma AutzKeepsNode(limits: seq<Config>, start: seq<nat>, k: nat, m: nat, s: State, p: Packet, j: nat)
    requires Inv(limits, start, k, m, s) && Enabled(limits, k, m, s, Autz(p)) && j < |limits|
    requires Verdict(limits, s, p)
    ensures NodeOk(limits, start, k, m, s.(pending := s.pending + [p]), j)
  {
    assert NodeOk(limits, start, k, m, s, j);
    var pending' := s.pending + [p];
    PendingSplit(limits, s.pending, [p], j);
    PendingBound(limits, pending', m, j);
    if ChargedTo(limits, p, j) {
      assert PendingCount(limits, pending', j) <= k;
      ProductMonotone(PendingCount(limits, pending', j), k, m);
      assert Quota(limits[j]) != UNLIMITED ==> s.traffic[j] <= Quota(limits[j]) - 1;
    } else {
      assert PendingCount(limits, [p], j) == 0 && PendingBytes(limits, [p], j) == 0;
    }
  }

  lemma ProductMonotone(n: nat, k: nat, m: nat)
    requires n <= k
    ensures n * m <= k * m
  {}

  lemma StepKeepsInv(limits: seq<Config>, start: seq<nat>, k: nat, m: nat, s: State, step: Step)
    requires Inv(limits, start, k, m, s) && Enabled(limits, k, m, s, step)
    ensures Inv(limits, start, k, m, Apply(limits, s, step))
  {
    var s' := Apply(limits, s, step);
    forall j | 0 <= j < |limits| ensures NodeOk(limits, start, k, m, s', j) {
      assert NodeOk(limits, start, k, m, s, j);
      match step
      case Autz(p) =>
        if Verdict(limits, s, p) {
          AutzKeepsNode(limits, start, k, m, s, p, j);
        }
      case Acct(i) => AcctKeepsNode(limits, start, k, m, s, i, j);
      case Rollover(_) =>
    }
  }

  lemma AcctKeepsNode(limits: seq<Config>, start: seq<nat>, k: nat, m: nat, s: State, i: nat, j: nat)
    requires Inv(limits, start, k, m, s) && i < |s.pending| && j < |limits|
    ensures NodeOk(limits, start, k, m, Apply(limits, s, Acct(i)), j)
  {
    assert NodeOk(limits, start, k, m, s, j);
    PendingWithout(limits, s.pending, i, j);
    PendingBound(limits, s.pending[..i] + s.pending[i + 1..], m, j);
  }

  /** The traffic of the nodes after an arbitrary interleaving of authorisations, accountings
      and period rollovers; steps beyond the load are not taken. */
  function Exec(limits: seq<Config>, start: seq<nat>, k: nat, m: nat, steps: seq<Step>): (s: State)
    requires |start| == |limits|
    ensures |s.traffic| == |limits|
  {
    if steps == [] then State(start, [])
    else
      var before, step := Exec(limits, start, k, m, steps[..|steps| - 1]), steps[|steps| - 1];
      if Enabled(limits, k, m, before, step) then Apply(limits, before, step) else before
  }

  lemma {:induction false} ExecInv(limits: seq<Config>, start: seq<nat>, k: nat, m: nat, steps: seq<Step>)
    requires |start| == |limits|
    ensures Inv(limits, start, k, m, Exec(limits, start, k, m, steps))
  {
    if steps != [] {
      var before, step := steps[..|steps| - 1], steps[|steps| - 1];
      ExecInv(limits, start, k, m, before);
      if Enabled(limits, k, m, Exec(limits, start, k, m, before), step) {
        StepKeepsInv(limits, start, k, m, Exec(limits, start, k, m, before), step);
      }
    }
  }

  /** A limited node never gets further past its limit than the packets under way can carry. */
  lemma OvershootBound(limits: seq<Config>, start: seq<nat>, k: nat, m: nat, steps: seq<Step>, j: nat)
    requires |start| == |limits| && j < |limits| && Quota(limits[j]) != UNLIMITED
    ensures Exec(limits, start, k, m, steps).traffic[j] <= Max(start[j], Quota(limits[j]) - 1 + k * m)
  {
    ExecInv(limits, start, k, m, steps);
    assert NodeOk(limits, start, k, m, Exec(limits, start, k, m, steps), j);
  }

  // ---------- the bound is reached ----------

  /** A packet that the node of a limit is charged for. */
  function Big(c: Config, m: nat): Packet { Packet(c.user, c.group, false, m) }

  function Waiting(c: Config, n: nat, m: nat): (ps: seq<Packet>)
    ensures |ps| == n
  {
    if n == 0 then [] else Waiting(c, n - 1, m) + [Big(c, m)]
  }

  function Times(n: nat, m: nat): nat { if n == 0 then 0 else Times(n - 1, m) + m }

  lemma {:induction false} TimesIsProduct(n: nat, m: nat)
    ensures Times(n, m) == n * m
  {
    if n > 0 { TimesIsProduct(n - 1, m); }
  }

  lemma {:induction false} CountWaiting(c: Config, n: nat, m: nat)
    ensures PendingCount([c], Waiting(c, n, m), 0) == n
  {
    if n > 0 {
      CountWaiting(c, n - 1, m);
      PendingSplit([c], Waiting(c, n - 1, m), [Big(c, m)], 0);
    }
  }

  lemma ExecExtends(limits: seq<Config>, start: seq<nat>, k: nat, m: nat, steps: seq<Step>, step: Step)
    requires |start| == |limits|
    requires Enabled(limits, k, m, Exec(limits, start, k, m, steps), step)
    ensures Exec(limits, start, k, m, steps + [step]) == Apply(limits, Exec(limits, start, k, m, steps), step)
  {
    assert (steps + [step])[..|steps|] == steps;
  }

  /** n packets are let through while the node is one byte short of its limit. */
  lemma {:induction false} Filled(c: Config, k: nat, m: nat, n: nat) returns (steps: seq<Step>)
    requires 0 < Quota(c) && !c.blocked && n <= k
    ensures Exec([c], [Quota(c) - 1], k, m, steps) == State([Quota(c) - 1], Waiting(c, n, m))
  {
    if n == 0 {
      steps := [];
    } else {
      steps := Filled(c, k, m, n - 1);
      CountWaiting(c, n - 1, m);
      ExecExtends([c], [Quota(c) - 1], k, m, steps, Autz(Big(c, m)));
      steps := steps + [Autz(Big(c, m))];
    }
  }

  lemma AcctLast(c: Config, m: nat, traffic: nat, rest: nat)
    ensures Apply([c], State([traffic], Waiting(c, rest + 1, m)), Acct(rest)) ==
            State([traffic + m], Waiting(c, rest, m))
  {
    var before := Waiting(c, rest + 1, m);
    assert before[rest] == Big(c, m) && before[..rest] + before[rest + 1..] == Waiting(c, rest, m);
  }

  /** After k of them, n are accounted, the last one first. */
  lemma {:induction false} Drained(c: Config, k: nat, m: nat, n: nat) returns (steps: seq<Step>)
    requires 0 < Quota(c) && !c.blocked && n <= k
    ensures Exec([c], [Quota(c) - 1], k, m, steps) == State([Quota(c) - 1 + Times(n, m)], Waiting(c, k - n, m))
  {
    if n == 0 {
      steps := Filled(c, k, m, k);
    } else {
      steps := Drained(c, k, m, n - 1);
      DrainOne(c, k, m, steps, n - 1);
      steps := steps + [Acct(k - n)];
    }
  }

  lemma DrainOne(c: Config, k: nat, m: nat, steps: seq<Step>, n: nat)
    requires 0 < Quota(c) && !c.blocked && n < k
    requires Exec([c], [Quota(c) - 1], k, m, steps) == State([Quota(c) - 1 + Times(n, m)], Waiting(c, k - n, m))
    ensures Exec([c], [Quota(c) - 1], k, m, steps + [Acct(k - n - 1)]) ==
            State([Quota(c) - 1 + Times(n + 1, m)], Waiting(c, k - n - 1, m))
  {
    ExecExtends([c], [Quota(c) - 1], k, m, steps, Acct(k - n - 1));
    AcctLast(c, m, Quota(c) - 1 + Times(n, m), k - n - 1);
  }

  /** For every limit and load the bound of OvershootBound is met exactly by some run. */
  lemma OvershootIsReached(c: Config, k: nat, m: nat) returns (steps: seq<Step>)
    requires 0 < Quota(c) && !c.blocked
    ensures Exec([c], [Quota(c) - 1], k, m, steps).traffic == [Quota(c) - 1 + k * m]
  {
    steps := Drained(c, k, m, k);
    TimesIsProduct(k, m);
  }
}
