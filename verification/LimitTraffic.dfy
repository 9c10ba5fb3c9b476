/**
 The traffic counters of ipstat_system_group_limit/main.c: my_acct adds to a node's alpha,
 sync_traffic copies alpha out, writes it to the day and month columns and restores it on
 failure, and the rollover tasks close a day or a month for all nodes.
 */
module LimitTraffic {
  import opened Store

  type Id = nat

  /** The books of a limit node: alpha in memory, the amount a running sync holds, the TDay and
      TMonth columns of its row, what they held when the node was inserted, what days and
      months were closed with since, what was accounted since, and what the 32-bit conversion
      of the update statement cut off. */
  datatype Ledger = Ledger(
    alpha: nat,
    inFlight: nat,
    tday: nat,
    tmonth: nat,
    firstDay: nat,
    firstMonth: nat,
    closedDays: nat,
    closedMonths: nat,
    accounted: nat,
    cut: nat)

  function NewLedger(tday: nat, tmonth: nat): Ledger {
    Ledger(0, 0, tday, tmonth, tday, tmonth, 0, 0, 0, 0)
  }

  datatype Sync = Idle | Copied(id: Id) | Failed(id: Id)

  datatype State = State(nodes: map<Id, Ledger>, sync: Sync)

  datatype Step =
    | Insert(id: Id, tday: nat, tmonth: nat)  // insert_limit, and what the row holds then
    | Acct(id: Id, len: nat)   // my_acct
    | Copy(id: Id)             // first lock section of sync_traffic
    | Update(ok: bool)         // the update statement
    | Restore                  // second lock section of sync_traffic
    | CloseDay(ok: bool)       // gl_task_every_day: committed or given up
    | CloseMonth(ok: bool)     // gl_task_every_month

  const START := State(map[], Idle)

  predicate Enabled(s: State, step: Step) {
    match step
    case Insert(id, _, _) => id !in s.nodes
    case Acct(id, _) => id in s.nodes
    case Copy(id) => s.sync.Idle? && id in s.nodes
    case Update(_) => s.sync.Copied? && s.sync.id in s.nodes
    case Restore => s.sync.Failed? && s.sync.id in s.nodes
    case CloseDay(_) => true
    case CloseMonth(_) => true
  }

  /** The update statement adds alpha as it is printed: (int) alpha with %u. */
  function Written(n: Ledger): Ledger {
    var printed := n.inFlight % WORD;
    n.(inFlight := 0, tday := n.tday + printed, tmonth := n.tmonth + printed, cut := n.cut + n.inFlight - printed)
  }

  function Apply(s: State, step: Step): State
    requires Enabled(s, step)
  {
    match step
    case Insert(id, tday, tmonth) =>
      s.(nodes := s.nodes[id := NewLedger(tday, tmonth)])
    case Acct(id, len) =>
      var n := s.nodes[id];
      s.(nodes := s.nodes[id := n.(alpha := n.alpha + len, accounted := n.accounted + len)])
    case Copy(id) =>
      var n := s.nodes[id];
      State(s.nodes[id := n.(alpha := 0, inFlight := n.alpha)], Copied(id))
    case Update(ok) =>
      var id := s.sync.id;
      if !ok then s.(sync := Failed(id))
      else State(s.nodes[id := Written(s.nodes[id])], Idle)
    case Restore =>
      var n := s.nodes[s.sync.id];
      State(s.nodes[s.sync.id := n.(alpha := n.alpha + n.inFlight, inFlight := 0)], Idle)
    case CloseDay(ok) =>
      if !ok then s
      else s.(nodes := map id | id in s.nodes ::
                var n := s.nodes[id]; n.(closedDays := n.closedDays + n.tday, tday := 0))
    case CloseMonth(ok) =>
      if !ok then s
      else s.(nodes := map id | id in s.nodes ::
                var n := s.nodes[id]; n.(closedMonths := n.closedMonths + n.tmonth, tmonth := 0))
  }

  /** Days and months each account for every byte, up to what was cut off. */
  predicate Balanced(n: Ledger) {
    && n.firstDay + n.accounted == n.closedDays + n.tday + n.inFlight + n.alpha + n.cut
    && n.firstMonth + n.accounted == n.closedMonths + n.tmonth + n.inFlight + n.alpha + n.cut
  }

  /** Only the node that the sync thread is at has an amount in flight. */
  ghost predicate Inv(s: State) {
    forall id | id in s.nodes ::
      Balanced(s.nodes[id]) && (s.nodes[id].inFlight != 0 ==> !s.sync.Idle? && s.sync.id == id)
  }

  lemma WrittenBalanced(n: Ledger)
    requires Balanced(n)
    ensures Balanced(Written(n)) && Written(n).inFlight == 0
  {
    var printed := n.inFlight % WORD;
    assert 0 <= printed <= n.inFlight;
  }

  /** Replacing one node by a balanced one keeps the invariant. */
  lemma NodeKeepsInv(s: State, id: Id, n: Ledger, sync: Sync)
    requires Inv(s) && Balanced(n)
    requires n.inFlight != 0 ==> !sync.Idle? && sync.id == id
    requires sync == s.sync || s.sync.Idle? || s.sync.id == id
    ensures Inv(State(s.nodes[id := n], sync))
  {}

  lemma AcctKeepsInv(s: State, id: Id, len: nat)
    requires Inv(s) && Enabled(s, Acct(id, len))
    ensures Inv(Apply(s, Acct(id, len)))
  {
    var n := s.nodes[id];
    NodeKeepsInv(s, id, n.(alpha := n.alpha + len, accounted := n.accounted + len), s.sync);
  }

  lemma CopyKeepsInv(s: State, id: Id)
    requires Inv(s) && Enabled(s, Copy(id))
    ensures Inv(Apply(s, Copy(id)))
  {
    var n := s.nodes[id];
    NodeKeepsInv(s, id, n.(alpha := 0, inFlight := n.alpha), Copied(id));
  }

  lemma RestoreKeepsInv(s: State)
    requires Inv(s) && Enabled(s, Restore)
    ensures Inv(Apply(s, Restore))
  {
    var n := s.nodes[s.sync.id];
    NodeKeepsInv(s, s.sync.id, n.(alpha := n.alpha + n.inFlight, inFlight := 0), Idle);
  }

  lemma UpdateKeepsInv(s: State, ok: bool)
    requires Inv(s) && Enabled(s, Update(ok))
    ensures Inv(Apply(s, Update(ok)))
  {
    WrittenBalanced(s.nodes[s.sync.id]);
  }

  lemma CloseKeepsInv(s: State, ok: bool)
    requires Inv(s)
    ensures Inv(Apply(s, CloseDay(ok))) && Inv(Apply(s, CloseMonth(ok)))
  {}

  lemma StepKeepsInv(s: State, step: Step)
    requires Inv(s) && Enabled(s, step)
    ensures Inv(Apply(s, step))
  {
    match step
    case Insert(id, tday, tmonth) => NodeKeepsInv(s, id, NewLedger(tday, tmonth), s.sync);
    case Acct(id, len) => AcctKeepsInv(s, id, len);
    case Copy(id) => CopyKeepsInv(s, id);
    case Update(ok) => UpdateKeepsInv(s, ok);
    case Restore => RestoreKeepsInv(s);
    case CloseDay(ok) => CloseKeepsInv(s, ok);
    case CloseMonth(ok) => CloseKeepsInv(s, ok);
  }

  /** A step that is not enabled does nothing. */
  function Next(s: State, step: Step): State { if Enabled(s, step) then Apply(s, step) else s }

  /** The state after an arbitrary interleaving. */
  function Exec(steps: seq<Step>): State {
    if steps == [] then START else Next(Exec(steps[..|steps| - 1]), steps[|steps| - 1])
  }

  lemma ExecExtends(steps: seq<Step>, step: Step)
    ensures Exec(steps + [step]) == Next(Exec(steps), step)
  {
    assert (steps + [step])[..|steps|] == steps;
  }

  lemma {:induction false} ExecInv(steps: seq<Step>)
    ensures Inv(Exec(steps))
  {
    if steps != [] {
      var before, step := steps[..|steps| - 1], steps[|steps| - 1];
      ExecInv(before);
      if Enabled(Exec(before), step) { StepKeepsInv(Exec(before), step); }
    }
  }

  /** The step writes an amount for the node that does not fit 32 bits. */
  predicate Overflows(s: State, step: Step, id: Id) {
    step == Update(true) && Enabled(s, step) && s.sync.id == id && s.nodes[id].inFlight >= WORD
  }

  /** No step of the run writes too large an amount for the node. */
  predicate WritesFit(steps: seq<Step>, id: Id) {
    steps == [] ||
    (var before := steps[..|steps| - 1];
     WritesFit(before, id) && !Overflows(Exec(before), steps[|steps| - 1], id))
  }

  lemma StepCut(s: State, step: Step, id: Id)
    requires Enabled(s, step) && id in s.nodes
    ensures id in Apply(s, step).nodes
    ensures Apply(s, step).nodes[id].cut >= s.nodes[id].cut
    ensures Apply(s, step).nodes[id].cut == s.nodes[id].cut <==> !Overflows(s, step, id)
  {}

  lemma {:induction false} NothingCut(steps: seq<Step>, id: Id)
    ensures id in Exec(steps).nodes ==> (Exec(steps).nodes[id].cut == 0 <==> WritesFit(steps, id))
    ensures id !in Exec(steps).nodes ==> WritesFit(steps, id)
  {
    if steps != [] {
      var before, step := steps[..|steps| - 1], steps[|steps| - 1];
      NothingCut(before, id);
      if Enabled(Exec(before), step) && id in Exec(before).nodes {
        StepCut(Exec(before), step, id);
      }
    }
  }

  /** Whatever updates fail and whenever days and months are closed, the day columns and the
      month columns account for every byte of a node since its insertion, if and only if no
      amount written for it had reached 2^32. */
  lemma Conservation(steps: seq<Step>, id: Id)
    requires id in Exec(steps).nodes
    ensures var n := Exec(steps).nodes[id];
            && (n.closedDays + n.tday + n.inFlight + n.alpha == n.firstDay + n.accounted <==> WritesFit(steps, id))
            && (n.closedMonths + n.tmonth + n.inFlight + n.alpha == n.firstMonth + n.accounted <==> WritesFit(steps, id))
  {
    ExecInv(steps);
    NothingCut(steps, id);
  }

  /** Takes one more step. */
  lemma Do(steps: seq<Step>, step: Step) returns (steps': seq<Step>)
    ensures Exec(steps') == Next(Exec(steps), step) && steps' == steps + [step]
  {
    ExecExtends(steps, step);
    steps' := steps + [step];
  }

  /** Two packets of a node between two exports are enough: 2^32 bytes are accounted and the
      row gets none. */
  lemma TruncationLosesBytes(id: Id)
    ensures var s := Exec([Insert(id, 0, 0), Acct(id, WORD - 1), Acct(id, 1), Copy(id), Update(true)]);
            id in s.nodes && s.nodes[id] == Ledger(0, 0, 0, 0, 0, 0, 0, 0, WORD, WORD)
  {
    var steps := Do([], Insert(id, 0, 0));
    steps := Do(steps, Acct(id, WORD - 1));
    steps := Do(steps, Acct(id, 1));
    steps := Do(steps, Copy(id));
    assert Exec(steps).nodes[id].inFlight == WORD;
    steps := Do(steps, Update(true));
    assert steps == [Insert(id, 0, 0), Acct(id, WORD - 1), Acct(id, 1), Copy(id), Update(true)];
  }
}
