/**
 The per-user byte counters of src/func_time.c: accounting adds to cells of a shared tree, a
 sync thread takes each cell, exports it to Log_Temp and restores it on failure, and a
 regrouping transaction moves Log_Temp into Log_Time.
 */
module TimeCache {
  import opened Store

  type Id = nat

  // ---------- the protocol ----------

  /** What the sync thread holds between its lock sections and its database calls. */
  datatype Sync =
    | Idle
    | Taken(id: Id, amount: nat)
    | Counted(id: Id, amount: nat, present: bool)
    | Failed(id: Id, amount: nat)

  /** The counters, the sync thread and the two tables, with what was accounted for each
      user and how often a 32-bit counter of the user ran over. */
  datatype State = State(
    cells: Table<Id>,
    sync: Sync,
    logTemp: Table<Id>,
    logTime: Table<Id>,
    accounted: Table<Id>,
    carries: Table<Id>)

  datatype Step =
    | Acct(id: Id, len: nat)    // time_acct
    | Take(id: Id)              // first lock section of time_traverse_sync
    | Count(ok: bool)           // the query of time_export
    | Export(ok: bool)          // the update or insert of time_export
    | Restore                   // second lock section of time_traverse_sync
    | Group(ok: bool)           // time_group: committed or rolled back

  const START := State(map[], Idle, map[], map[], map[], map[])

  predicate Enabled(s: State, step: Step) {
    match step
    case Acct(_, len) => len < WORD
    case Take(id) => s.sync.Idle? && id in s.cells
    case Count(_) => s.sync.Taken?
    case Export(_) => s.sync.Counted?
    case Restore => s.sync.Failed?
    case Group(_) => true
  }

  function Apply(s: State, step: Step): State
    requires Enabled(s, step)
  {
    match step
    case Acct(id, len) =>
      s.(cells := AddWord(s.cells, id, len), accounted := Plus(s.accounted, id, len),
         carries := Plus(s.carries, id, Carry(At(s.cells, id), len)))
    case Take(id) =>
      s.(sync := Taken(id, s.cells[id]), cells := s.cells[id := 0])
    case Count(ok) =>
      var Taken(id, amount) := s.sync;
      s.(sync := if ok then Counted(id, amount, id in s.logTemp) else Failed(id, amount))
    case Export(ok) =>
      var Counted(id, amount, present) := s.sync;
      if !ok then s.(sync := Failed(id, amount))
      else if present && id !in s.logTemp then s.(sync := Idle)  // an update that finds no row
      else s.(sync := Idle, logTemp := Plus(s.logTemp, id, amount))
    case Restore =>
      var Failed(id, amount) := s.sync;
      s.(sync := Idle, cells := AddWord(s.cells, id, amount),
         carries := Plus(s.carries, id, Carry(At(s.cells, id), amount)))
    case Group(ok) =>
      if !ok then s else s.(logTime := Merged(s.logTime, s.logTemp), logTemp := Zeroed(s.logTemp))
  }

  function InFlight(s: State, id: Id): nat {
    if !s.sync.Idle? && s.sync.id == id then s.sync.amount else 0
  }

  /** All bytes accounted for a user are in one of the four places, up to the carries. */
  predicate Balanced(s: State, id: Id) {
    At(s.accounted, id) ==
    At(s.logTime, id) + At(s.logTemp, id) + InFlight(s, id) + At(s.cells, id) + WORD * At(s.carries, id)
  }

  ghost predicate Inv(s: State) {
    && (forall id :: Balanced(s, id))
    && (forall id | id in s.cells :: s.cells[id] < WORD)
    && (s.sync.Counted? && s.sync.present ==> s.sync.id in s.logTemp)
  }

  /** Adding to a cell keeps the sum of the cell and its carries exact. */
  lemma AddWordExact(cells: Table<Id>, carries: Table<Id>, k: Id, amount: nat, id: Id)
    ensures At(AddWord(cells, k, amount), id) + WORD * At(Plus(carries, k, Carry(At(cells, k), amount)), id) ==
            At(cells, id) + WORD * At(carries, id) + if id == k then amount else 0
  {
    WordSum(At(cells, k), amount);
  }

  lemma StepBalanced(s: State, step: Step, id: Id)
    requires Balanced(s, id) && Enabled(s, step)
    requires s.sync.Counted? && s.sync.present ==> s.sync.id in s.logTemp
    ensures Balanced(Apply(s, step), id)
  {
    match step
    case Acct(k, len) => AddWordExact(s.cells, s.carries, k, len, id);
    case Restore => AddWordExact(s.cells, s.carries, s.sync.id, s.sync.amount, id);
    case Take(_) =>
    case Count(_) =>
    case Export(_) =>
    case Group(_) =>
  }

  lemma StepKeepsInv(s: State, step: Step)
    requires Inv(s) && Enabled(s, step)
    ensures Inv(Apply(s, step))
  {
    forall id ensures Balanced(Apply(s, step), id) {
      StepBalanced(s, step, id);
    }
  }

  /** A step that is not enabled does nothing. */
  function Next(s: State, step: Step): State { if Enabled(s, step) then Apply(s, step) else s }

  /** The state after an arbitrary interleaving. */
  function Exec(steps: seq<Step>): State {
    if steps == [] then START else Next(Exec(steps[..|steps| - 1]), steps[|steps| - 1])
  }

  lemma {:induction false} ExecInv(steps: seq<Step>)
    ensures Inv(Exec(steps))
    ensures forall id :: Balanced(Exec(steps), id)
  {
    if steps != [] {
      var before, step := steps[..|steps| - 1], steps[|steps| - 1];
      ExecInv(before);
      if Enabled(Exec(before), step) { StepKeepsInv(Exec(before), step); }
    }
  }

  lemma ExecExtends(steps: seq<Step>, step: Step)
    ensures Exec(steps + [step]) == Next(Exec(steps), step)
  {
    assert (steps + [step])[..|steps|] == steps;
  }

  /** The step adds to the cell of the user more than 32 bits hold. */
  predicate RunsOver(s: State, step: Step, id: Id) {
    match step
    case Acct(k, len) => k == id && At(s.cells, id) + len >= WORD
    case Restore => s.sync.Failed? && s.sync.id == id && At(s.cells, id) + s.sync.amount >= WORD
    case _ => false
  }

  /** No step of the run does. */
  predicate NeverRunsOver(steps: seq<Step>, id: Id) {
    steps == [] ||
    (var before, step := steps[..|steps| - 1], steps[|steps| - 1];
     NeverRunsOver(before, id) && !(Enabled(Exec(before), step) && RunsOver(Exec(before), step, id)))
  }

  lemma StepCarries(s: State, step: Step, id: Id)
    requires Enabled(s, step)
    ensures At(Apply(s, step).carries, id) >= At(s.carries, id)
    ensures At(Apply(s, step).carries, id) == At(s.carries, id) <==> !RunsOver(s, step, id)
  {}

  lemma {:induction false} CarriesIff(steps: seq<Step>, id: Id)
    ensures At(Exec(steps).carries, id) == 0 <==> NeverRunsOver(steps, id)
  {
    if steps != [] {
      var before, step := steps[..|steps| - 1], steps[|steps| - 1];
      CarriesIff(before, id);
      if Enabled(Exec(before), step) {
        StepCarries(Exec(before), step, id);
      }
    }
  }

  /** The bytes of a user in the two tables, in flight and in the cell. */
  function Stored(s: State, id: Id): nat {
    At(s.logTime, id) + At(s.logTemp, id) + InFlight(s, id) + At(s.cells, id)
  }

  /** No byte is lost or counted twice, through failed exports and regroupings, if and only if
      no step of the run adds more to the 32-bit cell of the user than it holds. That never
      happens below 2^32 accounted bytes. */
  lemma Conservation(steps: seq<Step>, id: Id)
    ensures var s := Exec(steps);
            && (Stored(s, id) == At(s.accounted, id) <==> NeverRunsOver(steps, id))
            && (At(s.accounted, id) < WORD ==> NeverRunsOver(steps, id))
  {
    ExecInv(steps);
    BalancedMeans(Exec(steps), id);
    CarriesIff(steps, id);
  }

  /** What run-overs lose is a multiple of 2^32. */
  lemma LossIsMultiple(steps: seq<Step>, id: Id)
    ensures Stored(Exec(steps), id) <= At(Exec(steps).accounted, id)
    ensures (At(Exec(steps).accounted, id) - Stored(Exec(steps), id)) % WORD == 0
  {
    ExecInv(steps);
    var s := Exec(steps);
    assert Balanced(s, id);
    assert At(s.accounted, id) - Stored(s, id) == WORD * At(s.carries, id);
  }

  lemma BalancedMeans(s: State, id: Id)
    requires Balanced(s, id)
    ensures Stored(s, id) == At(s.accounted, id) <==> At(s.carries, id) == 0
    ensures At(s.accounted, id) < WORD ==> At(s.carries, id) == 0
  {}

  /** Two packets of a user are enough: 2^32 bytes are accounted and none is stored. */
  lemma RunOverLosesBytes(id: Id)
    ensures var s := Exec([Acct(id, WORD - 1), Acct(id, 1)]);
            At(s.accounted, id) == WORD && Stored(s, id) == 0
  {
    ExecExtends([], Acct(id, WORD - 1));
    ExecExtends([Acct(id, WORD - 1)], Acct(id, 1));
    assert [] + [Acct(id, WORD - 1)] == [Acct(id, WORD - 1)];
    assert [Acct(id, WORD - 1)] + [Acct(id, 1)] == [Acct(id, WORD - 1), Acct(id, 1)];
  }

  // ---------- the module's state, updated in place ----------

  /** The steps of one time_traverse_sync with nothing in between. */
  function SyncSteps(id: Id, counted: bool, executed: bool): seq<Step> {
    [Take(id), Count(counted), Export(executed), Restore]
  }

  /** The steps of a whole time_sync. */
  function PassSteps(keys: seq<Id>, outcomes: seq<(bool, bool)>): seq<Step>
    requires |outcomes| == |keys|
  {
    if keys == [] then []
    else
      var n := |keys| - 1;
      PassSteps(keys[..n], outcomes[..n]) + SyncSteps(keys[n], outcomes[n].0, outcomes[n].1)
  }

  /** What they do to a state. */
  ghost predicate Synced(s: State, id: Id, ok: bool, s': State) {
    && id in s.cells && s'.sync == s.sync && s'.logTime == s.logTime
    && s'.cells == (if ok then s.cells[id := 0] else s.cells)
    && s'.logTemp == (if ok then Plus(s.logTemp, id, s.cells[id]) else s.logTemp)
  }

  lemma SyncRun(s: State, id: Id, counted: bool, executed: bool)
    requires s.sync.Idle? && id in s.cells && s.cells[id] < WORD
    ensures var s1 := Next(Next(s, Take(id)), Count(counted));
            Synced(s, id, counted && executed, Next(Next(s1, Export(executed)), Restore))
  {
    assert s.cells[id := 0][id := s.cells[id]] == s.cells;
  }

  lemma ExecSync(steps: seq<Step>, id: Id, counted: bool, executed: bool)
    requires Exec(steps).sync.Idle? && id in Exec(steps).cells && Exec(steps).cells[id] < WORD
    ensures Synced(Exec(steps), id, counted && executed, Exec(steps + SyncSteps(id, counted, executed)))
  {
    var a, b, c, d := Take(id), Count(counted), Export(executed), Step.Restore;
    ExecExtends(steps, a);
    ExecExtends(steps + [a], b);
    ExecExtends(steps + [a] + [b], c);
    ExecExtends(steps + [a] + [b] + [c], d);
    assert steps + SyncSteps(id, counted, executed) == steps + [a] + [b] + [c] + [d];
    SyncRun(Exec(steps), id, counted, executed);
  }

  /** The counters of ag_time, a finite map by AvlMap.BuildIsMap, and the two tables. The
      ghost history ties them to the protocol: the object is always in the state of a run. */
  class TimeStore {
    var cells: Table<Id>
    var logTemp: Table<Id>
    var logTime: Table<Id>
    ghost var history: seq<Step>

    ghost predicate Valid()
      reads this
    {
      var s := Exec(history);
      s.sync == Idle && cells == s.cells && logTemp == s.logTemp && logTime == s.logTime
    }

    constructor ()
      ensures Valid() && history == []
    {
      cells, logTemp, logTime, history := map[], map[], map[], [];
    }

    /** time_acct. */
    method Acct(id: Id, len: nat)
      requires Valid() && len < WORD
      modifies this`cells, this`history
      ensures Valid() && history == old(history) + [Step.Acct(id, len)]
      ensures cells == AddWord(old(cells), id, len)
    {
      ExecExtends(history, Step.Acct(id, len));
      if id in cells {
        cells := cells[id := (cells[id] + len) % WORD];
      } else {
        cells := cells[id := len];
      }
      history := history + [Step.Acct(id, len)];
    }

    /** time_export: counted and executed are the outcomes of its two database calls. */
    method Export(id: Id, amount: nat, counted: bool, executed: bool) returns (ok: bool)
      modifies this`logTemp
      ensures ok == (counted && executed)
      ensures logTemp == if ok then Plus(old(logTemp), id, amount) else old(logTemp)
    {
      if !counted {
        return false;
      }
      var present := id in logTemp;
      if !executed {
        return false;
      }
      logTemp := if present then logTemp[id := logTemp[id] + amount] else logTemp[id := amount];
      ok := true;
    }

    /** time_traverse_sync: the steps Take, Count, Export and Restore in a row, by which a cell
        moves to Log_Temp or stays. */
    method TraverseSync(id: Id, counted: bool, executed: bool)
      requires Valid() && id in cells
      modifies this`cells, this`logTemp, this`history
      ensures Valid() && history == old(history) + SyncSteps(id, counted, executed)
      ensures if counted && executed
              then cells == old(cells)[id := 0] && logTemp == Plus(old(logTemp), id, old(cells)[id])
              else cells == old(cells) && logTemp == old(logTemp)
    {
      ExecInv(history);
      ExecSync(history, id, counted, executed);
      var amount := cells[id];
      cells := cells[id := cells[id] - amount];
      var ok := Export(id, amount, counted, executed);
      if !ok {
        cells := cells[id := (cells[id] + amount) % WORD];
      }
      history := history + SyncSteps(id, counted, executed);
    }

    /** A whole pass of time_sync over the keys in tree order: every cell whose export worked
        is empty and its bytes are in Log_Temp, every other cell and row is as before. */
    method SyncAll(keys: seq<Id>, outcomes: seq<(bool, bool)>)
      requires Valid()
      requires forall i, j | 0 <= i < j < |keys| :: keys[i] != keys[j]
      requires |outcomes| == |keys|
      requires forall i | 0 <= i < |keys| :: keys[i] in cells
      modifies this`cells, this`logTemp, this`history
      ensures Valid() && history == old(history) + PassSteps(keys, outcomes)
      ensures Passed(keys, outcomes, |keys|, old(cells), old(logTemp))
    {
      ghost var c, t := cells, logTemp;
      for n := 0 to |keys|
        invariant Valid() && cells.Keys == c.Keys && Passed(keys, outcomes, n, c, t)
        invariant history == old(history) + PassSteps(keys[..n], outcomes[..n])
      {
        PassExtends(keys, outcomes, n);
        SyncOne(keys, outcomes, n, c, t);
      }
      assert keys[..|keys|] == keys && outcomes[..|keys|] == outcomes;
    }

    /** What a pass has done after n keys to the cells c and the table t. */
    ghost predicate Passed(keys: seq<Id>, outcomes: seq<(bool, bool)>, n: nat, c: Table<Id>, t: Table<Id>)
      requires |outcomes| == |keys| && n <= |keys|
      reads this
    {
      && (forall id :: At(cells, id) + At(logTemp, id) == At(c, id) + At(t, id))
      && (forall i | 0 <= i < n :: At(cells, keys[i]) == if outcomes[i].0 && outcomes[i].1 then 0 else At(c, keys[i]))
      && (forall id | id !in keys[..n] :: At(cells, id) == At(c, id))
    }

    method SyncOne(keys: seq<Id>, outcomes: seq<(bool, bool)>, n: nat, ghost c: Table<Id>, ghost t: Table<Id>)
      requires Valid() && |outcomes| == |keys| && n < |keys| && keys[n] in cells
      requires forall i, j | 0 <= i < j < |keys| :: keys[i] != keys[j]
      requires Passed(keys, outcomes, n, c, t)
      modifies this`cells, this`logTemp, this`history
      ensures Valid() && cells.Keys == old(cells.Keys) && Passed(keys, outcomes, n + 1, c, t)
      ensures history == old(history) + SyncSteps(keys[n], outcomes[n].0, outcomes[n].1)
    {
      TraverseSync(keys[n], outcomes[n].0, outcomes[n].1);
      assert keys[..n + 1] == keys[..n] + [keys[n]];
    }

    /** time_group: committed is the outcome of its transaction. */
    method Group(committed: bool)
      requires Valid()
      modifies this`logTemp, this`logTime, this`history
      ensures Valid() && history == old(history) + [Step.Group(committed)]
      ensures forall id :: At(logTime, id) + At(logTemp, id) == old(At(logTime, id)) + old(At(logTemp, id))
      ensures committed ==> forall id :: At(logTemp, id) == 0
      ensures !committed ==> logTemp == old(logTemp) && logTime == old(logTime)
    {
      ExecExtends(history, Step.Group(committed));
      if committed {
        logTime, logTemp := Merged(logTime, logTemp), Zeroed(logTemp);
      }
      history := history + [Step.Group(committed)];
    }
  }

  lemma PassExtends(keys: seq<Id>, outcomes: seq<(bool, bool)>, n: nat)
    requires |outcomes| == |keys| && n < |keys|
    ensures PassSteps(keys[..n + 1], outcomes[..n + 1]) ==
            PassSteps(keys[..n], outcomes[..n]) + SyncSteps(keys[n], outcomes[n].0, outcomes[n].1)
  {
    assert keys[..n + 1][..n] == keys[..n] && outcomes[..n + 1][..n] == outcomes[..n];
  }
}
