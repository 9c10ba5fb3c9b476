/**
 The packet aggregation cache of src/func_ip.c: packets are summed per key in a tree, a sync
 swaps the tree for an empty one and exports its entries with up to four attempts each. One
 thread accounts and one syncs; a step is a lock section or a database exchange of either.
 */
module IpCache {
  import opened Options
  import opened Store

  datatype Key = Key(user: nat, proto: nat, direct: nat, addr: nat, port: nat)

  datatype Packet = Packet(user: nat, proto: nat, direct: nat, src: nat, dest: nat, srcPort: nat, destPort: nat, len: nat)

  /** The remote end of a packet: its source if it is incoming, else its destination. */
  function KeyOf(p: Packet): Key {
    if p.direct == 1 then Key(p.user, p.proto, p.direct, p.src, p.srcPort)
    else Key(p.user, p.proto, p.direct, p.dest, p.destPort)
  }

  // ---------- sums over logs ----------

  type Entry = (Key, nat)

  function BytesFor(log: seq<Packet>, k: Key): nat {
    if log == [] then 0
    else
      var p := log[|log| - 1];
      BytesFor(log[..|log| - 1], k) + if KeyOf(p) == k then p.len else 0
  }

  function PacketsFor(log: seq<Packet>, k: Key): nat {
    if log == [] then 0
    else
      var p := log[|log| - 1];
      PacketsFor(log[..|log| - 1], k) + if KeyOf(p) == k then 1 else 0
  }

  function SumFor(es: seq<Entry>, k: Key): nat {
    if es == [] then 0 else (if es[0].0 == k then es[0].1 else 0) + SumFor(es[1..], k)
  }

  lemma {:induction false} SumSplit(a: seq<Entry>, b: seq<Entry>, k: Key)
    ensures SumFor(a + b, k) == SumFor(a, k) + SumFor(b, k)
  {
    if a == [] {
      assert a + b == b;
    } else {
      assert (a + b)[1..] == a[1..] + b;
      SumSplit(a[1..], b, k);
    }
  }

  // ---------- the protocol ----------

  /** One ip_export: the outcomes of its two database calls, and CURDATE() in each of them. */
  datatype Try = Try(counted: bool, executed: bool, countDay: nat, day: nat)

  predicate Works(t: Try) { t.counted && t.executed }

  /** A row of Log_IP belongs to a key and a day. */
  type Rows = Table<(Key, nat)>

  /** The day ended between the two calls: the update looks for a row that is not there. */
  predicate Misses(rows: Rows, k: Key, t: Try) {
    Works(t) && (k, t.countDay) in rows && (k, t.day) !in rows
  }

  function Exported(rows: Rows, e: Entry, t: Try): Rows {
    if Works(t) && !Misses(rows, e.0, t) then Plus(rows, (e.0, t.day), e.1) else rows
  }

  datatype Outcome = Written | Missed | Dropped

  /** What became of an entry: how many attempts failed, and how and when it ended. */
  datatype Fate = Fate(entry: Entry, failures: nat, outcome: Outcome, day: nat)

  /** What ip_acct knows between its two lock sections: its packet, whether the lookup gave an
      entry, and of which tree. */
  datatype Found = Found(packet: Packet, hit: bool, tree: nat)

  datatype State = State(
    bytes: Table<Key>,       // the current tree
    pkts: Table<Key>,
    tree: nat,               // how many trees were taken away before it
    found: Option<Found>,
    exporting: bool,         // flag_export
    remaining: seq<Entry>,   // the part of the swapped tree that is not exported yet
    failures: nat,           // failed attempts for the first of them
    logIp: Rows,
    log: seq<Packet>,        // the packets added to the current tree
    swapped: seq<Key>,       // the keys of all entries ever swapped out, in export order
    fates: seq<Fate>,
    accounted: Table<Key>,
    carries: Table<Key>,     // how often a counter of the key ran over
    stray: Table<Key>)       // bytes added to an entry that nobody will read again

  datatype Step =
    | Look(packet: Packet)       // first lock section of ip_acct
    | Add                        // second lock section of ip_acct
    | Swap(order: seq<Key>)      // ip_sync up to the traversal, in the tree's key order
    | Attempt(try: Try)          // one ip_export
    | Finish                     // end of ip_sync

  const START := State(map[], map[], 0, None, false, [], 0, map[], [], [], [], map[], map[], map[])

  /** An enumeration of the keys of a table. */
  ghost predicate Enumerates(order: seq<Key>, t: Table<Key>) {
    && (forall i, j | 0 <= i < j < |order| :: order[i] != order[j])
    && (forall k :: k in order <==> k in t)
  }

  ghost predicate Enabled(s: State, step: Step) {
    match step
    case Look(p) => s.found.None? && p.len < WORD
    case Add => s.found.Some?
    case Swap(order) => !s.exporting && Enumerates(order, s.bytes)
    case Attempt(_) => s.exporting && s.remaining != []
    case Finish => s.exporting && s.remaining == []
  }

  function EntriesOf(order: seq<Key>, t: Table<Key>): seq<Entry> {
    seq(|order|, i requires 0 <= i < |order| => (order[i], At(t, order[i])))
  }

  /** The fate of the first remaining entry if this attempt ends its export. */
  function FateOf(s: State, t: Try): Fate
    requires s.remaining != []
  {
    var outcome := if !Works(t) then Dropped else if Misses(s.logIp, s.remaining[0].0, t) then Missed else Written;
    Fate(s.remaining[0], if Works(t) then s.failures else s.failures + 1, outcome, t.day)
  }

  /** The place of a key in a list of entries. */
  function PlaceOf(es: seq<Entry>, k: Key): (r: Option<nat>)
    ensures r.Some? ==> r.value < |es| && es[r.value].0 == k
    ensures r.None? ==> forall i | 0 <= i < |es| :: es[i].0 != k
  {
    if es == [] then None
    else if es[0].0 == k then Some(0)
    else
      var rest := PlaceOf(es[1..], k);
      assert forall i | 0 < i < |es| :: es[i] == es[1..][i - 1];
      if rest.Some? then Some(rest.value + 1) else None
  }

  /** Where the second lock section of ip_acct finds the entry that the first one looked up: in
      the current tree, still waiting for its export, or nowhere. */
  datatype Target = Tree | Waiting(i: nat) | Nowhere

  function TargetOf(s: State, f: Found): (r: Target)
    ensures r.Waiting? ==> r.i < |s.remaining| && s.remaining[r.i].0 == KeyOf(f.packet)
  {
    if !f.hit || f.tree == s.tree then Tree
    else
      var i := PlaceOf(s.remaining, KeyOf(f.packet));
      if f.tree + 1 == s.tree && i.Some? then Waiting(i.value) else Nowhere
  }

  /** The packet is added to the entry that was found, or a new entry takes it. */
  function AddTree(s: State, f: Found): State {
    var k, len := KeyOf(f.packet), f.packet.len;
    s.(found := None, accounted := Plus(s.accounted, k, len), log := s.log + [f.packet],
       bytes := if f.hit then AddWord(s.bytes, k, len) else s.bytes[k := len],
       pkts := if f.hit then AddWord(s.pkts, k, 1) else s.pkts[k := 1],
       carries := if f.hit then Plus(s.carries, k, Carry(At(s.bytes, k), len)) else s.carries)
  }

  function AddWaiting(s: State, f: Found, i: nat): State
    requires i < |s.remaining|
  {
    var k, len, amount := KeyOf(f.packet), f.packet.len, s.remaining[i].1;
    s.(found := None, accounted := Plus(s.accounted, k, len),
       remaining := s.remaining[i := (k, (amount + len) % WORD)],
       carries := Plus(s.carries, k, Carry(amount, len)))
  }

  function AddNowhere(s: State, f: Found): State {
    var k, len := KeyOf(f.packet), f.packet.len;
    s.(found := None, accounted := Plus(s.accounted, k, len), stray := Plus(s.stray, k, len))
  }

  function AddTo(s: State, f: Found): State {
    match TargetOf(s, f)
    case Tree => AddTree(s, f)
    case Waiting(i) => AddWaiting(s, f, i)
    case Nowhere => AddNowhere(s, f)
  }

  function SwapTo(s: State, order: seq<Key>): State {
    s.(bytes := map[], pkts := map[], tree := s.tree + 1, exporting := true, failures := 0,
       remaining := EntriesOf(order, s.bytes), log := [], swapped := s.swapped + order)
  }

  function AttemptOn(s: State, t: Try): State
    requires s.remaining != []
  {
    if !Works(t) && s.failures < 3 then s.(failures := s.failures + 1) else Settle(s, t)
  }

  /** The traversal goes on to the next entry. */
  function Settle(s: State, t: Try): State
    requires s.remaining != []
  {
    s.(remaining := s.remaining[1..], failures := 0, logIp := Exported(s.logIp, s.remaining[0], t),
       fates := s.fates + [FateOf(s, t)])
  }

  ghost function Apply(s: State, step: Step): State
    requires Enabled(s, step)
  {
    match step
    case Look(p) =>
      s.(found := Some(Found(p, KeyOf(p) in s.bytes, s.tree)))
    case Add =>
      AddTo(s, s.found.value)
    case Swap(order) =>
      SwapTo(s, order)
    case Attempt(t) =>
      AttemptOn(s, t)
    case Finish =>
      s.(exporting := false)
  }

  function Settled(fates: seq<Fate>): seq<Entry> {
    seq(|fates|, i requires 0 <= i < |fates| => fates[i].entry)
  }

  function Keys(es: seq<Entry>): seq<Key> {
    seq(|es|, i requires 0 <= i < |es| => es[i].0)
  }

  /** The bytes of a key with an outcome. */
  function FateBytes(fates: seq<Fate>, outcome: Outcome, k: Key): nat {
    if fates == [] then 0
    else
      var f := fates[|fates| - 1];
      FateBytes(fates[..|fates| - 1], outcome, k) + if f.outcome == outcome && f.entry.0 == k then f.entry.1 else 0
  }

  /** The bytes of a key written on a day. */
  function DayBytes(fates: seq<Fate>, k: Key, day: nat): nat {
    if fates == [] then 0
    else
      var f := fates[|fates| - 1];
      DayBytes(fates[..|fates| - 1], k, day) + if f.outcome == Written && f.entry.0 == k && f.day == day then f.entry.1 else 0
  }

  // ---------- the invariant ----------

  /** The tree agrees with the plain log of the packets added since the last swap. */
  predicate AgreesWithLog(s: State, k: Key) {
    && At(s.bytes, k) == BytesFor(s.log, k) % WORD
    && At(s.pkts, k) == PacketsFor(s.log, k) % WORD
    && (k in s.bytes <==> PacketsFor(s.log, k) > 0)
    && (k in s.pkts <==> k in s.bytes)
  }

  /** The lookup still holds of the current tree, unless that tree is a new one. */
  predicate FoundOk(s: State) {
    s.found.Some? ==>
      var f := s.found.value;
      && f.packet.len < WORD && f.tree <= s.tree
      && (!f.hit ==> KeyOf(f.packet) !in s.bytes)
      && (f.hit && f.tree == s.tree ==> KeyOf(f.packet) in s.bytes)
  }

  predicate Balanced(s: State, k: Key) {
    At(s.accounted, k) ==
    SumFor(Settled(s.fates), k) + SumFor(s.remaining, k) + At(s.bytes, k) + WORD * At(s.carries, k) + At(s.stray, k)
  }

  /** Every row of the table holds what was written on its day. */
  ghost predicate RowsExact(s: State, k: Key) {
    forall day :: At(s.logIp, (k, day)) == DayBytes(s.fates, k, day)
  }

  /** Every entry swapped out is settled once or waits, in order; it is dropped only after
      four failed attempts, and written or missed before. */
  predicate SettledOnce(s: State) {
    && Keys(Settled(s.fates) + s.remaining) == s.swapped
    && (forall i | 0 <= i < |s.fates| ::
          if s.fates[i].outcome == Dropped then s.fates[i].failures == 4 else s.fates[i].failures <= 3)
    && s.failures <= 3
    && (!s.exporting ==> s.remaining == [])
  }

  ghost predicate Inv(s: State, k: Key) {
    AgreesWithLog(s, k) && FoundOk(s) && Balanced(s, k) && RowsExact(s, k) && SettledOnce(s)
  }

  /** In the tree, adding a packet is a 32-bit addition whether its key is new or not. */
  lemma AddTreeAdds(s: State, f: Found)
    requires !f.hit ==> KeyOf(f.packet) !in s.bytes && KeyOf(f.packet) !in s.pkts
    requires f.packet.len < WORD
    ensures var k, len := KeyOf(f.packet), f.packet.len;
            AddTree(s, f).bytes == AddWord(s.bytes, k, len) && AddTree(s, f).pkts == AddWord(s.pkts, k, 1)
  {}

  lemma LogExtends(log: seq<Packet>, p: Packet, k: Key)
    ensures BytesFor(log + [p], k) == BytesFor(log, k) + if KeyOf(p) == k then p.len else 0
    ensures PacketsFor(log + [p], k) == PacketsFor(log, k) + if KeyOf(p) == k then 1 else 0
  {
    assert (log + [p])[..|log|] == log;
  }

  lemma AddWordAgrees(t: Table<Key>, k: Key, amount: nat, total: nat)
    requires At(t, k) == total % WORD
    ensures At(AddWord(t, k, amount), k) == (total + amount) % WORD
  {
    WordMod(total, amount);
  }

  lemma AddTreeAgrees(s: State, f: Found, k: Key)
    requires AgreesWithLog(s, k) && f.packet.len < WORD && (!f.hit ==> KeyOf(f.packet) !in s.bytes)
    ensures AgreesWithLog(AddTree(s, f), k)
  {
    LogExtends(s.log, f.packet, k);
    if KeyOf(f.packet) == k {
      AddTreeAdds(s, f);
      AddWordAgrees(s.bytes, k, f.packet.len, BytesFor(s.log, k));
      AddWordAgrees(s.pkts, k, 1, PacketsFor(s.log, k));
    } else {
      OtherKey(s, f, k);
    }
  }

  lemma OtherKey(s: State, f: Found, k: Key)
    requires KeyOf(f.packet) != k
    ensures At(AddTree(s, f).bytes, k) == At(s.bytes, k) && At(AddTree(s, f).pkts, k) == At(s.pkts, k)
    ensures k in AddTree(s, f).bytes <==> k in s.bytes
    ensures k in AddTree(s, f).pkts <==> k in s.pkts
  {}

  lemma {:induction false} SumUpdate(es: seq<Entry>, i: nat, e: Entry, k: Key)
    requires i < |es| && e.0 == es[i].0
    ensures SumFor(es[i := e], k) + (if e.0 == k then es[i].1 else 0) == SumFor(es, k) + if e.0 == k then e.1 else 0
  {
    if i == 0 {
      assert es[i := e][1..] == es[1..];
    } else {
      assert es[i := e][1..] == es[1..][i - 1 := e];
      SumUpdate(es[1..], i - 1, e, k);
    }
  }

  lemma AddTreeBalanced(s: State, f: Found, k: Key)
    requires Balanced(s, k) && (!f.hit ==> KeyOf(f.packet) !in s.bytes)
    ensures Balanced(AddTree(s, f), k)
  {
    if KeyOf(f.packet) == k {
      WordSum(At(s.bytes, k), f.packet.len);
    } else {
      OtherKey(s, f, k);
    }
  }

  lemma AddWaitingBalanced(s: State, f: Found, i: nat, k: Key)
    requires Balanced(s, k) && i < |s.remaining| && s.remaining[i].0 == KeyOf(f.packet)
    ensures Balanced(AddWaiting(s, f, i), k)
  {
    var amount, len := s.remaining[i].1, f.packet.len;
    WordSum(amount, len);
    SumUpdate(s.remaining, i, (KeyOf(f.packet), (amount + len) % WORD), k);
  }

  lemma AddWaitingSettled(s: State, f: Found, i: nat)
    requires SettledOnce(s) && i < |s.remaining| && s.remaining[i].0 == KeyOf(f.packet)
    ensures SettledOnce(AddWaiting(s, f, i))
  {
    var e := AddWaiting(s, f, i).remaining[i];
    assert Keys(Settled(s.fates) + s.remaining[i := e]) == Keys(Settled(s.fates) + s.remaining);
  }

  lemma AddTreeKeepsInv(s: State, f: Found, k: Key)
    requires Inv(s, k) && s.found == Some(f) && TargetOf(s, f).Tree?
    ensures Inv(AddTree(s, f), k)
  {
    AddTreeAgrees(s, f, k);
    AddTreeBalanced(s, f, k);
  }

  lemma AddWaitingKeepsInv(s: State, f: Found, i: nat, k: Key)
    requires Inv(s, k) && s.found == Some(f) && TargetOf(s, f) == Waiting(i)
    ensures Inv(AddWaiting(s, f, i), k)
  {
    AddWaitingBalanced(s, f, i, k);
    AddWaitingSettled(s, f, i);
  }

  lemma AddNowhereKeepsInv(s: State, f: Found, k: Key)
    requires Inv(s, k) && s.found == Some(f)
    ensures Inv(AddNowhere(s, f), k)
  {}

  lemma AddKeepsInv(s: State, f: Found, k: Key)
    requires Inv(s, k) && s.found == Some(f)
    ensures Inv(AddTo(s, f), k)
  {
    match TargetOf(s, f)
    case Tree => AddTreeKeepsInv(s, f, k);
    case Waiting(i) => AddWaitingKeepsInv(s, f, i, k);
    case Nowhere => AddNowhereKeepsInv(s, f, k);
  }

  /** Swapping moves each counter into exactly one entry. */
  lemma {:induction false} SumEntries(order: seq<Key>, t: Table<Key>, k: Key)
    requires forall i, j | 0 <= i < j < |order| :: order[i] != order[j]
    ensures SumFor(EntriesOf(order, t), k) == if k in order then At(t, k) else 0
  {
    if order != [] {
      assert EntriesOf(order, t)[1..] == EntriesOf(order[1..], t);
      SumEntries(order[1..], t, k);
    }
  }

  lemma SwapBalanced(s: State, order: seq<Key>, k: Key)
    requires Balanced(s, k) && SettledOnce(s) && Enabled(s, Swap(order))
    ensures Balanced(SwapTo(s, order), k)
  {
    SumEntries(order, s.bytes, k);
  }

  lemma SettleBalanced(fates: seq<Fate>, remaining: seq<Entry>, f: Fate, k: Key)
    requires remaining != [] && f.entry == remaining[0]
    ensures SumFor(Settled(fates + [f]), k) + SumFor(remaining[1..], k) == SumFor(Settled(fates), k) + SumFor(remaining, k)
  {
    assert Settled(fates + [f]) == Settled(fates) + [f.entry];
    SumSplit(Settled(fates), [f.entry], k);
  }

  lemma FateExtends(fates: seq<Fate>, f: Fate, outcome: Outcome, k: Key, day: nat)
    ensures FateBytes(fates + [f], outcome, k) ==
            FateBytes(fates, outcome, k) + if f.outcome == outcome && f.entry.0 == k then f.entry.1 else 0
    ensures DayBytes(fates + [f], k, day) ==
            DayBytes(fates, k, day) + if f.outcome == Written && f.entry.0 == k && f.day == day then f.entry.1 else 0
  {
    assert (fates + [f])[..|fates|] == fates;
  }

  lemma SettleRows(s: State, t: Try, k: Key)
    requires RowsExact(s, k) && s.remaining != [] && (Works(t) || s.failures == 3)
    ensures RowsExact(Settle(s, t), k)
  {
    var s' := Settle(s, t);
    forall day ensures At(s'.logIp, (k, day)) == DayBytes(s'.fates, k, day) {
      FateExtends(s.fates, FateOf(s, t), Written, k, day);
    }
  }

  lemma SettleFirst(fates: seq<Fate>, remaining: seq<Entry>, f: Fate)
    requires remaining != [] && f.entry == remaining[0]
    ensures Settled(fates + [f]) + remaining[1..] == Settled(fates) + remaining
  {
    assert Settled(fates + [f]) == Settled(fates) + [remaining[0]];
  }

  lemma SettleSettled(s: State, t: Try)
    requires SettledOnce(s) && s.remaining != [] && s.exporting && (Works(t) || s.failures == 3)
    ensures SettledOnce(Settle(s, t))
  {
    SettleFirst(s.fates, s.remaining, FateOf(s, t));
  }

  lemma SettleKeepsInv(s: State, t: Try, k: Key)
    requires Inv(s, k) && s.remaining != [] && s.exporting && (Works(t) || s.failures == 3)
    ensures Inv(Settle(s, t), k)
  {
    SettleRows(s, t, k);
    SettleBalanced(s.fates, s.remaining, FateOf(s, t), k);
    SettleSettled(s, t);
  }

  lemma AttemptKeepsInv(s: State, t: Try, k: Key)
    requires Inv(s, k) && s.remaining != [] && s.exporting
    ensures Inv(AttemptOn(s, t), k)
  {
    if Works(t) || s.failures == 3 { SettleKeepsInv(s, t, k); }
  }

  lemma SwapKeepsInv(s: State, order: seq<Key>, k: Key)
    requires Inv(s, k) && Enabled(s, Swap(order))
    ensures Inv(SwapTo(s, order), k)
  {
    SwapBalanced(s, order, k);
    assert Keys(Settled(s.fates) + EntriesOf(order, s.bytes)) == Keys(Settled(s.fates) + []) + order;
  }

  // ---------- every run ----------

  /** A step that is not enabled does nothing. */
  ghost function Next(s: State, step: Step): State { if Enabled(s, step) then Apply(s, step) else s }

  /** The state after an arbitrary run. */
  ghost function Exec(steps: seq<Step>): State {
    if steps == [] then START else Next(Exec(steps[..|steps| - 1]), steps[|steps| - 1])
  }

  lemma ExecExtends(steps: seq<Step>, step: Step)
    ensures Exec(steps + [step]) == Next(Exec(steps), step)
  {
    assert (steps + [step])[..|steps|] == steps;
  }

  lemma StepKeepsInv(s: State, step: Step, k: Key)
    requires Inv(s, k) && Enabled(s, step)
    ensures Inv(Apply(s, step), k)
  {
    match step
    case Look(_) =>
    case Add => AddKeepsInv(s, s.found.value, k);
    case Swap(order) => SwapKeepsInv(s, order, k);
    case Attempt(t) => AttemptKeepsInv(s, t, k);
    case Finish =>
  }

  /** The cache agrees with the packet log, no byte leaves the books but by a run-over or into
      an abandoned entry, the table holds what was written, and every swapped entry is settled
      exactly once. */
  lemma {:induction false} ExecInv(steps: seq<Step>, k: Key)
    ensures Inv(Exec(steps), k)
  {
    if steps != [] {
      var before, step := Exec(steps[..|steps| - 1]), steps[|steps| - 1];
      ExecInv(steps[..|steps| - 1], k);
      if Enabled(before, step) { StepKeepsInv(before, step, k); }
    }
  }

  // ---------- when bytes get lost ----------

  /** The step adds a packet of the key to a counter that cannot hold it. */
  predicate RunsOver(s: State, step: Step, k: Key) {
    step.Add? && s.found.Some? && KeyOf(s.found.value.packet) == k &&
    match TargetOf(s, s.found.value) {
      case Tree => s.found.value.hit && At(s.bytes, k) + s.found.value.packet.len >= WORD
      case Waiting(i) => s.remaining[i].1 + s.found.value.packet.len >= WORD
      case Nowhere => false
    }
  }

  /** The step adds bytes of the key to an entry whose export is over, because a sync took the
      tree away between the two lock sections of ip_acct. */
  predicate Strays(s: State, step: Step, k: Key) {
    step.Add? && s.found.Some? && KeyOf(s.found.value.packet) == k && s.found.value.packet.len > 0 &&
    TargetOf(s, s.found.value).Nowhere?
  }

  /** The step exports bytes of the key into a row that is not there. */
  predicate Loses(s: State, step: Step, k: Key) {
    step.Attempt? && s.remaining != [] && s.remaining[0].0 == k && s.remaining[0].1 > 0 && Misses(s.logIp, k, step.try)
  }

  predicate Fault(s: State, step: Step, k: Key) { RunsOver(s, step, k) || Strays(s, step, k) || Loses(s, step, k) }

  /** No step of the run does any of this. */
  ghost predicate Faultless(steps: seq<Step>, k: Key) {
    steps == [] ||
    (var before, step := steps[..|steps| - 1], steps[|steps| - 1];
     Faultless(before, k) && !(Enabled(Exec(before), step) && Fault(Exec(before), step, k)))
  }

  /** The bytes of a key that this has cost. */
  function Lost(s: State, k: Key): nat {
    WORD * At(s.carries, k) + At(s.stray, k) + FateBytes(s.fates, Missed, k)
  }

  lemma CarryIsPositive(a: nat, b: nat)
    ensures Carry(a, b) > 0 <==> a + b >= WORD
  {}

  lemma AddTreeLost(s: State, f: Found, k: Key)
    ensures Lost(AddTree(s, f), k) ==
            Lost(s, k) + if KeyOf(f.packet) == k && f.hit then WORD * Carry(At(s.bytes, k), f.packet.len) else 0
  {}

  lemma AddWaitingLost(s: State, f: Found, i: nat, k: Key)
    requires i < |s.remaining|
    ensures Lost(AddWaiting(s, f, i), k) ==
            Lost(s, k) + if KeyOf(f.packet) == k then WORD * Carry(s.remaining[i].1, f.packet.len) else 0
  {}

  lemma AddLost(s: State, f: Found, k: Key)
    requires s.found == Some(f)
    ensures Lost(AddTo(s, f), k) >= Lost(s, k)
    ensures Lost(AddTo(s, f), k) == Lost(s, k) <==> !RunsOver(s, Add, k) && !Strays(s, Add, k)
  {
    match TargetOf(s, f)
    case Tree =>
      AddTreeLost(s, f, k);
      CarryIsPositive(At(s.bytes, k), f.packet.len);
    case Waiting(i) =>
      AddWaitingLost(s, f, i, k);
      CarryIsPositive(s.remaining[i].1, f.packet.len);
    case Nowhere =>
  }

  lemma AttemptLost(s: State, t: Try, k: Key)
    requires s.remaining != []
    ensures Lost(AttemptOn(s, t), k) >= Lost(s, k)
    ensures Lost(AttemptOn(s, t), k) == Lost(s, k) <==> !Loses(s, Attempt(t), k)
  {
    if Works(t) || s.failures >= 3 {
      var f := FateOf(s, t);
      FateExtends(s.fates, f, Missed, k, 0);
      assert Lost(Settle(s, t), k) == Lost(s, k) + if f.outcome == Missed && f.entry.0 == k then f.entry.1 else 0;
    }
  }

  lemma StepLost(s: State, step: Step, k: Key)
    requires Enabled(s, step)
    ensures Lost(Apply(s, step), k) >= Lost(s, k)
    ensures Lost(Apply(s, step), k) == Lost(s, k) <==> !Fault(s, step, k)
  {
    match step
    case Look(_) =>
    case Add => AddLost(s, s.found.value, k);
    case Swap(_) =>
    case Attempt(t) => AttemptLost(s, t, k);
    case Finish =>
  }

  lemma {:induction false} LostIff(steps: seq<Step>, k: Key)
    ensures Lost(Exec(steps), k) == 0 <==> Faultless(steps, k)
  {
    if steps != [] {
      var before, step := steps[..|steps| - 1], steps[|steps| - 1];
      LostIff(before, k);
      if Enabled(Exec(before), step) { StepLost(Exec(before), step, k); }
    }
  }

  lemma {:induction false} SettledSum(fates: seq<Fate>, k: Key)
    ensures SumFor(Settled(fates), k) ==
            FateBytes(fates, Written, k) + FateBytes(fates, Missed, k) + FateBytes(fates, Dropped, k)
  {
    if fates != [] {
      var n := |fates| - 1;
      SettledSum(fates[..n], k);
      assert Settled(fates) == Settled(fates[..n]) + [fates[n].entry];
      SumSplit(Settled(fates[..n]), [fates[n].entry], k);
    }
  }

  /** Written, dropped, pending and cached bytes of a key. */
  function Kept(s: State, k: Key): nat {
    FateBytes(s.fates, Written, k) + FateBytes(s.fates, Dropped, k) + SumFor(s.remaining, k) + At(s.bytes, k)
  }

  lemma KeptOrLost(steps: seq<Step>, k: Key)
    ensures At(Exec(steps).accounted, k) == Kept(Exec(steps), k) + Lost(Exec(steps), k)
  {
    var s := Exec(steps);
    ExecInv(steps, k);
    SettledSum(s.fates, k);
  }

  /** Written, dropped, pending and cached bytes of a key add up to what was accounted for it,
      if and only if no packet of the run was added to a counter that could not hold it or to an
      entry whose export was over, and no export of the run missed its row. */
  lemma Conservation(steps: seq<Step>, k: Key)
    ensures Kept(Exec(steps), k) == At(Exec(steps).accounted, k) <==> Faultless(steps, k)
  {
    KeptOrLost(steps, k);
    LostIff(steps, k);
  }

  /** The rows of a key over a list of days. */
  function RowSum(rows: Rows, k: Key, days: seq<nat>): nat {
    if days == [] then 0 else At(rows, (k, days[0])) + RowSum(rows, k, days[1..])
  }

  function DaySum(fates: seq<Fate>, k: Key, days: seq<nat>): nat {
    if days == [] then 0 else DayBytes(fates, k, days[0]) + DaySum(fates, k, days[1..])
  }

  lemma {:induction false} RowsAreDays(s: State, k: Key, days: seq<nat>)
    requires RowsExact(s, k)
    ensures RowSum(s.logIp, k, days) == DaySum(s.fates, k, days)
  {
    if days != [] { RowsAreDays(s, k, days[1..]); }
  }

  lemma {:induction false} OneMoreFate(fates: seq<Fate>, f: Fate, k: Key, days: seq<nat>)
    requires forall i, j | 0 <= i < j < |days| :: days[i] != days[j]
    ensures DaySum(fates + [f], k, days) ==
            DaySum(fates, k, days) + if f.day in days && f.outcome == Written && f.entry.0 == k then f.entry.1 else 0
  {
    if days != [] {
      FateExtends(fates, f, Written, k, days[0]);
      OneMoreFate(fates, f, k, days[1..]);
      assert f.day in days <==> f.day == days[0] || f.day in days[1..];
      assert f.day in days[1..] ==> f.day != days[0];
    }
  }

  lemma {:induction false} DaysAreWritten(fates: seq<Fate>, k: Key, days: seq<nat>)
    requires forall i, j | 0 <= i < j < |days| :: days[i] != days[j]
    requires forall i | 0 <= i < |fates| :: fates[i].day in days
    ensures DaySum(fates, k, days) == FateBytes(fates, Written, k)
  {
    if fates == [] {
      NoFates(k, days);
    } else {
      var n := |fates| - 1;
      DaysAreWritten(fates[..n], k, days);
      assert fates == fates[..n] + [fates[n]];
      OneMoreFate(fates[..n], fates[n], k, days);
    }
  }

  lemma {:induction false} NoFates(k: Key, days: seq<nat>)
    ensures DaySum([], k, days) == 0
  {
    if days != [] { NoFates(k, days[1..]); }
  }

  /** Over all days, the rows of a key hold exactly the bytes that were written for it. */
  lemma TableHoldsWritten(steps: seq<Step>, k: Key, days: seq<nat>)
    requires forall i, j | 0 <= i < j < |days| :: days[i] != days[j]
    ensures var s := Exec(steps);
            (forall i | 0 <= i < |s.fates| :: s.fates[i].day in days) ==>
              RowSum(s.logIp, k, days) == FateBytes(s.fates, Written, k)
  {
    var s := Exec(steps);
    ExecInv(steps, k);
    if forall i | 0 <= i < |s.fates| :: s.fates[i].day in days {
      RowsAreDays(s, k, days);
      DaysAreWritten(s.fates, k, days);
    }
  }

  /** Takes one more step. */
  lemma Do(steps: seq<Step>, step: Step) returns (steps': seq<Step>)
    requires Enabled(Exec(steps), step)
    ensures steps' == steps + [step] && Exec(steps') == Apply(Exec(steps), step)
  {
    ExecExtends(steps, step);
    steps' := steps + [step];
  }

  /** A call of ip_acct with nothing in between. */
  lemma Account(steps: seq<Step>, p: Packet) returns (steps': seq<Step>)
    requires Exec(steps).found.None? && p.len < WORD
    ensures Exec(steps') == AddTo(Exec(steps), Found(p, KeyOf(p) in Exec(steps).bytes, Exec(steps).tree))
  {
    var s := Exec(steps);
    steps' := Do(steps, Look(p));
    steps' := Do(steps', Add);
    assert s.(found := Some(Found(p, KeyOf(p) in s.bytes, s.tree))).(found := None) == s;
  }

  /** Two packets under one key are enough: 2^32 bytes are accounted and none is kept. */
  lemma RunOverLosesBytes(p: Packet) returns (steps: seq<Step>)
    ensures var s := Exec(steps); At(s.accounted, KeyOf(p)) == WORD && Kept(s, KeyOf(p)) == 0
  {
    steps := Account([], p.(len := WORD - 1));
    steps := Account(steps, p.(len := 1));
  }

  /** Nothing is cached, looked up or under export. */
  predicate Quiet(s: State) {
    !s.exporting && s.remaining == [] && s.failures == 0 && s.bytes == map[] && s.found == None
  }

  /** One entry is cached, swapped out and exported by one attempt. */
  lemma ExportOne(steps: seq<Step>, k: Key, t: Try) returns (steps': seq<Step>)
    requires var s := Exec(steps); !s.exporting && s.bytes.Keys == {k} && Works(t)
    ensures var s, s' := Exec(steps), Exec(steps');
            && !s'.exporting && s'.remaining == [] && s'.failures == 0 && s'.bytes == map[]
            && s'.logIp == Exported(s.logIp, (k, s.bytes[k]), t)
            && s'.accounted == s.accounted && s'.found == s.found && s'.tree == s.tree + 1
  {
    assert Enumerates([k], Exec(steps).bytes);
    steps' := Do(steps, Swap([k]));
    assert Exec(steps').remaining == [(k, Exec(steps).bytes[k])];
    steps' := Do(steps', Attempt(t));
    steps' := Do(steps', Finish);
  }

  lemma Round(steps: seq<Step>, p: Packet, t: Try) returns (steps': seq<Step>)
    requires p.len < WORD && Works(t) && Quiet(Exec(steps))
    ensures var s, s' := Exec(steps), Exec(steps');
            && Quiet(s') && s'.logIp == Exported(s.logIp, (KeyOf(p), p.len), t)
            && s'.accounted == Plus(s.accounted, KeyOf(p), p.len)
  {
    steps' := Account(steps, p);
    steps' := ExportOne(steps', KeyOf(p), t);
  }

  /** An export that spans midnight: the row of the day before was counted, the update finds no
      row of the new day, and the bytes are in neither although both calls worked. */
  lemma MidnightLosesBytes(p: Packet, day: nat) returns (steps: seq<Step>)
    requires 0 < p.len < WORD
    ensures var s := Exec(steps);
            At(s.accounted, KeyOf(p)) == 2 * p.len && s.logIp == map[(KeyOf(p), day) := p.len] && Quiet(s)
  {
    steps := Round([], p, Try(true, true, day, day));
    steps := Round(steps, p, Try(true, true, day, day + 1));
  }

  /** A sync between the two lock sections of ip_acct: the packet is added to an entry that was
      exported without it. */
  lemma SyncLosesBytes(p: Packet, day: nat) returns (steps: seq<Step>)
    requires 0 < p.len < WORD
    ensures var s := Exec(steps);
            At(s.accounted, KeyOf(p)) == 2 * p.len && s.logIp == map[(KeyOf(p), day) := p.len] && Quiet(s)
  {
    steps := Account([], p);
    steps := Do(steps, Look(p));
    steps := ExportOne(steps, KeyOf(p), Try(true, true, day, day));
    steps := Do(steps, Add);
  }

  /** A packet whose tree was taken away reaches the export as long as its entry waits for it in
      that tree; otherwise it strays, and it never touches the new tree. */
  lemma OvertakenAdd(s: State, f: Found)
    requires s.found == Some(f) && f.hit && f.tree < s.tree
    ensures var s', k := Apply(s, Add), KeyOf(f.packet);
            var waits := f.tree + 1 == s.tree && exists i | 0 <= i < |s.remaining| :: s.remaining[i].0 == k;
            && s'.bytes == s.bytes && s'.pkts == s.pkts && s'.log == s.log
            && SumFor(s'.remaining, k) + WORD * At(s'.carries, k) ==
               SumFor(s.remaining, k) + WORD * At(s.carries, k) + (if waits then f.packet.len else 0)
            && At(s'.stray, k) == At(s.stray, k) + if waits then 0 else f.packet.len
  {
    var k := KeyOf(f.packet);
    match TargetOf(s, f)
    case Waiting(i) =>
      WordSum(s.remaining[i].1, f.packet.len);
      SumUpdate(s.remaining, i, (k, (s.remaining[i].1 + f.packet.len) % WORD), k);
    case Nowhere =>
  }

  /** A run in which an overtaken packet is exported with its entry. */
  lemma OvertakenIsExported(p: Packet, day: nat) returns (steps: seq<Step>)
    requires 2 * p.len < WORD
    ensures var s := Exec(steps); Quiet(s) && s.logIp == map[(KeyOf(p), day) := 2 * p.len]
  {
    var k := KeyOf(p);
    steps := Account([], p);
    assert Exec(steps).bytes == map[k := p.len] && Enumerates([k], Exec(steps).bytes);
    steps := Do(steps, Look(p));
    steps := Do(steps, Swap([k]));
    assert Exec(steps).remaining == [(k, p.len)];
    steps := Do(steps, Add);
    assert Exec(steps).remaining == [(k, 2 * p.len)];
    steps := Do(steps, Attempt(Try(true, true, day, day)));
    steps := Do(steps, Finish);
  }

  // ---------- the module's state, updated in place ----------

  /** The two steps of ip_acct in a row. */
  lemma AcctRun(s: State, p: Packet)
    requires s.found.None? && p.len < WORD && s.bytes.Keys == s.pkts.Keys
    ensures var s' := Next(Next(s, Look(p)), Add);
            && s'.bytes == AddWord(s.bytes, KeyOf(p), p.len) && s'.pkts == AddWord(s.pkts, KeyOf(p), 1)
            && s'.found.None? && s'.failures == s.failures && s'.logIp == s.logIp
            && s'.exporting == s.exporting && s'.remaining == s.remaining
  {
    AddTreeAdds(Next(s, Look(p)), Found(p, KeyOf(p) in s.bytes, s.tree));
  }

  /** The counters of ag_ip, a finite map by AvlMap.BuildIsMap, what is left of the tree that a
      sync took away, and the table. The ghost history ties them to the protocol. */
  class IpStore {
    var bytes: Table<Key>
    var pkts: Table<Key>
    var exporting: bool
    var pending: seq<Entry>
    var logIp: Rows
    ghost var history: seq<Step>
    ghost var now: State

    ghost predicate Valid()
      reads this
    {
      Holds(0)
    }

    /** The object is in the state of its history, with so many failures for the next entry. */
    ghost predicate Holds(failures: nat)
      reads this
    {
      && now == Exec(history) && now.failures == failures && now.found == None && bytes.Keys == pkts.Keys
      && bytes == now.bytes && pkts == now.pkts && logIp == now.logIp
      && exporting == now.exporting && pending == now.remaining
    }

    /** Takes note of a step. */
    ghost method Note(step: Step)
      requires now == Exec(history)
      modifies this`history, this`now
      ensures history == old(history) + [step] && now == Next(old(now), step) == Exec(history)
    {
      ExecExtends(history, step);
      history, now := history + [step], Next(now, step);
    }

    constructor ()
      ensures Valid() && history == []
    {
      bytes, pkts, exporting, pending, logIp := map[], map[], false, [], map[];
      history, now := [], START;
    }

    /** ip_acct with nothing in between. */
    method Acct(p: Packet)
      requires Valid() && p.len < WORD
      modifies this`bytes, this`pkts, this`history, this`now
      ensures Valid() && history == old(history) + [Look(p), Add]
      ensures var k := if p.direct == 1 then Key(p.user, p.proto, p.direct, p.src, p.srcPort)
                       else Key(p.user, p.proto, p.direct, p.dest, p.destPort);
              bytes == AddWord(old(bytes), k, p.len) && pkts == AddWord(old(pkts), k, 1)
    {
      AcctRun(now, p);
      var k;
      if p.direct == 1 {
        k := Key(p.user, p.proto, p.direct, p.src, p.srcPort);
      } else {
        k := Key(p.user, p.proto, p.direct, p.dest, p.destPort);
      }
      Count(k, p.len);
      Note(Look(p));
      Note(Add);
    }

    /** Adds a packet to the counters of a key, which are created if needed. */
    method Count(k: Key, len: nat)
      requires bytes.Keys == pkts.Keys && len < WORD
      modifies this`bytes, this`pkts
      ensures bytes == AddWord(old(bytes), k, len) && pkts == AddWord(old(pkts), k, 1)
      ensures bytes.Keys == pkts.Keys
    {
      if k in bytes {
        pkts := pkts[k := (pkts[k] + 1) % WORD];
        bytes := bytes[k := (bytes[k] + len) % WORD];
      } else {
        pkts := pkts[k := 1];
        bytes := bytes[k := len];
      }
    }

    /** ip_export: it counts the rows of today, then updates or inserts one. */
    method Export(e: Entry, t: Try) returns (ok: bool)
      modifies this`logIp
      ensures ok == Works(t) && logIp == Exported(old(logIp), e, t)
    {
      if !t.counted {
        return false;
      }
      var present := (e.0, t.countDay) in logIp;
      if !t.executed {
        return false;
      }
      if present {
        if (e.0, t.day) in logIp {
          logIp := logIp[(e.0, t.day) := logIp[(e.0, t.day)] + e.1];
        }
      } else {
        logIp := Plus(logIp, (e.0, t.day), e.1);
      }
      ok := true;
    }

    /** ip_traverse_sync on the next entry: it repeats until an export works, at most four
        times. Each repetition is an Attempt of the protocol, and the entry is done after it. */
    method TraverseSync(tries: seq<Try>) returns (attempts: nat)
      requires Valid() && exporting && pending != [] && |tries| == 4
      modifies this`pending, this`logIp, this`history, this`now
      ensures Valid() && pending == old(pending)[1..]
      ensures 1 <= attempts <= 4 && history == old(history) + Attempts(tries[..attempts])
      ensures forall i | 0 <= i < attempts - 1 :: !Works(tries[i])
      ensures !Works(tries[attempts - 1]) ==> attempts == 4
      ensures logIp == Exported(old(logIp), old(pending)[0], tries[attempts - 1])
    {
      var repeats := 3;
      attempts := 0;
      while true
        invariant attempts == 3 - repeats && 0 <= repeats <= 3 && Holds(attempts)
        invariant forall i | 0 <= i < attempts :: !Works(tries[i])
        invariant logIp == old(logIp) && pending == old(pending)
        invariant history == old(history) + Attempts(tries[..attempts])
        decreases repeats
      {
        AttemptsExtend(tries, attempts);
        var ok := TryOnce(tries[attempts], repeats);
        attempts := attempts + 1;
        if ok || repeats == 0 {
          return;
        }
        repeats := repeats - 1;
      }
    }

    /** One turn of ip_traverse_sync with so many repetitions left; the traversal goes on to the
        next entry if it was the last one. */
    method TryOnce(t: Try, repeats: nat) returns (ok: bool)
      requires repeats <= 3 && Holds(3 - repeats) && exporting && pending != []
      modifies this`pending, this`logIp, this`history, this`now
      ensures ok == Works(t) && history == old(history) + [Attempt(t)]
      ensures logIp == Exported(old(logIp), old(pending)[0], t)
      ensures if ok || repeats == 0 then Holds(0) && pending == old(pending)[1..]
              else Holds(4 - repeats) && pending == old(pending) && logIp == old(logIp)
    {
      ok := Export(pending[0], t);
      if ok || repeats == 0 {
        pending := pending[1..];
      }
      Note(Attempt(t));
    }

    /** ip_sync with nothing in between: it refuses to run twice at a time, takes the whole tree
        away and settles every entry of it, each by its own attempts up to the first that
        works. An entry goes to the row of its key and day exactly if one of them works. */
    method Sync(order: seq<Key>, tries: seq<seq<Try>>) returns (ran: bool)
      requires Valid() && Enumerates(order, bytes) && |tries| == |order| && forall ts | ts in tries :: |ts| == 4
      modifies this
      ensures Valid() && ran == !old(exporting)
      ensures ran ==> bytes == map[] && pending == [] && !exporting
      ensures ran ==> history == old(history) + [Swap(order)] + AllAttempts(tries) + [Finish]
      ensures ran ==> SyncWrites(order, tries, old(bytes), old(logIp), logIp)
      ensures !ran ==> history == old(history) && logIp == old(logIp)
    {
      if exporting {
        return false;
      }
      RunSync(order, tries);
      ran := true;
    }

    method RunSync(order: seq<Key>, tries: seq<seq<Try>>)
      requires Valid() && !exporting && Enumerates(order, bytes)
      requires |tries| == |order| && forall ts | ts in tries :: |ts| == 4
      modifies this
      ensures Valid() && bytes == map[] && pending == [] && !exporting
      ensures history == old(history) + [Swap(order)] + AllAttempts(tries) + [Finish]
      ensures SyncWrites(order, tries, old(bytes), old(logIp), logIp)
    {
      ghost var b := bytes;
      SwapTree(order);
      SettleTree(order, tries, b);
      EndSync();
    }

    method EndSync()
      requires Valid() && exporting && pending == []
      modifies this`exporting, this`history, this`now
      ensures Valid() && !exporting && history == old(history) + [Finish]
    {
      assert Next(now, Finish) == now.(exporting := false);
      exporting := false;
      Note(Finish);
    }

    /** The locked section of ip_sync. */
    method SwapTree(order: seq<Key>)
      requires Valid() && !exporting && Enumerates(order, bytes)
      modifies this`bytes, this`pkts, this`exporting, this`pending, this`history, this`now
      ensures Valid() && exporting && bytes == map[]
      ensures pending == EntriesOf(order, old(bytes)) && history == old(history) + [Swap(order)]
    {
      assert Next(now, Swap(order)) == SwapTo(now, order);
      exporting, pending := true, EntriesOf(order, bytes);
      bytes, pkts := map[], map[];
      Note(Swap(order));
    }

    /** The traversal of ip_sync over a whole tree. */
    method SettleTree(order: seq<Key>, tries: seq<seq<Try>>, ghost b: Table<Key>)
      requires Valid() && exporting && pending == EntriesOf(order, b)
      requires |tries| == |order| && forall ts | ts in tries :: |ts| == 4
      requires forall i, j | 0 <= i < j < |order| :: order[i] != order[j]
      modifies this`pending, this`logIp, this`history, this`now
      ensures Valid() && pending == [] && history == old(history) + AllAttempts(tries)
      ensures SyncWrites(order, tries, b, old(logIp), logIp)
    {
      ghost var rows, h := logIp, history;
      EntriesFrom(order, b);
      assert tries[..0] == [] && h + AllAttempts([]) == h;
      ExportAll(order, tries, b);
      assert tries[..|order|] == tries;
      SettledMeans(order, tries, b, rows, logIp);
    }

    /** The first n entries of the traversal are done, from the rows and the history h. */
    ghost predicate Exporting(order: seq<Key>, tries: seq<seq<Try>>, b: Table<Key>, n: nat, rows: Rows, h: seq<Step>)
      requires n <= |order| == |tries| && forall ts | ts in tries :: |ts| == 4
      reads this
    {
      && Valid() && exporting && pending == EntriesOf(order, b)[n..]
      && history == h + AllAttempts(tries[..n]) && RowsSettled(order, tries, b, n, rows, logIp)
    }

    method ExportAll(order: seq<Key>, tries: seq<seq<Try>>, ghost b: Table<Key>)
      requires |tries| == |order| && forall ts | ts in tries :: |ts| == 4
      requires forall i, j | 0 <= i < j < |order| :: order[i] != order[j]
      requires Exporting(order, tries, b, 0, logIp, history)
      modifies this`pending, this`logIp, this`history, this`now
      ensures Exporting(order, tries, b, |order|, old(logIp), old(history))
    {
      ghost var rows, h := logIp, history;
      for n := 0 to |order|
        invariant Exporting(order, tries, b, n, rows, h)
      {
        ExportNext(order, tries, b, n, rows, h);
      }
    }

    /** One entry of the traversal. */
    method ExportNext(order: seq<Key>, tries: seq<seq<Try>>, ghost b: Table<Key>, n: nat, ghost rows: Rows, ghost h: seq<Step>)
      requires n < |order| == |tries| && forall ts | ts in tries :: |ts| == 4
      requires forall i, j | 0 <= i < j < |order| :: order[i] != order[j]
      requires Exporting(order, tries, b, n, rows, h)
      modifies this`pending, this`logIp, this`history, this`now
      ensures Exporting(order, tries, b, n + 1, rows, h)
    {
      assert tries[n] in tries;
      EntriesNext(order, b, n);
      AllAttemptsExtend(tries, n, h);
      ghost var before := logIp;
      var attempts := TraverseSync(tries[n]);
      EffortIs(tries[n], attempts);
      SettleRow(order, tries, b, n, rows, before, logIp);
    }
  }

  // ---------- what a sync writes ----------

  predicate AnyWorks(ts: seq<Try>) { exists j | 0 <= j < |ts| :: ts[j].counted && ts[j].executed }

  predicate OneDay(ts: seq<Try>, day: nat) { forall j | 0 <= j < |ts| :: ts[j].countDay == ts[j].day == day }

  /** How many attempts an entry takes: up to the first that works, or all of them. */
  function Effort(ts: seq<Try>): (n: nat)
    ensures n <= |ts| && (ts != [] ==> n > 0)
  {
    if ts == [] then 0 else if Works(ts[0]) then 1 else 1 + Effort(ts[1..])
  }

  lemma {:induction false} EffortIs(ts: seq<Try>, n: nat)
    requires 0 < n <= |ts| && (forall i | 0 <= i < n - 1 :: !Works(ts[i])) && (Works(ts[n - 1]) || n == |ts|)
    ensures Effort(ts) == n && (Works(ts[n - 1]) <==> AnyWorks(ts))
  {
    if n > 1 {
      EffortIs(ts[1..], n - 1);
      assert forall j | 0 < j < |ts| :: ts[j] == ts[1..][j - 1];
    }
  }

  function AllAttempts(tries: seq<seq<Try>>): seq<Step> {
    if tries == [] then []
    else
      var n := |tries| - 1;
      AllAttempts(tries[..n]) + Attempts(tries[n][..Effort(tries[n])])
  }

  lemma AllAttemptsExtend(tries: seq<seq<Try>>, n: nat, h: seq<Step>)
    requires n < |tries|
    ensures h + AllAttempts(tries[..n + 1]) == h + AllAttempts(tries[..n]) + Attempts(tries[n][..Effort(tries[n])])
  {
    assert tries[..n + 1][..n] == tries[..n];
  }

  lemma EntriesFrom(order: seq<Key>, b: Table<Key>)
    ensures EntriesOf(order, b)[0..] == EntriesOf(order, b) && EntriesOf(order, b)[|order|..] == []
  {}

  lemma EntriesNext(order: seq<Key>, b: Table<Key>, n: nat)
    requires n < |order|
    ensures var es := EntriesOf(order, b);
            es[n..] != [] && es[n..][0] == (order[n], At(b, order[n])) && es[n..][1..] == es[n + 1..]
  {}

  /** The rows of one key are the same in both tables. */
  ghost predicate SameRows(a: Rows, b: Rows, k: Key) {
    forall day: nat :: At(a, (k, day)) == At(b, (k, day)) && ((k, day) in a <==> (k, day) in b)
  }

  function LastTry(ts: seq<Try>): Try
    requires |ts| == 4
  {
    ts[Effort(ts) - 1]
  }

  /** The first n entries are exported by their last attempts, each into the rows of its key. */
  ghost predicate RowsSettled(order: seq<Key>, tries: seq<seq<Try>>, b: Table<Key>, n: nat, before: Rows, after: Rows)
    requires n <= |order| == |tries| && forall ts | ts in tries :: |ts| == 4
  {
    && (forall k | k !in order[..n] :: SameRows(after, before, k))
    && (forall i | 0 <= i < n ::
          SameRows(after, Exported(before, (order[i], At(b, order[i])), LastTry(tries[i])), order[i]))
  }

  lemma ExportedRows(a: Rows, b: Rows, e: Entry, t: Try, k: Key)
    requires SameRows(a, b, k)
    ensures e.0 == k ==> SameRows(Exported(a, e, t), Exported(b, e, t), k)
    ensures e.0 != k ==> SameRows(Exported(a, e, t), b, k)
  {}

  lemma SettleRow(order: seq<Key>, tries: seq<seq<Try>>, b: Table<Key>, n: nat, before: Rows, mid: Rows, after: Rows)
    requires n < |order| == |tries| && (forall ts | ts in tries :: |ts| == 4)
    requires forall i, j | 0 <= i < j < |order| :: order[i] != order[j]
    requires RowsSettled(order, tries, b, n, before, mid)
    requires after == Exported(mid, (order[n], At(b, order[n])), LastTry(tries[n]))
    ensures RowsSettled(order, tries, b, n + 1, before, after)
  {
    var e, t := (order[n], At(b, order[n])), LastTry(tries[n]);
    assert order[..n + 1] == order[..n] + [order[n]];
    forall k | k !in order[..n + 1] ensures SameRows(after, before, k) {
      ExportedRows(mid, before, e, t, k);
    }
    ExportedRows(mid, before, e, t, order[n]);
    forall i | 0 <= i < n
      ensures SameRows(after, Exported(before, (order[i], At(b, order[i])), LastTry(tries[i])), order[i])
    {
      ExportedRows(mid, Exported(before, (order[i], At(b, order[i])), LastTry(tries[i])), e, t, order[i]);
    }
  }

  lemma {:induction false} EffortWorks(ts: seq<Try>)
    requires ts != []
    ensures Works(ts[Effort(ts) - 1]) <==> AnyWorks(ts)
  {
    if !Works(ts[0]) {
      assert forall j | 0 < j < |ts| :: ts[j] == ts[1..][j - 1];
      if |ts| > 1 { EffortWorks(ts[1..]); }
    }
  }

  /** A key whose tries name one day gets its bytes on that day exactly if one of them works,
      and if none works, or on any other day, its rows are as before. */
  ghost predicate EntryWritten(before: Rows, after: Rows, k: Key, amount: nat, ts: seq<Try>) {
    && (forall day: nat | OneDay(ts, day) ::
          At(after, (k, day)) == At(before, (k, day)) + if AnyWorks(ts) then amount else 0)
    && (forall day: nat, other: nat | OneDay(ts, day) && other != day :: At(after, (k, other)) == At(before, (k, other)))
    && (forall day: nat | !AnyWorks(ts) :: At(after, (k, day)) == At(before, (k, day)))
  }

  lemma EntryMeans(before: Rows, after: Rows, k: Key, amount: nat, ts: seq<Try>)
    requires |ts| == 4 && SameRows(after, Exported(before, (k, amount), LastTry(ts)), k)
    ensures EntryWritten(before, after, k, amount, ts)
  {
    EffortWorks(ts);
  }

  /** What a sync of the counters b writes; the rows of other keys are as before. */
  ghost predicate SyncWrites(order: seq<Key>, tries: seq<seq<Try>>, b: Table<Key>, before: Rows, after: Rows)
    requires |order| == |tries|
  {
    && (forall k, day: nat | k !in order :: At(after, (k, day)) == At(before, (k, day)))
    && (forall i | 0 <= i < |order| :: EntryWritten(before, after, order[i], At(b, order[i]), tries[i]))
  }

  lemma SettledMeans(order: seq<Key>, tries: seq<seq<Try>>, b: Table<Key>, before: Rows, after: Rows)
    requires |order| == |tries| && forall ts | ts in tries :: |ts| == 4
    requires RowsSettled(order, tries, b, |order|, before, after)
    ensures SyncWrites(order, tries, b, before, after)
  {
    assert order[..|order|] == order;
    forall i | 0 <= i < |order| ensures EntryWritten(before, after, order[i], At(b, order[i]), tries[i]) {
      assert tries[i] in tries;
      EntryMeans(before, after, order[i], At(b, order[i]), tries[i]);
    }
  }

  function Attempts(tries: seq<Try>): seq<Step> {
    seq(|tries|, i requires 0 <= i < |tries| => Attempt(tries[i]))
  }

  lemma AttemptsExtend(tries: seq<Try>, n: nat)
    requires n < |tries|
    ensures Attempts(tries[..n + 1]) == Attempts(tries[..n]) + [Attempt(tries[n])]
  {}
}
