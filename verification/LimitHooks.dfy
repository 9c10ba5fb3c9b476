/**
 The hooks of ipstat_system_group_limit/main.c on the cached limit nodes, updated in place.
 Each is proved to take its step of LimitQuota and its steps of LimitTraffic, so that the
 bound of the one and the books of the other hold of the list.
 */
module LimitHooks {
  import opened Options
  import opened Store
  import opened GroupLimits
  import opened LimitQuota
  import T = LimitTraffic

  /** The traffic columns of a row of Rules_GroupTraffic. */
  datatype Row = Row(traffic: nat, tday: nat, tmonth: nat, active: bool)

  /** The insertion of nodes, in their order. */
  function Inserts(ids: seq<nat>, rows: seq<Row>): seq<T.Step>
    requires |rows| == |ids|
  {
    if ids == [] then []
    else
      var n := |ids| - 1;
      Inserts(ids[..n], rows[..n]) + [T.Insert(ids[n], rows[n].tday, rows[n].tmonth)]
  }

  lemma {:induction false} InsertsRun(ids: seq<nat>, rows: seq<Row>)
    requires |rows| == |ids| && forall i, j | 0 <= i < j < |ids| :: ids[i] != ids[j]
    ensures var s := T.Exec(Inserts(ids, rows));
            && s.sync == T.Idle && (forall id :: id in s.nodes <==> id in ids)
            && forall i | 0 <= i < |ids| :: s.nodes[ids[i]] == T.NewLedger(rows[i].tday, rows[i].tmonth)
  {
    if ids != [] {
      var n := |ids| - 1;
      InsertsRun(ids[..n], rows[..n]);
      T.ExecExtends(Inserts(ids[..n], rows[..n]), T.Insert(ids[n], rows[n].tday, rows[n].tmonth));
      assert ids == ids[..n] + [ids[n]];
    }
  }

  function Ids(nodes: seq<LimitNode>): seq<nat> {
    seq(|nodes|, i requires 0 <= i < |nodes| => nodes[i].id)
  }

  ghost function Alphas(nodes: seq<LimitNode>): seq<nat>
    reads nodes
  {
    seq(|nodes|, i requires 0 <= i < |nodes| reads nodes => nodes[i].alpha)
  }

  /** The books of a node agree with the node and its row between two calls. */
  ghost predicate Agrees(s: T.State, node: LimitNode, row: Row)
    reads node
  {
    && node.id in s.nodes
    && var l := s.nodes[node.id];
       l.alpha == node.alpha && l.inFlight == 0 && l.tday == row.tday && l.tmonth == row.tmonth
  }

  /** st_group_limit between two reconciliations, with the row of each node. */
  class LimitList {
    const nodes: seq<LimitNode>
    var rows: seq<Row>
    ghost var history: seq<T.Step>
    ghost var now: T.State

    ghost predicate Valid()
      reads this, nodes
    {
      && (forall i, j | 0 <= i < j < |nodes| :: nodes[i].id != nodes[j].id)
      && |rows| == |nodes| && now == T.Exec(history) && now.sync == T.Idle
      && (forall i | 0 <= i < |nodes| :: Agrees(now, nodes[i], rows[i]))
    }

    constructor (nodes: seq<LimitNode>, rows: seq<Row>)
      requires |rows| == |nodes| && forall i, j | 0 <= i < j < |nodes| :: nodes[i].id != nodes[j].id
      requires forall i | 0 <= i < |nodes| :: nodes[i].alpha == 0
      ensures Valid() && this.nodes == nodes && this.rows == rows && history == Inserts(Ids(nodes), rows)
    {
      InsertsRun(Ids(nodes), rows);
      this.nodes, this.rows := nodes, rows;
      history, now := Inserts(Ids(nodes), rows), T.Exec(Inserts(Ids(nodes), rows));
      new;
      assert forall i | 0 <= i < |nodes| :: Ids(nodes)[i] == nodes[i].id;
    }

    /** Takes note of a step. */
    ghost method Note(step: T.Step)
      requires now == T.Exec(history)
      modifies this`history, this`now
      ensures history == old(history) + [step] && now == T.Next(old(now), step) == T.Exec(history)
    {
      T.ExecExtends(history, step);
      history, now := history + [step], T.Next(now, step);
    }

    /** find_group_traffic. */
    method FindGroupTraffic(user: nat, group: nat) returns (node: LimitNode?)
      ensures if node == null then NoneFor(Configs(nodes), user, group)
              else exists i: nat :: FirstFor(Configs(nodes), i, user, group) && node == nodes[i]
    {
      ghost var configs := Configs(nodes);
      for i := 0 to |nodes|
        invariant forall j | 0 <= j < i :: configs[j].user != user || configs[j].group != group
      {
        if nodes[i].config.user == user && nodes[i].config.group == group {
          assert configs[i] == nodes[i].config;
          assert FirstFor(configs, i, user, group);
          return nodes[i];
        }
      }
      node := null;
    }

    /** my_autz. */
    method Autz(p: Packet) returns (flag: bool)
      ensures Gate(Configs(nodes), Traffics(nodes), p, flag)
      ensures flag == Verdict(Configs(nodes), State(Traffics(nodes), []), p)
    {
      flag := Admits(p);
      GateIsVerdict(Configs(nodes), Traffics(nodes), p, flag);
    }

    method Admits(p: Packet) returns (flag: bool)
      ensures Gate(Configs(nodes), Traffics(nodes), p, flag)
    {
      flag := true;
      var node := FindGroupTraffic(p.user, p.group);
      if node != null {
        var active := true;
        if node.config.blocked {
          active := false;
        } else if Quota(node.config) != UNLIMITED {
          if node.traffic >= Quota(node.config) {
            active := false;
          }
        }
        flag := active;
      }
    }

    /** my_acct: the first node for the packet gains its length, in traffic and in alpha, unless
        it is not to be summed. */
    method Acct(p: Packet)
      requires Valid()
      modifies nodes`traffic, nodes`alpha, this`history, this`now
      ensures Valid()
      ensures Charges(old(Configs(nodes)), p, old(Traffics(nodes)), Traffics(nodes))
      ensures Charges(old(Configs(nodes)), p, old(Alphas(nodes)), Alphas(nodes))
      ensures Noted(old(Configs(nodes)), p, old(history))
      ensures Traffics(nodes) == old(Apply(Configs(nodes), State(Traffics(nodes), [p]), Step.Acct(0)).traffic)
    {
      ghost var c, t := Configs(nodes), Traffics(nodes);
      AddPacket(p);
      ChargesIsStep(c, p, t, Traffics(nodes));
    }

    /** The books have the packet of the first node for it. */
    ghost predicate Noted(configs: seq<Config>, p: Packet, h: seq<T.Step>)
      requires |configs| == |nodes|
      reads this
    {
      && (p.notSum || NoneFor(configs, p.user, p.group) ==> history == h)
      && forall i: nat | FirstFor(configs, i, p.user, p.group) && !p.notSum :: history == h + [T.Acct(nodes[i].id, p.len)]
    }

    method AddPacket(p: Packet)
      requires Valid()
      modifies nodes`traffic, nodes`alpha, this`history, this`now
      ensures Valid()
      ensures Charges(old(Configs(nodes)), p, old(Traffics(nodes)), Traffics(nodes))
      ensures Charges(old(Configs(nodes)), p, old(Alphas(nodes)), Alphas(nodes))
      ensures Noted(old(Configs(nodes)), p, old(history))
    {
      if p.notSum {
        return;
      }
      var node := FindGroupTraffic(p.user, p.group);
      if node == null {
        return;
      }
      ghost var k: nat :| FirstFor(Configs(nodes), k, p.user, p.group) && node == nodes[k];
      ChargeFirst(node, p, k);
    }

    method ChargeFirst(node: LimitNode, p: Packet, ghost k: nat)
      requires Valid() && !p.notSum && FirstFor(Configs(nodes), k, p.user, p.group) && node == nodes[k]
      modifies nodes`traffic, nodes`alpha, this`history, this`now
      ensures Valid()
      ensures Charges(old(Configs(nodes)), p, old(Traffics(nodes)), Traffics(nodes))
      ensures Charges(old(Configs(nodes)), p, old(Alphas(nodes)), Alphas(nodes))
      ensures Noted(old(Configs(nodes)), p, old(history))
    {
      FirstIsOne(Configs(nodes), k, p.user, p.group);
      ChargesFirst(Configs(nodes), k, p, Traffics(nodes));
      ChargesFirst(Configs(nodes), k, p, Alphas(nodes));
      Charge(node, p.len, k);
    }

    /** Adds to the counters of node k. */
    method Charge(node: LimitNode, len: nat, ghost k: nat)
      requires Valid() && k < |nodes| && nodes[k] == node
      modifies node`traffic, node`alpha, this`history, this`now
      ensures Valid() && history == old(history) + [T.Acct(node.id, len)]
      ensures Traffics(nodes) == old(Traffics(nodes))[k := old(node.traffic) + len]
      ensures Alphas(nodes) == old(Alphas(nodes))[k := old(node.alpha) + len]
    {
      node.traffic := node.traffic + len;
      node.alpha := node.alpha + len;
      Note(T.Acct(node.id, len));
      assert forall i | 0 <= i < |nodes| && i != k :: nodes[i].id != node.id;
    }

    /** traverse_check over the list: the traffic of a closed period starts again. */
    method ClosePeriod(period: nat)
      requires Valid()
      modifies nodes`traffic
      ensures Valid()
      ensures forall j | 0 <= j < |nodes| ::
                nodes[j].traffic == if nodes[j].config.period == period then 0 else old(nodes[j].traffic)
      ensures Traffics(nodes) == Apply(Configs(nodes), State(old(Traffics(nodes)), []), Rollover(period)).traffic
    {
      for i := 0 to |nodes|
        invariant Valid()
        invariant forall j | 0 <= j < |nodes| ::
                    nodes[j].traffic == if j < i && nodes[j].config.period == period then 0 else old(nodes[j].traffic)
      {
        if nodes[i].config.period == period {
          nodes[i].traffic := 0;
        }
      }
    }

    /** gl_task_every_day; committed is the outcome of its transaction. */
    method TaskEveryDay(committed: bool)
      requires Valid()
      modifies nodes`traffic, this`rows, this`history, this`now
      ensures Valid() && history == old(history) + [T.CloseDay(committed)]
      ensures forall j | 0 <= j < |nodes| ::
                nodes[j].traffic == if nodes[j].config.period == 1 then 0 else old(nodes[j].traffic)
      ensures forall j | 0 <= j < |nodes| :: rows[j] == if committed then old(rows)[j].(tday := 0) else old(rows)[j]
      ensures Traffics(nodes) == Apply(Configs(nodes), State(old(Traffics(nodes)), []), Rollover(1)).traffic
    {
      ClosePeriod(1);
      CloseDayRows(committed);
    }

    /** Its transaction on the rows. */
    method CloseDayRows(committed: bool)
      requires Valid()
      modifies this`rows, this`history, this`now
      ensures Valid() && history == old(history) + [T.CloseDay(committed)]
      ensures forall j | 0 <= j < |nodes| :: rows[j] == if committed then old(rows)[j].(tday := 0) else old(rows)[j]
    {
      if committed {
        var was := rows;
        rows := seq(|was|, i requires 0 <= i < |was| => was[i].(tday := 0));
      }
      Note(T.CloseDay(committed));
    }

    /** gl_task_every_month. */
    method TaskEveryMonth(committed: bool)
      requires Valid()
      modifies nodes`traffic, this`rows, this`history, this`now
      ensures Valid() && history == old(history) + [T.CloseMonth(committed)]
      ensures forall j | 0 <= j < |nodes| ::
                nodes[j].traffic == if nodes[j].config.period == 3 then 0 else old(nodes[j].traffic)
      ensures forall j | 0 <= j < |nodes| :: rows[j] == if committed then old(rows)[j].(tmonth := 0) else old(rows)[j]
      ensures Traffics(nodes) == Apply(Configs(nodes), State(old(Traffics(nodes)), []), Rollover(3)).traffic
    {
      ClosePeriod(3);
      CloseMonthRows(committed);
    }

    /** Its transaction on the rows. */
    method CloseMonthRows(committed: bool)
      requires Valid()
      modifies this`rows, this`history, this`now
      ensures Valid() && history == old(history) + [T.CloseMonth(committed)]
      ensures forall j | 0 <= j < |nodes| :: rows[j] == if committed then old(rows)[j].(tmonth := 0) else old(rows)[j]
    {
      if committed {
        var was := rows;
        rows := seq(|was|, i requires 0 <= i < |was| => was[i].(tmonth := 0));
      }
      Note(T.CloseMonth(committed));
    }

    /** What a pass of sync_traffic has done to node j and its row. */
    ghost predicate Synced(j: nat, done: bool, alpha: nat, row: Row)
      requires |rows| == |nodes| && j < |nodes|
      reads this, nodes
    {
      if done then
        && nodes[j].alpha == 0 && rows[j].traffic == nodes[j].traffic
        && rows[j].tday == row.tday + alpha % WORD && rows[j].tmonth == row.tmonth + alpha % WORD
        && (rows[j].active <==> Allows(nodes[j].config, nodes[j].traffic))
      else nodes[j].alpha == alpha && rows[j] == row
    }

    /** sync_traffic with nothing in between, one Copy, Update and Restore for each node: the
        nodes whose update worked hand alpha over to their rows, together with their traffic
        and verdict, and all others are as before. */
    method SyncTraffic(outcomes: seq<bool>)
      requires Valid() && |outcomes| == |nodes|
      modifies this`rows, nodes`alpha, this`history, this`now
      ensures Valid() && history == old(history) + SyncSteps(Ids(nodes), outcomes)
      ensures Passed(|nodes|, outcomes, old(Alphas(nodes)), old(rows))
    {
      ghost var alphas, before := Alphas(nodes), rows;
      for i := 0 to |nodes|
        invariant Valid() && history == old(history) + SyncSteps(Ids(nodes)[..i], outcomes[..i])
        invariant Passed(i, outcomes, alphas, before)
      {
        SyncStepsExtend(Ids(nodes), outcomes, i);
        SyncTurn(i, outcomes, alphas, before);
      }
      assert Ids(nodes)[..|nodes|] == Ids(nodes) && outcomes[..|nodes|] == outcomes;
    }

    /** The pass has done its first n nodes and no other. */
    ghost predicate Passed(n: nat, outcomes: seq<bool>, alphas: seq<nat>, before: seq<Row>)
      requires |rows| == |nodes| == |outcomes| == |alphas| == |before|
      reads this, nodes
    {
      forall j | 0 <= j < |nodes| :: Synced(j, j < n && outcomes[j], alphas[j], before[j])
    }

    method SyncTurn(i: nat, outcomes: seq<bool>, ghost alphas: seq<nat>, ghost before: seq<Row>)
      requires Valid() && i < |nodes| && |outcomes| == |alphas| == |before| == |nodes|
      requires Passed(i, outcomes, alphas, before)
      modifies this`rows, nodes`alpha, this`history, this`now
      ensures Valid() && history == old(history) + [T.Copy(nodes[i].id), T.Update(outcomes[i]), T.Restore]
      ensures Passed(i + 1, outcomes, alphas, before)
    {
      assert Synced(i, false, alphas[i], before[i]);
      SyncOne(i, outcomes[i]);
    }

    /** One turn: copy and clear under the lock, update, restore on failure. */
    method SyncOne(i: nat, ok: bool)
      requires Valid() && i < |nodes|
      modifies this`rows, nodes`alpha, this`history, this`now
      ensures Valid() && history == old(history) + [T.Copy(nodes[i].id), T.Update(ok), T.Restore]
      ensures Synced(i, ok, old(nodes[i].alpha), old(rows)[i])
      ensures forall j | 0 <= j < |nodes| && j != i :: nodes[j].alpha == old(nodes[j].alpha) && rows[j] == old(rows)[j]
    {
      var node := nodes[i];
      var alpha, traffic := node.alpha, node.traffic;
      node.alpha := 0;
      Note(T.Copy(node.id));
      var active := !node.config.blocked && !(Quota(node.config) != UNLIMITED && traffic >= Quota(node.config));
      Note(T.Update(ok));
      if ok {
        var printed := alpha % WORD;
        rows := rows[i := Row(traffic, rows[i].tday + printed, rows[i].tmonth + printed, active)];
      } else {
        node.alpha := node.alpha + alpha;
      }
      Note(T.Restore);
    }
  }

  /** The steps of a pass of sync_traffic. */
  function SyncSteps(ids: seq<nat>, outcomes: seq<bool>): seq<T.Step>
    requires |outcomes| == |ids|
  {
    if ids == [] then []
    else
      var n := |ids| - 1;
      SyncSteps(ids[..n], outcomes[..n]) + [T.Copy(ids[n]), T.Update(outcomes[n]), T.Restore]
  }

  lemma SyncStepsExtend(ids: seq<nat>, outcomes: seq<bool>, n: nat)
    requires |outcomes| == |ids| && n < |ids|
    ensures SyncSteps(ids[..n + 1], outcomes[..n + 1]) ==
            SyncSteps(ids[..n], outcomes[..n]) + [T.Copy(ids[n]), T.Update(outcomes[n]), T.Restore]
  {
    assert ids[..n + 1][..n] == ids[..n] && outcomes[..n + 1][..n] == outcomes[..n];
  }
}
