/**
 The reconciliation of ipstat_system_group_limit/main.c: sync_limits marks all cached limit
 nodes, walks the rows of the table to refresh or insert nodes, and sweeps the nodes that
 are still marked.
 */
module LimitSync {
  import opened Options
  import opened GroupLimits

  /** A row of Rules_GroupTraffic with the fingerprint the database computes for it, and
      whether the query that fetches its fields works. */
  datatype Row = Row(id: nat, config: Config, md5: string, traffic: nat, ok: bool)

  // ---------- the fingerprint ----------

  function Digit(d: nat): char
    requires d < 10
  {
    "0123456789"[d]
  }

  function Decimal(n: nat): string {
    if n < 10 then [Digit(n)] else Decimal(n / 10) + [Digit(n % 10)]
  }

  function Signed(n: int): string { if n < 0 then "-" + Decimal(-n) else Decimal(n) }

  /** What md5 is applied to; md5 itself is taken to be injective. */
  function Fingerprint(c: Config): string {
    Decimal(c.user) + Decimal(c.group) + Decimal(c.period) + Signed(c.limitation) + (if c.blocked then "1" else "0")
  }

  /** The fields are joined without a separator, so different rows can have one fingerprint. */
  lemma FingerprintsCollide()
    ensures var a, b := Config(1, 23, 1, 500, false), Config(12, 3, 1, 500, false);
            a != b && Fingerprint(a) == Fingerprint(b)
  {
    assert Decimal(23) == "23" && Decimal(12) == "12";
    assert Decimal(1) + Decimal(23) == Decimal(12) + Decimal(3);
  }

  /** The fields in the order of the query. */
  lemma FingerprintExample()
    ensures Fingerprint(Config(1, 23, 4, -500, true)) == "1234-5001"
  {
    assert Decimal(23) == "23" && Decimal(500) == "500";
  }

  // ---------- the pass on values ----------

  function NewLimit(row: Row): Limit {
    Limit(row.id, row.config, row.traffic, 0, false, row.md5)
  }

  /** find_limit: the first node with the id. */
  function IndexOf(ls: seq<Limit>, id: nat): (r: Option<nat>)
    ensures r.Some? ==> r.value < |ls| && ls[r.value].id == id
  {
    if ls == [] then None
    else if ls[0].id == id then Some(0)
    else
      var rest := IndexOf(ls[1..], id);
      if rest.Some? then Some(rest.value + 1) else None
  }

  lemma {:induction false} IndexIsFirst(ls: seq<Limit>, id: nat)
    ensures forall i | 0 <= i < |ls| && (IndexOf(ls, id).Some? ==> i < IndexOf(ls, id).value) :: ls[i].id != id
  {
    if ls != [] && ls[0].id != id {
      IndexIsFirst(ls[1..], id);
      assert forall i | 0 < i < |ls| :: ls[i] == ls[1..][i - 1];
    }
  }

  /** A node meets its row: it is unmarked, and update_limit runs if the fingerprints differ. */
  function Meet(l: Limit, row: Row): Limit {
    if l.md5 != row.md5 && row.ok
    then l.(marked := false, config := row.config, md5 := row.md5)
    else l.(marked := false)
  }

  function SyncRow(ls: seq<Limit>, row: Row): seq<Limit> {
    match IndexOf(ls, row.id)
    case Some(i) => ls[i := Meet(ls[i], row)]
    case None => if row.ok then ls + [NewLimit(row)] else ls
  }

  function SyncRows(ls: seq<Limit>, rows: seq<Row>): seq<Limit> {
    if rows == [] then ls else SyncRow(SyncRows(ls, rows[..|rows| - 1]), rows[|rows| - 1])
  }

  function Mark(ls: seq<Limit>): seq<Limit> {
    seq(|ls|, i requires 0 <= i < |ls| => ls[i].(marked := true))
  }

  function Sweep(ls: seq<Limit>): seq<Limit> {
    if ls == [] then []
    else Sweep(ls[..|ls| - 1]) + if ls[|ls| - 1].marked then [] else [ls[|ls| - 1]]
  }

  function Pass(ls: seq<Limit>, rows: seq<Row>): seq<Limit> { Sweep(SyncRows(Mark(ls), rows)) }

  // ---------- what a pass should leave ----------

  /** The row of an id. */
  function RowFor(rows: seq<Row>, id: nat): (r: Option<Row>)
    ensures r.Some? ==> r.value in rows && r.value.id == id
    ensures r.None? ==> forall row | row in rows :: row.id != id
  {
    if rows == [] then None
    else
      var n := |rows| - 1;
      assert rows == rows[..n] + [rows[n]];
      if rows[n].id == id then Some(rows[n]) else RowFor(rows[..n], id)
  }

  /** The old nodes that still have a row, in their order, refreshed. */
  function Survivors(ls: seq<Limit>, rows: seq<Row>): seq<Limit> {
    if ls == [] then []
    else
      var n := |ls| - 1;
      Survivors(ls[..n], rows) +
      match RowFor(rows, ls[n].id) {
        case None => []
        case Some(row) => [Meet(ls[n], row)]
      }
  }

  /** The nodes of the rows that had none, in table order. */
  function Newcomers(ls: seq<Limit>, rows: seq<Row>): seq<Limit> {
    if rows == [] then []
    else
      var n := |rows| - 1;
      Newcomers(ls, rows[..n]) +
      if rows[n].ok && IndexOf(ls, rows[n].id).None? then [NewLimit(rows[n])] else []
  }

  ghost predicate UniqueIds(ls: seq<Limit>) {
    forall i, j | 0 <= i < j < |ls| :: ls[i].id != ls[j].id
  }

  ghost predicate UniqueRows(rows: seq<Row>) {
    forall i, j | 0 <= i < j < |rows| :: rows[i].id != rows[j].id
  }

  /** A node while the rows are walked: marked until its row has come by. */
  function Touch(l: Limit, rows: seq<Row>): Limit {
    match RowFor(rows, l.id)
    case None => l.(marked := true)
    case Some(row) => Meet(l, row)
  }

  function TouchAll(ls: seq<Limit>, rows: seq<Row>): seq<Limit> {
    seq(|ls|, i requires 0 <= i < |ls| => Touch(ls[i], rows))
  }

  lemma {:induction false} NewcomersHaveRows(ls: seq<Limit>, rows: seq<Row>, i: nat)
    requires i < |Newcomers(ls, rows)|
    ensures RowFor(rows, Newcomers(ls, rows)[i].id).Some? && !Newcomers(ls, rows)[i].marked
  {
    var n := |rows| - 1;
    if i < |Newcomers(ls, rows[..n])| {
      NewcomersHaveRows(ls, rows[..n], i);
    }
  }

  lemma {:induction false} IndexSplit(a: seq<Limit>, b: seq<Limit>, id: nat)
    ensures IndexOf(a + b, id) ==
            if IndexOf(a, id).Some? then IndexOf(a, id)
            else if IndexOf(b, id).Some? then Some(|a| + IndexOf(b, id).value)
            else None
  {
    if a == [] {
      assert a + b == b;
    } else {
      assert (a + b)[0] == a[0] && (a + b)[1..] == a[1..] + b;
      IndexSplit(a[1..], b, id);
    }
  }

  lemma {:induction false} IndexTouched(ls: seq<Limit>, rows: seq<Row>, id: nat)
    ensures IndexOf(TouchAll(ls, rows), id) == IndexOf(ls, id)
  {
    if ls != [] {
      assert TouchAll(ls, rows)[1..] == TouchAll(ls[1..], rows);
      IndexTouched(ls[1..], rows, id);
    }
  }

  /** One more row touches one old node, or adds a newcomer, or changes nothing. */
  lemma TouchOneMore(ls: seq<Limit>, rows: seq<Row>, row: Row)
    requires UniqueIds(ls) && RowFor(rows, row.id) == None
    ensures TouchAll(ls, rows + [row]) ==
            match IndexOf(ls, row.id) {
              case None => TouchAll(ls, rows)
              case Some(i) => TouchAll(ls, rows)[i := Meet(ls[i].(marked := true), row)]
            }
  {
    assert (rows + [row])[..|rows|] == rows;
    IndexIsFirst(ls, row.id);
  }

  lemma RowIsNew(rows: seq<Row>)
    requires UniqueRows(rows) && rows != []
    ensures RowFor(rows[..|rows| - 1], rows[|rows| - 1].id) == None
  {}

  lemma WalkIndex(ls: seq<Limit>, rows: seq<Row>, row: Row)
    requires RowFor(rows, row.id) == None
    ensures IndexOf(TouchAll(ls, rows) + Newcomers(ls, rows), row.id) == IndexOf(ls, row.id)
  {
    var added := Newcomers(ls, rows);
    IndexSplit(TouchAll(ls, rows), added, row.id);
    IndexTouched(ls, rows, row.id);
    if IndexOf(added, row.id).Some? {
      NewcomersHaveRows(ls, rows, IndexOf(added, row.id).value);
    }
  }

  lemma NewcomersExtend(ls: seq<Limit>, rows: seq<Row>, row: Row)
    ensures Newcomers(ls, rows + [row]) ==
            Newcomers(ls, rows) + if row.ok && IndexOf(ls, row.id).None? then [NewLimit(row)] else []
  {
    assert (rows + [row])[..|rows|] == rows;
  }

  lemma SyncRowSplit(t: seq<Limit>, added: seq<Limit>, row: Row)
    requires IndexOf(t + added, row.id) == IndexOf(t, row.id)
    ensures SyncRow(t + added, row) ==
            match IndexOf(t, row.id) {
              case Some(i) => t[i := Meet(t[i], row)] + added
              case None => t + (added + if row.ok then [NewLimit(row)] else [])
            }
  {
    match IndexOf(t, row.id)
    case Some(i) => assert (t + added)[i := Meet(t[i], row)] == t[i := Meet(t[i], row)] + added;
    case None =>
  }

  lemma WalkRow(ls: seq<Limit>, rows: seq<Row>, row: Row)
    requires UniqueIds(ls) && RowFor(rows, row.id) == None
    ensures SyncRow(TouchAll(ls, rows) + Newcomers(ls, rows), row) ==
            TouchAll(ls, rows + [row]) + Newcomers(ls, rows + [row])
  {
    WalkIndex(ls, rows, row);
    IndexTouched(ls, rows, row.id);
    SyncRowSplit(TouchAll(ls, rows), Newcomers(ls, rows), row);
    NewcomersExtend(ls, rows, row);
    TouchOneMore(ls, rows, row);
  }

  lemma {:induction false} RowsWalked(ls: seq<Limit>, rows: seq<Row>)
    requires UniqueIds(ls) && UniqueRows(rows)
    ensures SyncRows(Mark(ls), rows) == TouchAll(ls, rows) + Newcomers(ls, rows)
  {
    if rows == [] {
      assert TouchAll(ls, []) == Mark(ls);
    } else {
      var front, row := rows[..|rows| - 1], rows[|rows| - 1];
      RowsWalked(ls, front);
      RowIsNew(rows);
      WalkRow(ls, front, row);
      assert rows == front + [row];
    }
  }

  lemma {:induction false} SweepSplit(a: seq<Limit>, b: seq<Limit>)
    requires forall i | 0 <= i < |b| :: !b[i].marked
    ensures Sweep(a + b) == Sweep(a) + b
  {
    if b == [] {
      assert a + b == a;
    } else {
      var n := |b| - 1;
      assert (a + b)[..|a| + n] == a + b[..n];
      SweepSplit(a, b[..n]);
    }
  }

  lemma {:induction false} SweepTouched(ls: seq<Limit>, rows: seq<Row>)
    ensures Sweep(TouchAll(ls, rows)) == Survivors(ls, rows)
  {
    if ls != [] {
      var n := |ls| - 1;
      assert TouchAll(ls, rows)[..n] == TouchAll(ls[..n], rows);
      SweepTouched(ls[..n], rows);
    }
  }

  /** A pass leaves the old nodes that have a row, in their order and with their traffic and
      alpha, followed by the new ones in table order, and nothing else. */
  lemma PassMeaning(ls: seq<Limit>, rows: seq<Row>)
    requires UniqueIds(ls) && UniqueRows(rows)
    ensures Pass(ls, rows) == Survivors(ls, rows) + Newcomers(ls, rows)
  {
    RowsWalked(ls, rows);
    forall i | 0 <= i < |Newcomers(ls, rows)| ensures !Newcomers(ls, rows)[i].marked {
      NewcomersHaveRows(ls, rows, i);
    }
    SweepSplit(TouchAll(ls, rows), Newcomers(ls, rows));
    SweepTouched(ls, rows);
  }

  // ---------- agreement with the table ----------

  lemma {:induction false} SurvivorIds(ls: seq<Limit>, rows: seq<Row>, id: nat)
    ensures var k, k' := IndexOf(ls, id), IndexOf(Survivors(ls, rows), id);
            && (k'.Some? <==> k.Some? && RowFor(rows, id).Some?)
            && (k'.Some? ==> Survivors(ls, rows)[k'.value] == Meet(ls[k.value], RowFor(rows, id).value))
  {
    if ls != [] {
      var front, last := ls[..|ls| - 1], ls[|ls| - 1];
      SurvivorIds(front, rows, id);
      assert ls == front + [last];
      IndexSplit(front, [last], id);
      var row := RowFor(rows, last.id);
      if row.Some? {
        IndexSplit(Survivors(front, rows), [Meet(last, row.value)], id);
      } else {
        assert Survivors(ls, rows) == Survivors(front, rows);
      }
    }
  }

  lemma {:induction false} NewcomerIds(ls: seq<Limit>, rows: seq<Row>, id: nat)
    requires UniqueRows(rows)
    ensures var k, row := IndexOf(Newcomers(ls, rows), id), RowFor(rows, id);
            && (k.Some? <==> IndexOf(ls, id).None? && row.Some? && row.value.ok)
            && (k.Some? ==> Newcomers(ls, rows)[k.value] == NewLimit(row.value))
  {
    if rows != [] {
      var front, row := rows[..|rows| - 1], rows[|rows| - 1];
      NewcomerIds(ls, front, id);
      RowIsNew(rows);
      assert rows == front + [row];
      NewcomersExtend(ls, front, row);
      IndexSplit(Newcomers(ls, front), if row.ok && IndexOf(ls, row.id).None? then [NewLimit(row)] else [], id);
    }
  }

  /** After a pass a node is cached for exactly the ids of the table, except for new rows
      whose query failed. */
  lemma PassIds(ls: seq<Limit>, rows: seq<Row>, id: nat)
    requires UniqueIds(ls) && UniqueRows(rows)
    ensures IndexOf(Pass(ls, rows), id).Some? <==>
            RowFor(rows, id).Some? && (RowFor(rows, id).value.ok || IndexOf(ls, id).Some?)
  {
    PassMeaning(ls, rows);
    IndexSplit(Survivors(ls, rows), Newcomers(ls, rows), id);
    SurvivorIds(ls, rows, id);
    NewcomerIds(ls, rows, id);
  }

  /** A refreshed node equals its row unless the row changed without changing the fingerprint,
      or its query failed; traffic and alpha are untouched. */
  lemma MeetMatchesIff(l: Limit, row: Row)
    requires l.md5 == Fingerprint(l.config) && row.md5 == Fingerprint(row.config)
    ensures Meet(l, row).config == row.config <==>
            l.config == row.config || (row.ok && Fingerprint(l.config) != Fingerprint(row.config))
    ensures Meet(l, row).md5 == Fingerprint(Meet(l, row).config)
    ensures Meet(l, row).traffic == l.traffic && Meet(l, row).alpha == l.alpha && Meet(l, row).id == l.id
  {}

  /** The row of a cached node changed and its fingerprint did not. */
  predicate Collides(ls: seq<Limit>, row: Row) {
    var k := IndexOf(ls, row.id);
    k.Some? && ls[k.value].config != row.config && Fingerprint(ls[k.value].config) == Fingerprint(row.config)
  }

  /** After a pass every row that could be read has a node with the configuration of the row,
      if and only if its fingerprint does not collide with that of the node before. An old
      node keeps its traffic and alpha, a new one starts with the traffic of the row. */
  lemma PassAgrees(ls: seq<Limit>, rows: seq<Row>, i: nat)
    requires UniqueIds(ls) && UniqueRows(rows) && i < |rows| && rows[i].ok
    requires forall l | l in ls :: l.md5 == Fingerprint(l.config)
    requires rows[i].md5 == Fingerprint(rows[i].config)
    ensures var k, k' := IndexOf(ls, rows[i].id), IndexOf(Pass(ls, rows), rows[i].id);
            && k'.Some?
            && var l := Pass(ls, rows)[k'.value];
               && (l.config == rows[i].config <==> !Collides(ls, rows[i]))
               && l.md5 == Fingerprint(l.config)
               && (if k.Some? then l.traffic == ls[k.value].traffic && l.alpha == ls[k.value].alpha
                   else l.traffic == rows[i].traffic && l.alpha == 0)
  {
    var id := rows[i].id;
    PassMeaning(ls, rows);
    IndexSplit(Survivors(ls, rows), Newcomers(ls, rows), id);
    SurvivorIds(ls, rows, id);
    NewcomerIds(ls, rows, id);
    RowForIs(rows, i);
    if IndexOf(ls, id).Some? {
      MeetMatchesIff(ls[IndexOf(ls, id).value], rows[i]);
    }
  }

  lemma RowForIs(rows: seq<Row>, i: nat)
    requires UniqueRows(rows) && i < |rows|
    ensures RowFor(rows, rows[i].id) == Some(rows[i])
  {
    var row := RowFor(rows, rows[i].id);
    assert rows[i] in rows;
    var j :| 0 <= j < |rows| && rows[j] == row.value;
  }

  lemma UniqueJoin(a: seq<Limit>, b: seq<Limit>)
    requires UniqueIds(a) && UniqueIds(b)
    requires forall i | 0 <= i < |b| :: IndexOf(a, b[i].id).None?
    ensures UniqueIds(a + b)
  {
    forall i, j | 0 <= i < |a| && 0 <= j < |b| ensures a[i].id != b[j].id {
      IndexIsFirst(a, b[j].id);
    }
  }

  lemma {:induction false} SurvivorsUnique(ls: seq<Limit>, rows: seq<Row>)
    requires UniqueIds(ls)
    ensures UniqueIds(Survivors(ls, rows))
  {
    if ls != [] {
      var n := |ls| - 1;
      var front, row := Survivors(ls[..n], rows), RowFor(rows, ls[n].id);
      SurvivorsUnique(ls[..n], rows);
      SurvivorIds(ls[..n], rows, ls[n].id);
      if row.Some? {
        UniqueJoin(front, [Meet(ls[n], row.value)]);
      }
    }
  }

  lemma {:induction false} NewcomersUnique(ls: seq<Limit>, rows: seq<Row>)
    requires UniqueRows(rows)
    ensures UniqueIds(Newcomers(ls, rows))
  {
    if rows != [] {
      var front, row := rows[..|rows| - 1], rows[|rows| - 1];
      NewcomersUnique(ls, front);
      RowIsNew(rows);
      NewcomerIds(ls, front, row.id);
      UniqueJoin(Newcomers(ls, front), [NewLimit(row)]);
    }
  }

  /** Ids stay unique, so that passes can follow each other. */
  lemma PassKeepsUnique(ls: seq<Limit>, rows: seq<Row>)
    requires UniqueIds(ls) && UniqueRows(rows)
    ensures UniqueIds(Pass(ls, rows))
  {
    PassMeaning(ls, rows);
    SurvivorsUnique(ls, rows);
    NewcomersUnique(ls, rows);
    var a, b := Survivors(ls, rows), Newcomers(ls, rows);
    forall i | 0 <= i < |b| ensures IndexOf(a, b[i].id).None? {
      IndexIsFirst(b, b[i].id);
      SurvivorIds(ls, rows, b[i].id);
      NewcomerIds(ls, rows, b[i].id);
    }
    UniqueJoin(a, b);
  }

  // ---------- the list in place ----------

  lemma ViewsWithout(nodes: seq<LimitNode>, i: nat)
    requires i < |nodes|
    ensures Views(nodes[..i] + nodes[i + 1..]) == Views(nodes)[..i] + Views(nodes)[i + 1..]
  {}

  /** st_group_limit and the functions that reconcile it. */
  class LimitTable {
    var nodes: seq<LimitNode>
    ghost var repr: set<LimitNode>  // every node inserted so far

    ghost predicate Valid()
      reads this, nodes
    {
      (forall n | n in nodes :: n in repr) && UniqueIds(Views(nodes))
    }

    /** find_limit. */
    method FindLimit(id: nat) returns (node: LimitNode?)
      ensures var k := IndexOf(Views(nodes), id);
              if k.None? then node == null else node == nodes[k.value]
    {
      IndexIsFirst(Views(nodes), id);
      for i := 0 to |nodes|
        invariant forall j | 0 <= j < i :: Views(nodes)[j].id != id
      {
        if nodes[i].id == id {
          assert Views(nodes)[i].id == id;
          return nodes[i];
        }
      }
      node := null;
    }

    /** mark_delete. */
    method MarkDelete()
      requires Valid()
      modifies repr`marked
      ensures Views(nodes) == Mark(old(Views(nodes))) && Valid()
    {
      for i := 0 to |nodes|
        invariant forall j | 0 <= j < i :: nodes[j].marked
      {
        nodes[i].marked := true;
      }
    }

    /** A cached node meets its row; update_limit. */
    method UpdateLimit(node: LimitNode, ghost k: nat, row: Row)
      requires Valid() && k < |nodes| && nodes[k] == node
      modifies node`config, node`marked, node`md5
      ensures Views(nodes) == old(Views(nodes))[k := Meet(old(Views(nodes))[k], row)]
    {
      assert forall i | 0 <= i < |nodes| && i != k :: Views(nodes)[i].id != Views(nodes)[k].id;
      node.marked := false;
      if node.md5 != row.md5 && row.ok {
        node.config := row.config;
        node.md5 := row.md5;
      }
    }

    /** insert_limit. */
    method InsertLimit(row: Row)
      modifies this
      ensures |nodes| == |old(nodes)| + 1 && nodes[..|old(nodes)|] == old(nodes)
      ensures fresh(nodes[|old(nodes)|]) && repr == old(repr) + {nodes[|old(nodes)|]}
      ensures Views(nodes) == old(Views(nodes)) + [NewLimit(row)]
    {
      var n := new LimitNode(row.id, row.config, row.traffic, row.md5);
      nodes, repr := nodes + [n], repr + {n};
    }

    /** One turn of the row loop of sync_limits. */
    method MeetRow(row: Row)
      requires Valid()
      modifies this, repr`config, repr`marked, repr`md5
      ensures Views(nodes) == SyncRow(old(Views(nodes)), row) && Valid()
      ensures fresh(repr - old(repr))
    {
      SyncRowUnique(Views(nodes), row);
      var node := FindLimit(row.id);
      if node != null {
        UpdateLimit(node, IndexOf(Views(nodes), row.id).value, row);
      } else if row.ok {
        InsertLimit(row);
        assert forall i | 0 <= i < |old(nodes)| :: nodes[i] == old(nodes)[i];
      }
    }

    /** delete_limit: finds the node and unlinks the first cell that points to it. */
    method DeleteLimit(id: nat)
      requires Valid()
      modifies this`nodes
      ensures Valid() && Views(nodes) == Removed(old(Views(nodes)), id)
    {
      ghost var k := IndexOf(Views(nodes), id);
      var node := FindLimit(id);
      if node == null {
        return;
      }
      IndexIsFirst(Views(nodes), id);
      RemovedUnique(Views(nodes), id);
      for i := 0 to |nodes|
        invariant nodes == old(nodes) && i <= k.value
      {
        if nodes[i] == node {
          assert Views(nodes)[i].id == id;
          ViewsWithout(nodes, i);
          nodes := nodes[..i] + nodes[i + 1..];
          return;
        }
      }
    }

    /** limits_delete: the marked nodes go, the rest keep their order. */
    method LimitsDelete()
      requires Valid()
      modifies this`nodes
      ensures Views(nodes) == Sweep(old(Views(nodes))) && Valid()
    {
      var l := nodes;
      ghost var v := Views(l);
      for k := 0 to |l|
        invariant Valid() && v == Views(l) && Views(nodes) == Sweep(v[..k]) + v[k..]
      {
        SweepNode(l[k], v, k);
      }
      assert v[..|l|] == v;
    }

    /** One turn of limits_delete, at node k of the original list. */
    method SweepNode(node: LimitNode, ghost v: seq<Limit>, ghost k: nat)
      requires Valid() && k < |v| && UniqueIds(v) && node.View() == v[k]
      requires Views(nodes) == Sweep(v[..k]) + v[k..]
      modifies this`nodes
      ensures Valid() && Views(nodes) == Sweep(v[..k + 1]) + v[k + 1..]
    {
      SweepPlace(Views(nodes), v, k);
      if node.marked {
        DeleteLimit(node.id);
      }
    }

    /** sync_limits, from the marking to the sweep. */
    method SyncLimits(rows: seq<Row>)
      requires Valid() && UniqueRows(rows)
      modifies this, repr`config, repr`marked, repr`md5
      ensures Views(nodes) == Pass(old(Views(nodes)), rows) && Valid()
    {
      MarkDelete();
      ghost var v := Views(nodes);
      for k := 0 to |rows|
        invariant Valid() && Views(nodes) == SyncRows(v, rows[..k])
        invariant fresh(repr - old(repr))
      {
        assert rows[..k + 1][..k] == rows[..k];
        MeetRow(rows[k]);
      }
      assert rows[..|rows|] == rows;
      LimitsDelete();
    }
  }

  lemma {:induction false} SweepIds(ls: seq<Limit>, id: nat)
    requires IndexOf(ls, id).None?
    ensures IndexOf(Sweep(ls), id).None?
  {
    if ls != [] {
      var front, last := ls[..|ls| - 1], ls[|ls| - 1];
      assert ls == front + [last];
      IndexSplit(front, [last], id);
      SweepIds(front, id);
      IndexSplit(Sweep(front), if last.marked then [] else [last], id);
    }
  }

  /** Where the sweep stands before it looks at node k. */
  lemma SweepPlace(was: seq<Limit>, v: seq<Limit>, k: nat)
    requires k < |v| && UniqueIds(v) && was == Sweep(v[..k]) + v[k..]
    ensures Sweep(v[..k + 1]) + v[k + 1..] == if v[k].marked then Removed(was, v[k].id) else was
  {
    var s, rest := Sweep(v[..k]), v[k + 1..];
    assert v[k..] == [v[k]] + rest;
    assert v[..k + 1][..k] == v[..k];
    SweepIds(v[..k], v[k].id);
    RemovedAt(s, v[k], rest);
  }

  lemma RemovedAt(s: seq<Limit>, l: Limit, rest: seq<Limit>)
    requires IndexOf(s, l.id).None?
    ensures Removed(s + ([l] + rest), l.id) == s + rest
    ensures s + ([l] + rest) == (s + [l]) + rest
  {
    FoundAt(s, l, rest);
    CutOut(s, l, rest);
  }

  lemma FoundAt(s: seq<Limit>, l: Limit, rest: seq<Limit>)
    requires IndexOf(s, l.id).None?
    ensures IndexOf(s + ([l] + rest), l.id) == Some(|s|)
  {
    var tail := [l] + rest;
    assert tail[0] == l;
    IndexSplit(s, tail, l.id);
  }

  lemma CutOut(s: seq<Limit>, l: Limit, rest: seq<Limit>)
    ensures var all := s + ([l] + rest); all[..|s|] + all[|s| + 1..] == s + rest
  {
    var all := s + ([l] + rest);
    assert all[..|s|] == s;
    assert all[|s| + 1..] == rest;
  }

  /** delete_limit on values. */
  function Removed(ls: seq<Limit>, id: nat): seq<Limit> {
    match IndexOf(ls, id)
    case None => ls
    case Some(k) => ls[..k] + ls[k + 1..]
  }

  lemma RemovedUnique(ls: seq<Limit>, id: nat)
    requires UniqueIds(ls)
    ensures UniqueIds(Removed(ls, id))
  {}

  lemma SyncRowUnique(ls: seq<Limit>, row: Row)
    requires UniqueIds(ls)
    ensures UniqueIds(SyncRow(ls, row))
  {
    IndexIsFirst(ls, row.id);
  }
}
