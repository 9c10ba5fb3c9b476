/**
 The thread handles of src/threads.c: a doubly linked list threaded through the pool, which
 spawning extends, dropping unlinks from and the cleaner sweeps.
 */
module HandleList {
  import opened Seqs

  datatype Status = Running | Cancelled | Exited

  class Handle {
    const num: nat
    var status: Status
    var sleeping: bool
    var requestCount: nat
    var prev: Handle?
    var next: Handle?

    constructor (num: nat)
      ensures this.num == num && status == Running && sleeping && requestCount == 0
      ensures prev == null && next == null
    {
      this.num, status, sleeping, requestCount := num, Running, true, 0;
      prev, next := null, null;
    }
  }

  /** The links of the handles follow the list in both directions. */
  ghost predicate Linked(list: seq<Handle>)
    reads list
  {
    && Distinct(list)
    && (forall i, j | 0 <= i < j < |list| && j == i + 1 :: list[i].next == list[j] && list[j].prev == list[i])
    && (list != [] ==> list[0].prev == null && list[|list| - 1].next == null)
  }

  lemma Neighbours(list: seq<Handle>, m: nat)
    requires Linked(list) && m < |list|
    ensures list[m].next == if m + 1 < |list| then list[m + 1] else null
    ensures list[m].prev == if m > 0 then list[m - 1] else null
  {
    var p := m - 1;
    assert m > 0 ==> list[p].next == list[m];
  }

  /** Handle k has been bridged: the others are linked as a list of their own. */
  lemma LinkedWithout(l: seq<Handle>, k: nat)
    requires k < |l| && Distinct(l)
    requires forall i, j | 0 <= i < j < |l| && j == i + 1 && i != k && j != k :: l[i].next == l[j] && l[j].prev == l[i]
    requires 0 < k < |l| - 1 ==> l[k - 1].next == l[k + 1] && l[k + 1].prev == l[k - 1]
    requires if k == 0 then |l| > 1 ==> l[1].prev == null else l[0].prev == null
    requires if k == |l| - 1 then k > 0 ==> l[k - 1].next == null else l[|l| - 1].next == null
    ensures Linked(Without(l, k))
  {
    var s := Without(l, k);
    forall i, j | 0 <= i < j < |s| && j == i + 1 ensures s[i].next == s[j] && s[j].prev == s[i] {
      if i >= k {
        var i', j' := i + 1, j + 1;
        assert l[i'].next == l[j'];
      }
    }
  }

  class HandlePool {
    const maxThreads: nat
    var head: Handle?
    var tail: Handle?
    var totalThreads: nat
    var nextNum: nat
    ghost var list: seq<Handle>
    ghost var repr: set<Handle>  // every handle spawned so far

    ghost predicate Valid()
      reads this, repr
    {
      && (forall h | h in list :: h in repr)
      && Linked(list)
      && head == (if list == [] then null else list[0])
      && tail == (if list == [] then null else list[|list| - 1])
      && totalThreads == |list| <= maxThreads
    }

    constructor (maxThreads: nat)
      ensures Valid() && list == [] && repr == {} && this.maxThreads == maxThreads
    {
      this.maxThreads := maxThreads;
      head, tail, totalThreads, nextNum, list, repr := null, null, 0, 1, [], {};
    }

    /** IPStat_spawn_thread; created is the outcome of pthread_create. */
    method Spawn(created: bool) returns (handle: Handle?)
      requires Valid()
      modifies this, repr`next
      ensures Valid() && repr == old(repr) + if handle == null then {} else {handle}
      ensures handle != null <==> old(totalThreads) < maxThreads && created
      ensures handle != null ==> fresh(handle) && list == old(list) + [handle] && handle.status == Running
      ensures handle == null ==> list == old(list)
    {
      if totalThreads >= maxThreads {
        return null;
      }
      handle := new Handle(nextNum);
      nextNum := nextNum + 1;
      if !created {
        return null;
      }
      totalThreads := totalThreads + 1;
      if tail != null {
        tail.next := handle;
        handle.prev := tail;
        tail := handle;
      } else {
        head, tail := handle, handle;
      }
      list, repr := list + [handle], repr + {handle};
    }

    /** IPStat_drop_thread. */
    method Drop(handle: Handle, ghost k: nat)
      requires Valid() && k < |list| && list[k] == handle
      modifies this, repr`prev, repr`next
      ensures Valid() && repr == old(repr)
      ensures list == Without(old(list), k)
    {
      var prev, next := handle.prev, handle.next;
      ghost var l := list;
      Neighbours(l, k);
      totalThreads := totalThreads - 1;
      if prev == null {
        head := next;
      } else {
        prev.next := next;
      }
      if next == null {
        tail := prev;
      } else {
        next.prev := prev;
      }
      LinkedWithout(l, k);
      list := Without(l, k);
    }

    /** The first loop of IPStat_pool_clean: it unlinks exactly the handles of exited threads. */
    method Sweep()
      requires Valid()
      modifies this, repr`prev, repr`next
      ensures Valid() && repr == old(repr)
      ensures list == Keep(old(list), set h | h in old(list) && old(h.status) == Exited)
      ensures forall h :: h in list <==> h in old(list) && h.status != Exited
    {
      ghost var l := list;
      ghost var dead := set h | h in list && h.status == Exited;
      assert l[..0] == [] && l[0..] == l;
      assert l[..|l|] == l && l[|l|..] == [];
      assert forall h :: h in dead <==> h in l && h.status == Exited;
      SweepFrom(l, dead);
      assert list == Keep(l, dead);
      KeepMembers(l, dead);
    }

    /** The loop itself; l is the list it starts from and dead are the exited handles. */
    method SweepFrom(ghost l: seq<Handle>, ghost dead: set<Handle>)
      requires Sweeping(head, l, 0, dead)
      modifies this, repr`prev, repr`next
      ensures Sweeping(null, l, |l|, dead) && repr == old(repr)
    {
      ghost var k := 0;
      var handle := head;
      while handle != null
        invariant Sweeping(handle, l, k, dead) && repr == old(repr)
        decreases |l| - k
      {
        handle := SweepOne(handle, l, k, dead);
        k := k + 1;
      }
    }

    /** The sweep has visited the first k handles of the original list. */
    ghost predicate Sweeping(handle: Handle?, l: seq<Handle>, k: nat, dead: set<Handle>)
      reads this, repr
    {
      && Valid() && k <= |l|
      && list == Keep(l[..k], dead) + l[k..]
      && handle == (if k < |l| then l[k] else null)
      && (forall i | 0 <= i < |l| :: l[i] in repr && (l[i].status == Exited <==> l[i] in dead))
    }

    /** One turn of the sweep, at handle k of the original list l. */
    method SweepOne(handle: Handle, ghost l: seq<Handle>, ghost k: nat, ghost dead: set<Handle>)
      returns (next: Handle?)
      requires Sweeping(handle, l, k, dead)
      modifies this, repr`prev, repr`next
      ensures Sweeping(next, l, k + 1, dead) && repr == old(repr)
    {
      ghost var m := |Keep(l[..k], dead)|;
      KeepPosition(list, l, k, dead);
      Neighbours(list, m);
      next := handle.next;
      if handle.status == Exited {
        Drop(handle, m);
      }
    }
  }
}
