/**
 The list library of src/glist.c: singly linked nodes whose next pointers are rewritten in
 place, and a merge sort that splits with a slow and a fast pointer.
 */
module ListSort {
  import opened Seqs
  import opened Orders

  class ListNode<D> {
    const data: D
    var next: ListNode?<D>

    constructor (data: D)
      ensures this.data == data && next == null
    {
      this.data, next := data, null;
    }
  }

  // ---------- sequences of nodes ----------

  /** The list that starts at head consists of exactly these nodes, in this order. */
  ghost predicate IsList<D>(head: ListNode?<D>, nodes: seq<ListNode<D>>)
    reads nodes
  {
    && Distinct(nodes)
    && head == (if nodes == [] then null else nodes[0])
    && (forall i, j | 0 <= i < j < |nodes| && j == i + 1 :: nodes[i].next == nodes[j])
    && (nodes != [] ==> nodes[|nodes| - 1].next == null)
  }

  type Compare<!D> = (D, D) -> int

  // ---------- the sort on sequences ----------

  function Merge<D>(a: seq<ListNode<D>>, b: seq<ListNode<D>>, cmp: Compare<D>): seq<ListNode<D>> {
    if a == [] then b
    else if b == [] then a
    else if cmp(a[0].data, b[0].data) <= 0 then [a[0]] + Merge(a[1..], b, cmp)
    else [b[0]] + Merge(a, b[1..], cmp)
  }

  function Sort<D>(s: seq<ListNode<D>>, cmp: Compare<D>): seq<ListNode<D>> {
    if |s| <= 1 then s
    else Merge(Sort(s[..|s| / 2], cmp), Sort(s[|s| / 2..], cmp), cmp)
  }

  ghost predicate Sorted<D>(s: seq<ListNode<D>>, cmp: Compare<D>) {
    forall i, j | 0 <= i < j < |s| :: cmp(s[i].data, s[j].data) <= 0
  }

  /** The nodes that compare equal to a value, in their order. */
  ghost function Class<D>(s: seq<ListNode<D>>, cmp: Compare<D>, d: D): seq<ListNode<D>> {
    if s == [] then []
    else (if cmp(s[0].data, d) == 0 then [s[0]] else []) + Class(s[1..], cmp, d)
  }

  lemma HeadTail<T>(s: seq<T>)
    requires s != []
    ensures multiset(s) == multiset{s[0]} + multiset(s[1..])
  {
    assert s == [s[0]] + s[1..];
  }

  lemma {:induction false} MergeMembers<D>(a: seq<ListNode<D>>, b: seq<ListNode<D>>, cmp: Compare<D>)
    ensures multiset(Merge(a, b, cmp)) == multiset(a) + multiset(b)
  {
    if a != [] && b != [] {
      if cmp(a[0].data, b[0].data) <= 0 {
        MergeMembers(a[1..], b, cmp);
        HeadTail(a);
      } else {
        MergeMembers(a, b[1..], cmp);
        HeadTail(b);
      }
    }
  }

  lemma MergeIn<D>(a: seq<ListNode<D>>, b: seq<ListNode<D>>, cmp: Compare<D>, y: ListNode<D>)
    requires y in Merge(a, b, cmp)
    ensures y in a || y in b
  {
    MergeMembers(a, b, cmp);
    assert y in multiset(Merge(a, b, cmp));
  }

  lemma MergeHeadLeast<D(!new)>(a: seq<ListNode<D>>, b: seq<ListNode<D>>, cmp: Compare<D>, y: ListNode<D>)
    requires TotalPreorder(cmp) && Sorted(a, cmp) && Sorted(b, cmp) && a != [] && b != []
    requires y in a || y in b
    ensures cmp(Merge(a, b, cmp)[0].data, y.data) <= 0
  {
    CmpFacts(cmp, a[0].data, a[0].data, a[0].data);
    CmpFacts(cmp, b[0].data, b[0].data, b[0].data);
    assert y in a ==> cmp(a[0].data, y.data) <= 0;
    assert y in b ==> cmp(b[0].data, y.data) <= 0;
    assert cmp(a[0].data, b[0].data) > 0 <==> cmp(b[0].data, a[0].data) < 0;
  }

  lemma {:induction false} MergeSorted<D(!new)>(a: seq<ListNode<D>>, b: seq<ListNode<D>>, cmp: Compare<D>)
    requires TotalPreorder(cmp) && Sorted(a, cmp) && Sorted(b, cmp)
    ensures Sorted(Merge(a, b, cmp), cmp)
  {
    if a != [] && b != [] {
      var m := Merge(a, b, cmp);
      forall y | y in m ensures cmp(m[0].data, y.data) <= 0 {
        MergeIn(a, b, cmp, y);
        MergeHeadLeast(a, b, cmp, y);
      }
      if cmp(a[0].data, b[0].data) <= 0 {
        MergeSorted(a[1..], b, cmp);
        SortedCons(a[0], Merge(a[1..], b, cmp), cmp);
      } else {
        MergeSorted(a, b[1..], cmp);
        SortedCons(b[0], Merge(a, b[1..], cmp), cmp);
      }
    }
  }

  lemma SortedCons<D>(x: ListNode<D>, s: seq<ListNode<D>>, cmp: Compare<D>)
    requires Sorted(s, cmp) && forall y | y in [x] + s :: cmp(x.data, y.data) <= 0
    ensures Sorted([x] + s, cmp)
  {}

  lemma {:induction false} ClassSplit<D>(a: seq<ListNode<D>>, b: seq<ListNode<D>>, cmp: Compare<D>, d: D)
    ensures Class(a + b, cmp, d) == Class(a, cmp, d) + Class(b, cmp, d)
  {
    if a == [] {
      assert a + b == b;
    } else {
      assert (a + b)[0] == a[0] && (a + b)[1..] == a[1..] + b;
      ClassSplit(a[1..], b, cmp, d);
      var head := if cmp(a[0].data, d) == 0 then [a[0]] else [];
      assert Class(a + b, cmp, d) == head + Class(a[1..] + b, cmp, d);
      assert Class(a, cmp, d) == head + Class(a[1..], cmp, d);
    }
  }

  lemma {:induction false} ClassEmpty<D>(a: seq<ListNode<D>>, cmp: Compare<D>, d: D)
    requires forall x | x in a :: cmp(x.data, d) != 0
    ensures Class(a, cmp, d) == []
  {
    if a != [] {
      assert a[0] in a;
      ClassEmpty(a[1..], cmp, d);
    }
  }

  /** Merging takes equal elements from the first list before those of the second. */
  lemma {:induction false} MergeStable<D(!new)>(a: seq<ListNode<D>>, b: seq<ListNode<D>>, cmp: Compare<D>, d: D)
    requires TotalPreorder(cmp) && Sorted(a, cmp)
    ensures Class(Merge(a, b, cmp), cmp, d) == Class(a, cmp, d) + Class(b, cmp, d)
  {
    if a != [] && b != [] {
      if cmp(a[0].data, b[0].data) <= 0 {
        MergeStable(a[1..], b, cmp, d);
      } else {
        MergeStable(a, b[1..], cmp, d);
        if cmp(b[0].data, d) == 0 {
          forall x | x in a ensures cmp(x.data, d) != 0 {
            CmpFacts(cmp, x.data, d, b[0].data);
            CmpFacts(cmp, b[0].data, d, x.data);
            CmpFacts(cmp, b[0].data, a[0].data, x.data);
            CmpFacts(cmp, a[0].data, b[0].data, x.data);
          }
          ClassEmpty(a, cmp, d);
        }
      }
    }
  }

  lemma {:induction false} SortMembers<D>(s: seq<ListNode<D>>, cmp: Compare<D>)
    ensures multiset(Sort(s, cmp)) == multiset(s)
    decreases |s|
  {
    if |s| > 1 {
      var l, r := s[..|s| / 2], s[|s| / 2..];
      assert s == l + r;
      SortMembers(l, cmp);
      SortMembers(r, cmp);
      MergeMembers(Sort(l, cmp), Sort(r, cmp), cmp);
    }
  }

  /** For any total preorder the sort returns an ordered permutation that keeps the order of
      equal elements. */
  lemma {:induction false} SortIsStable<D(!new)>(s: seq<ListNode<D>>, cmp: Compare<D>)
    requires TotalPreorder(cmp)
    ensures Sorted(Sort(s, cmp), cmp)
    ensures multiset(Sort(s, cmp)) == multiset(s)
    ensures forall d :: Class(Sort(s, cmp), cmp, d) == Class(s, cmp, d)
    decreases |s|
  {
    SortMembers(s, cmp);
    if |s| > 1 {
      var l, r := s[..|s| / 2], s[|s| / 2..];
      assert s == l + r;
      SortIsStable(l, cmp);
      SortIsStable(r, cmp);
      var a, b := Sort(l, cmp), Sort(r, cmp);
      MergeSorted(a, b, cmp);
      forall d ensures Class(Sort(s, cmp), cmp, d) == Class(s, cmp, d) {
        MergeStable(a, b, cmp, d);
        ClassSplit(l, r, cmp, d);
      }
    }
  }

  // ---------- the list in place ----------

  ghost predicate Chain<D>(nodes: seq<ListNode<D>>)
    reads nodes
  {
    && Distinct(nodes)
    && (forall i, j | 0 <= i < j < |nodes| && j == i + 1 :: nodes[i].next == nodes[j])
  }

  lemma Joined<D>(pre: seq<ListNode<D>>, rest: seq<ListNode<D>>, head: ListNode?<D>)
    requires Chain(pre) && |pre| > 0 && IsList(head, rest)
    requires forall x | x in pre :: x !in rest
    requires pre[|pre| - 1].next == head
    ensures IsList(pre[0], pre + rest)
  {
    var s, n := pre + rest, |pre|;
    assert forall i | 0 <= i < n :: s[i] == pre[i] && pre[i] in pre;
    assert forall i | n <= i < |s| :: s[i] == rest[i - n] && rest[i - n] in rest;
    forall i, j | 0 <= i < j < |s| && j == i + 1 ensures s[i].next == s[j] {
      if j < n {
        assert pre[i].next == pre[j];
      } else if i >= n {
        assert rest[i - n].next == rest[j - n];
      }
    }
  }

  lemma TailIsList<D>(head: ListNode<D>, nodes: seq<ListNode<D>>)
    requires IsList(head, nodes)
    ensures nodes != [] && nodes[0] == head && IsList(head.next, nodes[1..])
    ensures head !in nodes[1..]
  {
    var rest := nodes[1..];
    assert forall i | 0 <= i < |rest| :: rest[i] == nodes[i + 1];
    assert rest != [] ==> nodes[0].next == nodes[1];
  }

  lemma MergeTurn<D>(pre: seq<ListNode<D>>, a: seq<ListNode<D>>, b: seq<ListNode<D>>, cmp: Compare<D>)
    requires a != [] && b != []
    ensures pre + Merge(a, b, cmp) ==
            if cmp(a[0].data, b[0].data) <= 0 then (pre + [a[0]]) + Merge(a[1..], b, cmp)
            else (pre + [b[0]]) + Merge(a, b[1..], cmp)
  {}

  /** The state of the merge: a chain of nodes done and two lists to do, all apart. */
  ghost predicate Merging<D>(pre: seq<ListNode<D>>, l1: ListNode?<D>, a: seq<ListNode<D>>,
                             l2: ListNode?<D>, b: seq<ListNode<D>>)
    reads pre, a, b
  {
    && Chain(pre) && |pre| > 0
    && IsList(l1, a) && IsList(l2, b)
    && (forall y | y in pre :: y !in a && y !in b)
    && (forall x | x in a :: x !in b)
  }

  /** One turn of the merge loop: the first node of a list moves to the end of the chain. */
  method Advance<D>(l: ListNode<D>, x: ListNode<D>, ghost pre: seq<ListNode<D>>, ghost from: seq<ListNode<D>>,
                    ghost head: ListNode?<D>, ghost other: seq<ListNode<D>>)
    returns (rest: ListNode?<D>)
    requires Merging(pre, x, from, head, other) && l == pre[|pre| - 1]
    modifies l`next
    ensures from != [] && from[0] == x && Merging(pre + [x], rest, from[1..], head, other)
  {
    assert l in pre && x == from[0] && x in from;
    assert forall i | 0 <= i < |from| :: from[i] in from;
    assert forall i | 0 <= i < |other| :: other[i] in other;
    l.next := x;
    rest := x.next;
    TailIsList(x, from);
    assert Chain(pre + [x]);
  }

  lemma MergingSwap<D>(pre: seq<ListNode<D>>, l1: ListNode?<D>, a: seq<ListNode<D>>,
                       l2: ListNode?<D>, b: seq<ListNode<D>>)
    requires Merging(pre, l1, a, l2, b)
    ensures Merging(pre, l2, b, l1, a)
  {}

  /** g_list_sort_merge. */
  method MergeLists<D(0)>(first: ListNode?<D>, second: ListNode?<D>, cmp: Compare<D>,
                          ghost a: seq<ListNode<D>>, ghost b: seq<ListNode<D>>, ghost region: set<ListNode<D>>)
    returns (head: ListNode?<D>)
    requires IsList(first, a) && IsList(second, b)
    requires (forall x | x in a :: x in region && x !in b) && (forall x | x in b :: x in region)
    modifies region`next
    ensures IsList(head, Merge(a, b, cmp))
  {
    var anything: D := *;
    var list := new ListNode(anything);
    MergeOnto(list, first, second, cmp, a, b, region);
    head := list.next;
    TailIsList(list, [list] + Merge(a, b, cmp));
  }

  /** One turn of the merge loop. */
  method MergeOne<D>(l: ListNode<D>, l1: ListNode<D>, l2: ListNode<D>, cmp: Compare<D>,
                     ghost pre: seq<ListNode<D>>, ghost a: seq<ListNode<D>>, ghost b: seq<ListNode<D>>)
    returns (x: ListNode<D>, r1: ListNode?<D>, r2: ListNode?<D>, ghost a': seq<ListNode<D>>, ghost b': seq<ListNode<D>>)
    requires Merging(pre, l1, a, l2, b) && l == pre[|pre| - 1]
    modifies l`next
    ensures Merging(pre + [x], r1, a', r2, b') && |a'| + |b'| < |a| + |b|
    ensures x in a || x in b
    ensures (forall y | y in a' :: y in a) && (forall y | y in b' :: y in b)
    ensures pre + Merge(a, b, cmp) == (pre + [x]) + Merge(a', b', cmp)
  {
    MergeTurn(pre, a, b, cmp);
    r1, r2, a', b' := l1, l2, a, b;
    if cmp(l1.data, l2.data) <= 0 {
      x := l1;
      r1 := Advance(l, x, pre, a, l2, b);
      a' := a[1..];
    } else {
      x := l2;
      MergingSwap(pre, l1, a, l2, b);
      r2 := Advance(l, x, pre, b, l1, a);
      b' := b[1..];
      MergingSwap(pre + [x], r2, b', l1, a);
    }
  }

  /** The loop of g_list_sort_merge: it hangs the merge of both lists behind a first node. */
  method MergeOnto<D>(list: ListNode<D>, first: ListNode?<D>, second: ListNode?<D>, cmp: Compare<D>,
                      ghost a: seq<ListNode<D>>, ghost b: seq<ListNode<D>>, ghost region: set<ListNode<D>>)
    requires Merging([list], first, a, second, b)
    requires forall x | x in a || x in b :: x in region
    modifies list`next, region`next
    ensures IsList(list, [list] + Merge(a, b, cmp))
  {
    var l: ListNode<D> := list;
    var l1, l2 := first, second;
    ghost var pre: seq<ListNode<D>> := [list];
    ghost var a', b' := a, b;
    while l1 != null && l2 != null
      invariant Merging(pre, l1, a', l2, b')
      invariant pre[0] == list && l == pre[|pre| - 1]
      invariant forall x | x in a' || x in b' :: x in region
      invariant l == list || l in region
      invariant pre + Merge(a', b', cmp) == [list] + Merge(a, b, cmp)
      decreases |a'| + |b'|
    {
      var x;
      x, l1, l2, a', b' := MergeOne(l, l1, l2, cmp, pre, a', b');
      l, pre := x, pre + [x];
    }
    FinishMerge(l, l1, l2, pre, a', b');
  }

  method FinishMerge<D>(l: ListNode<D>, l1: ListNode?<D>, l2: ListNode?<D>,
                        ghost pre: seq<ListNode<D>>, ghost a: seq<ListNode<D>>, ghost b: seq<ListNode<D>>)
    requires Merging(pre, l1, a, l2, b) && l == pre[|pre| - 1]
    modifies l`next
    ensures IsList(pre[0], pre + if l1 != null then a else b)
  {
    assert l in pre;
    assert forall i | 0 <= i < |a| :: a[i] in a;
    assert forall i | 0 <= i < |b| :: b[i] in b;
    l.next := if l1 != null then l1 else l2;
    Joined(pre, if l1 != null then a else b, l.next);
  }

  lemma NextIs<D>(head: ListNode?<D>, nodes: seq<ListNode<D>>, i: nat)
    requires IsList(head, nodes) && i < |nodes|
    ensures nodes[i].next == if i + 1 < |nodes| then nodes[i + 1] else null
  {}

  /** The split of g_list_sort_real: the fast pointer runs to the end while the slow one gets
      half way, so that both halves are non-empty and shorter. */
  method SplitList<D>(list: ListNode<D>, ghost nodes: seq<ListNode<D>>) returns (second: ListNode<D>)
    requires IsList(list, nodes) && |nodes| >= 2
    modifies nodes`next
    ensures IsList(list, nodes[..|nodes| / 2]) && IsList(second, nodes[|nodes| / 2..])
  {
    NextIs(list, nodes, 0);
    var l1, l2 := list, list.next;
    ghost var p := 0;
    while true
      invariant 2 * p + 1 < |nodes| && l1 == nodes[p] && l2 == nodes[2 * p + 1]
      invariant IsList(list, nodes)
      decreases |nodes| - p
    {
      NextIs(list, nodes, 2 * p + 1);
      l2 := l2.next;
      if l2 == null { break; }
      NextIs(list, nodes, 2 * p + 2);
      l2 := l2.next;
      if l2 == null { break; }
      NextIs(list, nodes, p);
      l1 := l1.next;
      p := p + 1;
    }
    NextIs(list, nodes, p);
    second := l1.next;
    l1.next := null;
    assert nodes[..p + 1][p] == l1;
  }

  lemma SortIn<D>(s: seq<ListNode<D>>, cmp: Compare<D>)
    ensures forall x | x in Sort(s, cmp) :: x in s
  {
    SortMembers(s, cmp);
    forall x | x in Sort(s, cmp) ensures x in s {
      assert x in multiset(Sort(s, cmp));
    }
  }

  /** g_list_sort on the heap: the same nodes, linked in the order of the stable sort. */
  method SortList<D(0)>(list: ListNode?<D>, cmp: Compare<D>, ghost nodes: seq<ListNode<D>>)
    returns (head: ListNode?<D>)
    requires IsList(list, nodes)
    modifies nodes`next
    ensures IsList(head, Sort(nodes, cmp))
    decreases |nodes|, 1
  {
    if list == null {
      return null;
    }
    NextIs(list, nodes, 0);
    if list.next == null {
      return list;
    }
    ghost var half := |nodes| / 2;
    ghost var a, b := nodes[..half], nodes[half..];
    var second := SplitList(list, nodes);
    head := SortHalves(list, second, cmp, a, b);
  }

  /** The two recursive calls and the merge of g_list_sort_real. */
  method SortHalves<D(0)>(first: ListNode<D>, second: ListNode<D>, cmp: Compare<D>,
                          ghost a: seq<ListNode<D>>, ghost b: seq<ListNode<D>>)
    returns (head: ListNode?<D>)
    requires IsList(first, a) && IsList(second, b) && forall x | x in a :: x !in b
    modifies a`next, b`next
    ensures IsList(head, Merge(Sort(a, cmp), Sort(b, cmp), cmp))
    decreases |a| + |b|, 0
  {
    ghost var sa, sb := Sort(a, cmp), Sort(b, cmp);
    ghost var region := (set x | x in a) + (set x | x in b);
    SortIn(a, cmp);
    SortIn(b, cmp);
    assert forall x | x in sa :: x in a && x !in b && x !in sb;
    assert forall x | x in sb :: x in b;
    var l1 := SortList(first, cmp, a);
    assert forall i | 0 <= i < |b| :: b[i] in b;
    assert IsList(second, b);
    var l2 := SortList(second, cmp, b);
    assert forall i | 0 <= i < |sa| :: sa[i] in sa;
    assert IsList(l1, sa);
    head := MergeLists(l1, l2, cmp, sa, sb, region);
  }
}
