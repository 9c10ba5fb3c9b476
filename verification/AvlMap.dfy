/**
 What the tree of src/gtree.c means to its callers: a run of insertions is a finite map, the
 traversals are early-stopping folds over its entries, and lookups are logarithmic.
 */
module AvlMap {
  import opened Orders
  import opened AvlTree
  import opened Bits
  import opened Options

  // ---------- reference: an association list in ascending key order ----------

  ghost predicate Ascending<K, V>(es: seq<(K, V)>, cmp: (K, K) -> int) {
    forall i, j | 0 <= i < j < |es| :: cmp(es[i].0, es[j].0) < 0
  }

  function Put<K, V>(es: seq<(K, V)>, cmp: (K, K) -> int, key: K, value: V): seq<(K, V)> {
    if es == [] then [(key, value)]
    else if cmp(key, es[0].0) == 0 then [(es[0].0, value)] + es[1..]
    else if cmp(key, es[0].0) < 0 then [(key, value)] + es
    else [es[0]] + Put(es[1..], cmp, key, value)
  }

  function Get<K, V>(es: seq<(K, V)>, cmp: (K, K) -> int, key: K): Option<V> {
    if es == [] then None
    else if cmp(key, es[0].0) == 0 then Some(es[0].1)
    else Get(es[1..], cmp, key)
  }

  lemma {:induction false} PutBelow<K(!new), V>(a: seq<(K, V)>, e: (K, V), b: seq<(K, V)>,
                                               cmp: (K, K) -> int, key: K, value: V)
    requires cmp(key, e.0) < 0
    ensures Put(a + [e] + b, cmp, key, value) == Put(a, cmp, key, value) + [e] + b
  {
    if a == [] {
      assert a + [e] + b == [e] + b;
    } else {
      assert a + [e] + b == [a[0]] + (a[1..] + [e] + b);
      PutBelow(a[1..], e, b, cmp, key, value);
    }
  }

  lemma {:induction false} PutAbove<K(!new), V>(a: seq<(K, V)>, e: (K, V), b: seq<(K, V)>,
                                               cmp: (K, K) -> int, key: K, value: V)
    requires forall i | 0 <= i < |a| :: cmp(key, a[i].0) > 0
    requires cmp(key, e.0) > 0
    ensures Put(a + [e] + b, cmp, key, value) == a + [e] + Put(b, cmp, key, value)
  {
    if a == [] {
      assert a + [e] + b == [e] + b;
    } else {
      assert a + [e] + b == [a[0]] + (a[1..] + [e] + b);
      assert cmp(key, a[0].0) > 0;
      PutAbove(a[1..], e, b, cmp, key, value);
    }
  }

  lemma {:induction false} PutHit<K(!new), V>(a: seq<(K, V)>, e: (K, V), b: seq<(K, V)>,
                                             cmp: (K, K) -> int, key: K, value: V)
    requires forall i | 0 <= i < |a| :: cmp(key, a[i].0) > 0
    requires cmp(key, e.0) == 0
    ensures Put(a + [e] + b, cmp, key, value) == a + [(e.0, value)] + b
  {
    if a == [] {
      assert a + [e] + b == [e] + b;
    } else {
      assert a + [e] + b == [a[0]] + (a[1..] + [e] + b);
      assert cmp(key, a[0].0) > 0;
      PutHit(a[1..], e, b, cmp, key, value);
    }
  }

  lemma {:induction false} GetSplit<K(!new), V>(a: seq<(K, V)>, b: seq<(K, V)>,
                                               cmp: (K, K) -> int, key: K)
    ensures Get(a + b, cmp, key) == if Get(a, cmp, key).Some? then Get(a, cmp, key) else Get(b, cmp, key)
  {
    if a == [] {
      assert a + b == b;
    } else {
      assert (a + b)[1..] == a[1..] + b;
      GetSplit(a[1..], b, cmp, key);
    }
  }

  lemma {:induction false} GetMisses<K(!new), V>(es: seq<(K, V)>, cmp: (K, K) -> int, key: K)
    requires forall i | 0 <= i < |es| :: cmp(key, es[i].0) != 0
    ensures Get(es, cmp, key) == None
  {
    if es != [] {
      assert cmp(key, es[0].0) != 0;
      GetMisses(es[1..], cmp, key);
    }
  }

  lemma SplitAscending<K, V>(a: seq<(K, V)>, e: (K, V), b: seq<(K, V)>, cmp: (K, K) -> int)
    requires Ascending(a + [e] + b, cmp)
    ensures Ascending(a, cmp) && Ascending(b, cmp)
    ensures forall i | 0 <= i < |a| :: cmp(a[i].0, e.0) < 0
    ensures forall i | 0 <= i < |b| :: cmp(e.0, b[i].0) < 0
  {
    var s := a + [e] + b;
    assert forall i | 0 <= i < |a| :: s[i] == a[i];
    assert forall i | 0 <= i < |b| :: s[|a| + 1 + i] == b[i];
    assert s[|a|] == e;
  }

  /** Splitting ascending entries at an entry orders the two sides around a key. */
  lemma AroundEntry<K(!new), V>(a: seq<(K, V)>, e: (K, V), b: seq<(K, V)>, cmp: (K, K) -> int, key: K)
    requires TotalPreorder(cmp) && Ascending(a + [e] + b, cmp)
    ensures Ascending(a, cmp) && Ascending(b, cmp)
    ensures cmp(key, e.0) >= 0 ==> forall i | 0 <= i < |a| :: cmp(key, a[i].0) > 0
    ensures cmp(key, e.0) <= 0 ==> forall i | 0 <= i < |b| :: cmp(key, b[i].0) < 0
  {
    SplitAscending(a, e, b, cmp);
    forall i | 0 <= i < |a| && cmp(key, e.0) >= 0
      ensures cmp(key, a[i].0) > 0
    {
      CmpFacts(cmp, a[i].0, e.0, key);
      CmpFacts(cmp, e.0, key, key);
    }
    forall i | 0 <= i < |b| && cmp(key, e.0) <= 0
      ensures cmp(key, b[i].0) < 0
    {
      CmpFacts(cmp, key, e.0, b[i].0);
    }
  }

  /** Put adds at most the new key, and in front of nothing smaller. */
  lemma {:induction false} PutKeys<K(!new), V>(es: seq<(K, V)>, cmp: (K, K) -> int, key: K, value: V, low: K)
    requires cmp(low, key) < 0
    requires forall i | 0 <= i < |es| :: cmp(low, es[i].0) < 0
    ensures forall i | 0 <= i < |Put(es, cmp, key, value)| :: cmp(low, Put(es, cmp, key, value)[i].0) < 0
  {
    if es != [] {
      PutKeys(es[1..], cmp, key, value, low);
    }
  }

  lemma AscendingCons<K, V>(e: (K, V), es: seq<(K, V)>, cmp: (K, K) -> int)
    requires Ascending(es, cmp) && forall i | 0 <= i < |es| :: cmp(e.0, es[i].0) < 0
    ensures Ascending([e] + es, cmp)
  {}

  lemma {:induction false} PutAscending<K(!new), V>(es: seq<(K, V)>, cmp: (K, K) -> int, key: K, value: V)
    requires TotalPreorder(cmp) && Ascending(es, cmp)
    ensures Ascending(Put(es, cmp, key, value), cmp)
  {
    if es != [] {
      var e, rest := es[0], es[1..];
      assert es == [] + [e] + rest;
      AroundEntry([], e, rest, cmp, key);
      AroundEntry([], e, rest, cmp, e.0);
      CmpFacts(cmp, e.0, key, key);
      if cmp(key, e.0) == 0 {
        AscendingCons((e.0, value), rest, cmp);
      } else if cmp(key, e.0) < 0 {
        AscendingCons((key, value), es, cmp);
      } else {
        PutAscending(rest, cmp, key, value);
        PutKeys(rest, cmp, key, value, e.0);
        AscendingCons(e, Put(rest, cmp, key, value), cmp);
      }
    }
  }

  lemma {:induction false} PutLength<K(!new), V>(es: seq<(K, V)>, cmp: (K, K) -> int, key: K, value: V)
    requires TotalPreorder(cmp) && Ascending(es, cmp)
    ensures |Put(es, cmp, key, value)| == |es| + if Get(es, cmp, key).None? then 1 else 0
  {
    if es != [] {
      assert es == [] + [es[0]] + es[1..];
      AroundEntry([], es[0], es[1..], cmp, key);
      if cmp(key, es[0].0) < 0 {
        GetMisses(es[1..], cmp, key);
      } else if cmp(key, es[0].0) > 0 {
        PutLength(es[1..], cmp, key, value);
      }
    }
  }

  /** The map law of the reference list. */
  lemma {:induction false} GetPut<K(!new), V>(es: seq<(K, V)>, cmp: (K, K) -> int, key: K, value: V, q: K)
    requires TotalPreorder(cmp) && Ascending(es, cmp)
    ensures Get(Put(es, cmp, key, value), cmp, q) ==
            if cmp(q, key) == 0 then Some(value) else Get(es, cmp, q)
  {
    if es != [] {
      assert es == [] + [es[0]] + es[1..];
      AroundEntry([], es[0], es[1..], cmp, key);
      CmpFacts(cmp, q, key, es[0].0);
      CmpFacts(cmp, q, es[0].0, key);
      CmpFacts(cmp, key, es[0].0, q);
      if cmp(key, es[0].0) > 0 {
        GetPut(es[1..], cmp, key, value, q);
      }
    }
  }

  // ---------- the tree refines the reference list ----------

  /** i_tree_node_lookup. */
  function Lookup<K, V>(t: Tree<K, V>, cmp: (K, K) -> int, key: K): Option<V> {
    if t.Leaf? then None
    else
      var c := cmp(key, t.key);
      if c == 0 then Some(t.value)
      else if c < 0 then Lookup(t.left, cmp, key)
      else Lookup(t.right, cmp, key)
  }

  lemma {:induction false} LookupIsGet<K(!new), V>(t: Tree<K, V>, cmp: (K, K) -> int, key: K)
    requires TotalPreorder(cmp) && Ascending(InOrder(t), cmp)
    ensures Lookup(t, cmp, key) == Get(InOrder(t), cmp, key)
  {
    if t.Node? {
      var a, e, b := InOrder(t.left), (t.key, t.value), InOrder(t.right);
      AroundEntry(a, e, b, cmp, key);
      GetSplit(a + [e], b, cmp, key);
      GetSplit(a, [e], cmp, key);
      if cmp(key, e.0) >= 0 { GetMisses(a, cmp, key); }
      if cmp(key, e.0) <= 0 { GetMisses(b, cmp, key); }
      LookupIsGet(t.left, cmp, key);
      LookupIsGet(t.right, cmp, key);
    }
  }

  lemma RepairInOrder<K, V>(n: Tree<K, V>, inserted: bool)
    requires AfterChild(n, inserted)
    ensures InOrder(Repair(n, inserted)) == InOrder(n)
  {
    if inserted && (n.balance < -1 || n.balance > 1) {
      RebalanceAvl(n);
      RebalanceInOrder(n);
    }
  }

  lemma InsertInLeft<K, V>(t: Tree<K, V>, cmp: (K, K) -> int, key: K, value: V)
    requires t.Node? && Avl(t) && cmp(key, t.key) < 0
    ensures InOrder(Insert(t, cmp, key, value).0) ==
            InOrder(Insert(t.left, cmp, key, value).0) + [(t.key, t.value)] + InOrder(t.right)
    ensures Insert(t, cmp, key, value).1 == Insert(t.left, cmp, key, value).1
  {
    var (left, inserted) := Insert(t.left, cmp, key, value);
    RepairInOrder(HangLeft(t, left), inserted);
  }

  lemma InsertInRight<K, V>(t: Tree<K, V>, cmp: (K, K) -> int, key: K, value: V)
    requires t.Node? && Avl(t) && cmp(key, t.key) > 0
    ensures InOrder(Insert(t, cmp, key, value).0) ==
            InOrder(t.left) + [(t.key, t.value)] + InOrder(Insert(t.right, cmp, key, value).0)
    ensures Insert(t, cmp, key, value).1 == Insert(t.right, cmp, key, value).1
  {
    var (right, inserted) := Insert(t.right, cmp, key, value);
    RepairInOrder(HangRight(t, right), inserted);
  }

  /** Insertion, rotations included, is Put on the in-order entries, and the flag it returns
      says exactly whether the key was new. */
  lemma {:induction false} InsertIsPut<K(!new), V>(t: Tree<K, V>, cmp: (K, K) -> int, key: K, value: V)
    requires TotalPreorder(cmp) && Avl(t) && Ascending(InOrder(t), cmp)
    ensures InOrder(Insert(t, cmp, key, value).0) == Put(InOrder(t), cmp, key, value)
    ensures Insert(t, cmp, key, value).1 <==> Lookup(t, cmp, key) == None
  {
    if t.Node? {
      var a, e, b := InOrder(t.left), (t.key, t.value), InOrder(t.right);
      AroundEntry(a, e, b, cmp, key);
      if cmp(key, t.key) < 0 {
        InsertIsPut(t.left, cmp, key, value);
        PutBelow(a, e, b, cmp, key, value);
        InsertInLeft(t, cmp, key, value);
      } else if cmp(key, t.key) > 0 {
        InsertIsPut(t.right, cmp, key, value);
        PutAbove(a, e, b, cmp, key, value);
        InsertInRight(t, cmp, key, value);
      } else {
        PutHit(a, e, b, cmp, key, value);
      }
    }
  }

  // ---------- whole runs of insertions ----------

  /** The tree after inserting the pairs in order into the empty tree. */
  function Build<K, V>(ops: seq<(K, V)>, cmp: (K, K) -> int): (t: Tree<K, V>)
    ensures Avl(t)
  {
    if ops == [] then Leaf
    else
      var last := ops[|ops| - 1];
      Insert(Build(ops[..|ops| - 1], cmp), cmp, last.0, last.1).0
  }

  lemma BuildExtends<K, V>(ops: seq<(K, V)>, cmp: (K, K) -> int, key: K, value: V)
    ensures Build(ops + [(key, value)], cmp) == Insert(Build(ops, cmp), cmp, key, value).0
  {
    assert (ops + [(key, value)])[..|ops|] == ops;
  }

  /** The value of the latest insertion under a key, read off the history. */
  function LastValue<K, V>(ops: seq<(K, V)>, cmp: (K, K) -> int, q: K): Option<V> {
    if ops == [] then None
    else if cmp(q, ops[|ops| - 1].0) == 0 then Some(ops[|ops| - 1].1)
    else LastValue(ops[..|ops| - 1], cmp, q)
  }

  /** The number of different keys in the history. */
  function DistinctKeys<K, V>(ops: seq<(K, V)>, cmp: (K, K) -> int): nat {
    if ops == [] then 0
    else
      var before := ops[..|ops| - 1];
      DistinctKeys(before, cmp) + if LastValue(before, cmp, ops[|ops| - 1].0).None? then 1 else 0
  }

  /** After any run the tree is a balanced search tree that behaves as the finite map of the
      run, and holds one node for each different key. */
  lemma {:induction false} BuildIsMap<K(!new), V>(ops: seq<(K, V)>, cmp: (K, K) -> int)
    requires TotalPreorder(cmp)
    ensures Avl(Build(ops, cmp)) && Exact(Build(ops, cmp))
    ensures Ascending(InOrder(Build(ops, cmp)), cmp)
    ensures forall q :: Lookup(Build(ops, cmp), cmp, q) == LastValue(ops, cmp, q)
    ensures |InOrder(Build(ops, cmp))| == DistinctKeys(ops, cmp)
  {
    AvlIsExact(Build(ops, cmp));
    if ops != [] {
      var before, last := ops[..|ops| - 1], ops[|ops| - 1];
      BuildIsMap(before, cmp);
      var t, t' := Build(before, cmp), Build(ops, cmp);
      InsertIsPut(t, cmp, last.0, last.1);
      PutAscending(InOrder(t), cmp, last.0, last.1);
      PutLength(InOrder(t), cmp, last.0, last.1);
      LookupIsGet(t, cmp, last.0);
      assert Lookup(t, cmp, last.0) == LastValue(before, cmp, last.0);
      forall q ensures Lookup(t', cmp, q) == LastValue(ops, cmp, q) {
        LookupIsGet(t', cmp, q);
        LookupIsGet(t, cmp, q);
        GetPut(InOrder(t), cmp, last.0, last.1, q);
        assert Lookup(t, cmp, q) == LastValue(before, cmp, q);
      }
    }
  }

  /** The flag returned by the next insertion of any run. */
  lemma InsertedFlag<K(!new), V>(ops: seq<(K, V)>, cmp: (K, K) -> int, key: K, value: V)
    requires TotalPreorder(cmp)
    ensures Insert(Build(ops, cmp), cmp, key, value).1 <==> LastValue(ops, cmp, key) == None
  {
    BuildIsMap(ops, cmp);
    InsertIsPut(Build(ops, cmp), cmp, key, value);
  }

  // ---------- logarithmic depth ----------

  function Fib(n: nat): nat { if n < 2 then n else Fib(n - 1) + Fib(n - 2) }

  lemma FibSum(h: nat, a: nat, b: nat)
    requires h == 1 + Max(a, b) && -1 <= b - a <= 1
    ensures Fib(h + 2) <= Fib(a + 2) + Fib(b + 2)
  {
    FibMonotone(h, a + 2);
    FibMonotone(h, b + 2);
    assert Fib(h + 2) == Fib(h + 1) + Fib(h);
  }

  /** A balanced tree of height h has at least Fib(h + 2) - 1 nodes. */
  lemma {:induction false} FibonacciNodes<K, V>(t: Tree<K, V>)
    requires Avl(t)
    ensures Fib(Height(t) + 2) <= |InOrder(t)| + 1
  {
    if t.Node? {
      FibonacciNodes(t.left);
      FibonacciNodes(t.right);
      FibSum(Height(t), Height(t.left), Height(t.right));
    }
  }

  lemma {:induction false} FibMonotone(m: nat, n: nat)
    requires m <= n
    ensures Fib(m) <= Fib(n)
    decreases n
  {
    if m < n {
      FibMonotone(m, n - 1);
    }
  }

  lemma {:induction false} FibDoubles(h: nat)
    ensures Pow2(h / 2) <= Fib(h + 2)
  {
    if h >= 2 {
      FibDoubles(h - 2);
      FibMonotone(h, h + 1);
      assert Fib(h + 2) == Fib(h + 1) + Fib(h);
    }
  }

  /** How many comparisons a lookup makes. */
  function Comparisons<K, V>(t: Tree<K, V>, cmp: (K, K) -> int, key: K): (n: nat)
    ensures n <= Height(t)
  {
    if t.Leaf? then 0
    else
      var c := cmp(key, t.key);
      1 + if c == 0 then 0
          else if c < 0 then Comparisons(t.left, cmp, key)
          else Comparisons(t.right, cmp, key)
  }

  lemma ComparisonsBound<K, V>(t: Tree<K, V>, cmp: (K, K) -> int, key: K)
    requires Avl(t)
    ensures Pow2(Comparisons(t, cmp, key) / 2) <= |InOrder(t)| + 1
  {
    var n := Comparisons(t, cmp, key);
    FibonacciNodes(t);
    FibDoubles(n);
    FibMonotone(n + 2, Height(t) + 2);
  }

  /** After any run, a lookup makes at most 2 * log2(n + 1) + 1 comparisons, where n is the
      number of different keys inserted. */
  lemma LookupIsLogarithmic<K(!new), V>(ops: seq<(K, V)>, cmp: (K, K) -> int, key: K)
    requires TotalPreorder(cmp)
    ensures Pow2(Comparisons(Build(ops, cmp), cmp, key) / 2) <= DistinctKeys(ops, cmp) + 1
  {
    BuildIsMap(ops, cmp);
    ComparisonsBound(Build(ops, cmp), cmp, key);
  }

  // ---------- traversals with an early stop ----------

  /** A callback that updates its data and says whether to stop. */
  type Visitor<!S, !K, !V> = (S, K, V) -> (S, bool)

  /** Visits entries in order until the callback asks to stop. */
  function FoldUntil<S, K, V>(es: seq<(K, V)>, f: Visitor<S, K, V>, s: S): (S, bool) {
    if es == [] then (s, false)
    else
      var (s', stop) := f(s, es[0].0, es[0].1);
      if stop then (s', true) else FoldUntil(es[1..], f, s')
  }

  lemma {:induction false} FoldSplit<S, K, V>(a: seq<(K, V)>, b: seq<(K, V)>, f: Visitor<S, K, V>, s: S)
    ensures FoldUntil(a + b, f, s) ==
            var (s', stop) := FoldUntil(a, f, s);
            if stop then (s', true) else FoldUntil(b, f, s')
  {
    if a == [] {
      assert a + b == b;
    } else {
      assert (a + b)[1..] == a[1..] + b;
      FoldSplit(a[1..], b, f, f(s, a[0].0, a[0].1).0);
    }
  }

  /** What the callback makes of entries when nobody stops. */
  function FoldAll<S, K, V>(es: seq<(K, V)>, f: Visitor<S, K, V>, s: S): S {
    if es == [] then s else FoldAll(es[1..], f, f(s, es[0].0, es[0].1).0)
  }

  /** The first n entries are visited and no others: no callback before the n-th asks to stop,
      and the n-th does unless it is the last entry. */
  lemma {:induction false} FoldIsPrefix<S, K, V>(es: seq<(K, V)>, f: Visitor<S, K, V>, s: S) returns (n: nat)
    ensures n <= |es| && FoldUntil(es, f, s).0 == FoldAll(es[..n], f, s)
    ensures forall m | 0 <= m < n - 1 :: !f(FoldAll(es[..m], f, s), es[m].0, es[m].1).1
    ensures FoldUntil(es, f, s).1 <==> n > 0 && f(FoldAll(es[..n - 1], f, s), es[n - 1].0, es[n - 1].1).1
    ensures !FoldUntil(es, f, s).1 ==> n == |es|
  {
    if es == [] {
      n := 0;
    } else {
      var (s', stop) := f(s, es[0].0, es[0].1);
      assert es[..0] == [];
      if stop {
        n := 1;
        assert es[..1] == [es[0]];
      } else {
        var rest := FoldIsPrefix(es[1..], f, s');
        n := rest + 1;
        forall m | 0 < m <= n ensures FoldAll(es[..m], f, s) == FoldAll(es[1..][..m - 1], f, s') {
          assert es[..m][0] == es[0] && es[..m][1..] == es[1..][..m - 1];
        }
        assert forall m | 0 < m <= rest :: es[m] == es[1..][m - 1];
      }
    }
  }

  function PreOrder<K, V>(t: Tree<K, V>): seq<(K, V)> {
    if t.Leaf? then [] else [(t.key, t.value)] + PreOrder(t.left) + PreOrder(t.right)
  }

  function PostOrder<K, V>(t: Tree<K, V>): seq<(K, V)> {
    if t.Leaf? then [] else PostOrder(t.left) + PostOrder(t.right) + [(t.key, t.value)]
  }

  function TraverseIn<S, K, V>(t: Tree<K, V>, f: Visitor<S, K, V>, s: S): (S, bool) {
    if t.Leaf? then (s, false)
    else
      var (s1, stop1) := TraverseIn(t.left, f, s);
      if stop1 then (s1, true) else
      var (s2, stop2) := f(s1, t.key, t.value);
      if stop2 then (s2, true) else
      TraverseIn(t.right, f, s2)
  }

  function TraversePre<S, K, V>(t: Tree<K, V>, f: Visitor<S, K, V>, s: S): (S, bool) {
    if t.Leaf? then (s, false)
    else
      var (s1, stop1) := f(s, t.key, t.value);
      if stop1 then (s1, true) else
      var (s2, stop2) := TraversePre(t.left, f, s1);
      if stop2 then (s2, true) else
      TraversePre(t.right, f, s2)
  }

  function TraversePost<S, K, V>(t: Tree<K, V>, f: Visitor<S, K, V>, s: S): (S, bool) {
    if t.Leaf? then (s, false)
    else
      var (s1, stop1) := TraversePost(t.left, f, s);
      if stop1 then (s1, true) else
      var (s2, stop2) := TraversePost(t.right, f, s1);
      if stop2 then (s2, true) else
      f(s2, t.key, t.value)
  }

  /** The three orders list the same entries. */
  lemma {:induction false} OrdersAgree<K, V>(t: Tree<K, V>)
    ensures multiset(PreOrder(t)) == multiset(InOrder(t)) == multiset(PostOrder(t))
  {
    if t.Node? {
      OrdersAgree(t.left);
      OrdersAgree(t.right);
    }
  }

  /** The three traversals visit the entries in their order up to the first stop. */
  lemma TraversalsFold<S, K, V>(t: Tree<K, V>, f: Visitor<S, K, V>, s: S)
    ensures TraverseIn(t, f, s) == FoldUntil(InOrder(t), f, s)
    ensures TraversePre(t, f, s) == FoldUntil(PreOrder(t), f, s)
    ensures TraversePost(t, f, s) == FoldUntil(PostOrder(t), f, s)
    ensures multiset(PreOrder(t)) == multiset(InOrder(t)) == multiset(PostOrder(t))
  {
    InFold(t, f, s);
    PreFold(t, f, s);
    PostFold(t, f, s);
    OrdersAgree(t);
  }

  lemma {:induction false} InFold<S, K, V>(t: Tree<K, V>, f: Visitor<S, K, V>, s: S)
    ensures TraverseIn(t, f, s) == FoldUntil(InOrder(t), f, s)
  {
    if t.Node? {
      var a, e, b := InOrder(t.left), (t.key, t.value), InOrder(t.right);
      FoldSplit(a + [e], b, f, s);
      FoldSplit(a, [e], f, s);
      InFold(t.left, f, s);
      var s1 := TraverseIn(t.left, f, s).0;
      InFold(t.right, f, f(s1, t.key, t.value).0);
    }
  }

  lemma {:induction false} PreFold<S, K, V>(t: Tree<K, V>, f: Visitor<S, K, V>, s: S)
    ensures TraversePre(t, f, s) == FoldUntil(PreOrder(t), f, s)
  {
    if t.Node? {
      var a, e, b := PreOrder(t.left), (t.key, t.value), PreOrder(t.right);
      FoldSplit([e] + a, b, f, s);
      FoldSplit([e], a, f, s);
      var s1 := f(s, t.key, t.value).0;
      PreFold(t.left, f, s1);
      PreFold(t.right, f, TraversePre(t.left, f, s1).0);
    }
  }

  lemma {:induction false} PostFold<S, K, V>(t: Tree<K, V>, f: Visitor<S, K, V>, s: S)
    ensures TraversePost(t, f, s) == FoldUntil(PostOrder(t), f, s)
  {
    if t.Node? {
      var a, e, b := PostOrder(t.left), (t.key, t.value), PostOrder(t.right);
      FoldSplit(a + b, [e], f, s);
      FoldSplit(a, b, f, s);
      PostFold(t.left, f, s);
      PostFold(t.right, f, TraversePost(t.left, f, s).0);
    }
  }
}
