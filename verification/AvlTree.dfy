/**
 The balanced search tree of src/gtree.c as values: nodes store a balance factor and no
 height, insertion infers growth of a subtree from the change of its root's balance, and
 rotations repair the stored balances by arithmetic. Module AvlHeap holds the version that
 rewrites nodes in place.
 */
module AvlTree {

  datatype Tree<K, V> =
    | Leaf
    | Node(left: Tree<K, V>, key: K, value: V, balance: int, right: Tree<K, V>)

  // ---------- shape ----------

  function Max(a: int, b: int): int { if a > b then a else b }

  function Height<K, V>(t: Tree<K, V>): nat {
    if t.Leaf? then 0 else 1 + Max(Height(t.left), Height(t.right))
  }

  /** Every stored balance is the height difference it stands for. */
  predicate Exact<K, V>(t: Tree<K, V>) {
    t.Node? ==> Exact(t.left) && Exact(t.right) && t.balance == Height(t.right) - Height(t.left)
  }

  predicate Avl<K, V>(t: Tree<K, V>) {
    t.Node? ==>
      && Avl(t.left) && Avl(t.right)
      && t.balance == Height(t.right) - Height(t.left)
      && -1 <= t.balance <= 1
  }

  function InOrder<K, V>(t: Tree<K, V>): seq<(K, V)> {
    if t.Leaf? then [] else InOrder(t.left) + [(t.key, t.value)] + InOrder(t.right)
  }

  lemma AvlIsExact<K, V>(t: Tree<K, V>)
    requires Avl(t)
    ensures Exact(t)
  {}

  // ---------- rotations ----------

  /** The balances of the node and of its right child after a left rotation, from the two before. */
  function LeftBalances(a: int, b: int): (int, int) {
    if b <= 0 then
      (a - 1, if a >= 1 then b - 1 else a + b - 2)
    else
      (a - b - 1, if a <= b then a - 2 else b - 1)
  }

  /** The balances of the node and of its left child after a right rotation. */
  function RightBalances(a: int, b: int): (int, int) {
    if b <= 0 then
      (a - b + 1, if b > a then b + 1 else a + 2)
    else
      (a + 1, if a <= -1 then b + 1 else a + b + 2)
  }

  function RotateLeft<K, V>(t: Tree<K, V>): Tree<K, V>
    requires t.Node? && t.right.Node?
  {
    var (node, right) := LeftBalances(t.balance, t.right.balance);
    Node(Node(t.left, t.key, t.value, node, t.right.left),
         t.right.key, t.right.value, right, t.right.right)
  }

  function RotateRight<K, V>(t: Tree<K, V>): Tree<K, V>
    requires t.Node? && t.left.Node?
  {
    var (node, left) := RightBalances(t.balance, t.left.balance);
    Node(t.left.left, t.left.key, t.left.value, left,
         Node(t.left.right, t.key, t.value, node, t.right))
  }

  /** The balance arithmetic of a left rotation is exact for all heights of its subtrees. */
  lemma RotateLeftExact<K, V>(t: Tree<K, V>)
    requires t.Node? && t.right.Node? && Exact(t)
    ensures Exact(RotateLeft(t))
  {
    var r := RotateLeft(t);
    assert r.left.balance == Height(t.right.left) - Height(t.left);
    assert r.balance == Height(t.right.right) - (1 + Max(Height(t.left), Height(t.right.left)));
  }

  lemma RotateRightExact<K, V>(t: Tree<K, V>)
    requires t.Node? && t.left.Node? && Exact(t)
    ensures Exact(RotateRight(t))
  {
    var r := RotateRight(t);
    assert r.right.balance == Height(t.right) - Height(t.left.right);
    assert r.balance == (1 + Max(Height(t.right), Height(t.left.right))) - Height(t.left.left);
  }

  lemma RotateLeftInOrder<K, V>(t: Tree<K, V>)
    requires t.Node? && t.right.Node?
    ensures InOrder(RotateLeft(t)) == InOrder(t)
  {
    Reassociate(InOrder(t.left), [(t.key, t.value)], InOrder(t.right.left),
                [(t.right.key, t.right.value)], InOrder(t.right.right));
  }

  lemma RotateRightInOrder<K, V>(t: Tree<K, V>)
    requires t.Node? && t.left.Node?
    ensures InOrder(RotateRight(t)) == InOrder(t)
  {
    Reassociate(InOrder(t.left.left), [(t.left.key, t.left.value)], InOrder(t.left.right),
                [(t.key, t.value)], InOrder(t.right));
  }

  lemma Reassociate<T>(l: seq<T>, x: seq<T>, m: seq<T>, y: seq<T>, r: seq<T>)
    ensures (l + x + m) + y + r == l + x + (m + y + r)
  {}

  /** The nodes that rebalancing dereferences exist. */
  predicate Rotatable<K, V>(t: Tree<K, V>) {
    && t.Node?
    && (t.balance < -1 ==> t.left.Node? && (t.left.balance > 0 ==> t.left.right.Node?))
    && (t.balance > 1 ==> t.right.Node? && (t.right.balance < 0 ==> t.right.left.Node?))
  }

  function Rebalance<K, V>(t: Tree<K, V>): Tree<K, V>
    requires Rotatable(t)
  {
    if t.balance < -1 then
      RotateRight(if t.left.balance > 0 then t.(left := RotateLeft(t.left)) else t)
    else if t.balance > 1 then
      RotateLeft(if t.right.balance < 0 then t.(right := RotateRight(t.right)) else t)
    else
      t
  }

  lemma RebalanceInOrder<K, V>(t: Tree<K, V>)
    requires Rotatable(t)
    ensures InOrder(Rebalance(t)) == InOrder(t)
  {
    if t.balance < -1 {
      if t.left.balance > 0 {
        RotateLeftInOrder(t.left);
        RotateRightInOrder(t.(left := RotateLeft(t.left)));
      } else {
        RotateRightInOrder(t);
      }
    } else if t.balance > 1 {
      if t.right.balance < 0 {
        RotateRightInOrder(t.right);
        RotateLeftInOrder(t.(right := RotateRight(t.right)));
      } else {
        RotateLeftInOrder(t);
      }
    }
  }

  /** The result of rebalancing a node that was one level too heavy: balanced, with root
      balance 0 and one level lower. */
  predicate Lowered<K, V>(before: Tree<K, V>, after: Tree<K, V>) {
    after.Node? && Avl(after) && after.balance == 0 && Height(after) == Height(before) - 1
  }

  predicate TooHeavy<K, V>(t: Tree<K, V>) {
    && t.Node? && Avl(t.left) && Avl(t.right)
    && t.balance == Height(t.right) - Height(t.left)
    && (t.balance == -2 || t.balance == 2)
  }

  lemma SingleRight<K, V>(t: Tree<K, V>)
    requires TooHeavy(t) && t.balance == -2 && t.left.Node? && t.left.balance == -1
    ensures Lowered(t, RotateRight(t))
  {}

  lemma SingleLeft<K, V>(t: Tree<K, V>)
    requires TooHeavy(t) && t.balance == 2 && t.right.Node? && t.right.balance == 1
    ensures Lowered(t, RotateLeft(t))
  {}

  /** A node over balanced subtrees whose balance is their height difference. */
  lemma Joined<K, V>(x: Tree<K, V>, k: K, v: V, y: Tree<K, V>, bal: int)
    requires Avl(x) && Avl(y) && bal == Height(y) - Height(x) && -1 <= bal <= 1
    ensures Avl(Node(x, k, v, bal, y)) && Height(Node(x, k, v, bal, y)) == 1 + Max(Height(x), Height(y))
  {}

  lemma MiddleHeights<K, V>(m: Tree<K, V>, h: nat)
    requires m.Node? && Avl(m) && Height(m) == h + 1
    ensures Avl(m.left) && Avl(m.right) && -1 <= m.balance <= 1
    ensures Height(m.left) == (if m.balance == 1 then h - 1 else h)
    ensures Height(m.right) == (if m.balance == -1 then h - 1 else h)
  {}

  /** What a double rotation builds from a middle tree that is one higher than both sides. */
  lemma MiddleRises<K, V>(l: Tree<K, V>, k: K, v: V, m: Tree<K, V>, k': K, v': V, r: Tree<K, V>, h: nat)
    requires Avl(l) && Avl(m) && Avl(r) && m.Node?
    requires Height(l) == h && Height(r) == h && Height(m) == h + 1
    ensures var top := Node(Node(l, k, v, if m.balance == 1 then -1 else 0, m.left), m.key, m.value, 0,
                            Node(m.right, k', v', if m.balance == -1 then 1 else 0, r));
            Avl(top) && Height(top) == h + 2
  {
    MiddleHeights(m, h);
    var bl, br := if m.balance == 1 then -1 else 0, if m.balance == -1 then 1 else 0;
    Joined(l, k, v, m.left, bl);
    Joined(m.right, k', v', r, br);
    Joined(Node(l, k, v, bl, m.left), m.key, m.value, Node(m.right, k', v', br, r), 0);
  }

  lemma DoubleRight<K, V>(t: Tree<K, V>)
    requires TooHeavy(t) && t.balance == -2 && t.left.Node? && t.left.balance == 1 && t.left.right.Node?
    ensures Lowered(t, RotateRight(t.(left := RotateLeft(t.left))))
  {
    var l, m := t.left, t.left.right;
    MiddleRises(l.left, l.key, l.value, m, t.key, t.value, t.right, Height(t.right));
  }

  lemma DoubleLeft<K, V>(t: Tree<K, V>)
    requires TooHeavy(t) && t.balance == 2 && t.right.Node? && t.right.balance == -1 && t.right.left.Node?
    ensures Lowered(t, RotateLeft(t.(right := RotateRight(t.right))))
  {
    var r, m := t.right, t.right.left;
    MiddleRises(t.left, t.key, t.value, m, r.key, r.value, r.right, Height(t.left));
  }

  /** Rebalancing lowers a node that is one level too heavy, provided the heavy child leans. */
  lemma RebalanceAvl<K, V>(t: Tree<K, V>)
    requires TooHeavy(t)
    requires t.balance == -2 ==> t.left.Node? && t.left.balance != 0
    requires t.balance == 2 ==> t.right.Node? && t.right.balance != 0
    ensures Rotatable(t) && Lowered(t, Rebalance(t))
  {
    if t.balance == -2 {
      if t.left.balance > 0 { DoubleRight(t); } else { SingleRight(t); }
    } else {
      if t.right.balance < 0 { DoubleLeft(t); } else { SingleLeft(t); }
    }
  }

  // ---------- insertion ----------

  /** The subtree-growth test of the source: the root's balance changed and is not 0 now. */
  predicate GrewTest<K, V>(before: Tree<K, V>, after: Tree<K, V>)
    requires before.Node? && after.Node?
  {
    before.balance != after.balance && after.balance != 0
  }

  /** A node with a new left subtree; its balance follows the growth test. */
  function HangLeft<K, V>(t: Tree<K, V>, left: Tree<K, V>): Tree<K, V>
    requires t.Node? && left.Node?
  {
    var grew := t.left.Leaf? || GrewTest(t.left, left);
    Node(left, t.key, t.value, if grew then t.balance - 1 else t.balance, t.right)
  }

  function HangRight<K, V>(t: Tree<K, V>, right: Tree<K, V>): Tree<K, V>
    requires t.Node? && right.Node?
  {
    var grew := t.right.Leaf? || GrewTest(t.right, right);
    Node(t.left, t.key, t.value, if grew then t.balance + 1 else t.balance, right)
  }

  /** A node one of whose subtrees was replaced by the result of an insertion. */
  ghost predicate AfterChild<K, V>(t: Tree<K, V>, inserted: bool) {
    && t.Node? && Avl(t.left) && Avl(t.right)
    && t.balance == Height(t.right) - Height(t.left)
    && -2 <= t.balance <= 2
    && (t.balance == -2 ==> inserted && t.left.Node? && t.left.balance != 0)
    && (t.balance == 2 ==> inserted && t.right.Node? && t.right.balance != 0)
  }

  function Repair<K, V>(t: Tree<K, V>, inserted: bool): (r: Tree<K, V>)
    requires AfterChild(t, inserted)
    ensures r.Node? && Avl(r)
    ensures -1 <= t.balance <= 1 ==> r == t
    ensures !(-1 <= t.balance <= 1) ==> r.balance == 0 && Height(r) == Height(t) - 1
  {
    if inserted && (t.balance < -1 || t.balance > 1) then
      RebalanceAvl(t);
      Rebalance(t)
    else
      t
  }

  /** What an insertion into a subtree gives: it is balanced, at most one level higher, and
      the growth test on its root tells exactly whether it grew. */
  ghost predicate Grown<K, V>(before: Tree<K, V>, after: Tree<K, V>, inserted: bool) {
    && after.Node? && Avl(after)
    && Height(before) <= Height(after) <= Height(before) + 1
    && (before.Node? ==> (GrewTest(before, after) <==> Height(after) == Height(before) + 1))
    && (!inserted ==> before.Node? && Height(after) == Height(before))
  }

  lemma LeftRepairs<K, V>(t: Tree<K, V>, left: Tree<K, V>, inserted: bool)
    requires t.Node? && Avl(t) && Grown(t.left, left, inserted)
    ensures AfterChild(HangLeft(t, left), inserted)
    ensures Grown(t, Repair(HangLeft(t, left), inserted), inserted)
  {
    var h := HangLeft(t, left);
    assert h.balance == Height(t.right) - Height(left);
    assert Height(h) == 1 + Max(Height(left), Height(t.right));
  }

  lemma RightRepairs<K, V>(t: Tree<K, V>, right: Tree<K, V>, inserted: bool)
    requires t.Node? && Avl(t) && Grown(t.right, right, inserted)
    ensures AfterChild(HangRight(t, right), inserted)
    ensures Grown(t, Repair(HangRight(t, right), inserted), inserted)
  {
    var h := HangRight(t, right);
    assert h.balance == Height(right) - Height(t.left);
    assert Height(h) == 1 + Max(Height(t.left), Height(right));
  }

  /** Inserts or replaces; the flag tells whether the key was new. The contract carries the
      balance invariant: the result is balanced, at most one level higher, and the growth
      test on the root is true exactly when the tree grew. */
  function Insert<K, V>(t: Tree<K, V>, cmp: (K, K) -> int, key: K, value: V): (r: (Tree<K, V>, bool))
    requires Avl(t)
    ensures Grown(t, r.0, r.1)
  {
    if t.Leaf? then
      (Node(Leaf, key, value, 0, Leaf), true)
    else
      var c := cmp(key, t.key);
      if c == 0 then
        (t.(value := value), false)
      else if c < 0 then
        var (left, inserted) := Insert(t.left, cmp, key, value);
        LeftRepairs(t, left, inserted);
        (Repair(HangLeft(t, left), inserted), inserted)
      else
        var (right, inserted) := Insert(t.right, cmp, key, value);
        RightRepairs(t, right, inserted);
        (Repair(HangRight(t, right), inserted), inserted)
  }
}
