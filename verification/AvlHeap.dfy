/**
 The tree of src/gtree.c as it runs: nodes on the heap whose links, balances and values are
 rewritten in place. Every method is proved to compute the value-level operation of AvlTree.
 */
module AvlHeap {
  import opened Orders
  import opened AvlTree
  import opened AvlMap
  import opened Options

  /** ITraverseType. */
  datatype Order = Pre | In | Post

  class TreeNode<K, V> {
    const key: K
    var value: V
    var balance: int
    var left: TreeNode?<K, V>
    var right: TreeNode?<K, V>
    ghost var repr: set<TreeNode<K, V>>
    ghost var model: Tree<K, V>

    ghost predicate Valid()
      reads this, repr
      ensures Valid() ==> this in repr && model.Node?
    {
      && this in repr
      && (left != null ==> left in repr && left.repr <= repr && this !in left.repr && left.Valid())
      && (right != null ==> right in repr && right.repr <= repr && this !in right.repr && right.Valid())
      && (left != null && right != null ==> left.repr !! right.repr)
      && model == Node(if left == null then Leaf else left.model, key, value, balance,
                       if right == null then Leaf else right.model)
    }

    constructor (key: K, value: V)
      ensures Valid() && fresh(repr) && model == Node(Leaf, key, value, 0, Leaf)
    {
      this.key, this.value, balance := key, value, 0;
      left, right := null, null;
      repr, model := {this}, Node(Leaf, key, value, 0, Leaf);
    }
  }

  ghost function Model<K, V>(n: TreeNode?<K, V>): Tree<K, V>
    reads n
  {
    if n == null then Leaf else n.model
  }

  ghost function Footprint<K, V>(n: TreeNode?<K, V>): set<TreeNode<K, V>>
    reads n
  {
    if n == null then {} else n.repr
  }

  ghost predicate Subtree<K, V>(n: TreeNode?<K, V>)
    reads n, Footprint(n)
  {
    n == null || n.Valid()
  }

  method RotateLeftNode<K, V>(node: TreeNode<K, V>) returns (top: TreeNode<K, V>)
    requires node.Valid() && node.right != null
    modifies node, node.right
    ensures top == old(node.right)
    ensures top.Valid() && top.repr == old(node.repr)
    ensures top.model == RotateLeft(old(node.model))
  {
    var right := node.right;
    ghost var l, m, r := node.left, right.left, right.right;
    ghost var all, t := node.repr, node.model;

    node.right := right.left;
    right.left := node;
    var (a, b) := LeftBalances(node.balance, right.balance);
    node.balance := a;
    right.balance := b;

    node.repr := {node} + Footprint(l) + Footprint(m);
    node.model := RotateLeft(t).left;
    right.repr := all;
    right.model := RotateLeft(t);
    assert Subtree(l) && Subtree(m) && Subtree(r);
    assert node.Valid();
    top := right;
  }

  method RotateRightNode<K, V>(node: TreeNode<K, V>) returns (top: TreeNode<K, V>)
    requires node.Valid() && node.left != null
    modifies node, node.left
    ensures top == old(node.left)
    ensures top.Valid() && top.repr == old(node.repr)
    ensures top.model == RotateRight(old(node.model))
  {
    var left := node.left;
    ghost var l, m, r := left.left, left.right, node.right;
    ghost var all, t := node.repr, node.model;

    node.left := left.right;
    left.right := node;
    var (a, b) := RightBalances(node.balance, left.balance);
    node.balance := a;
    left.balance := b;

    node.repr := {node} + Footprint(m) + Footprint(r);
    node.model := RotateRight(t).right;
    left.repr := all;
    left.model := RotateRight(t);
    assert Subtree(l) && Subtree(m) && Subtree(r);
    assert node.Valid();
    top := left;
  }

  method BalanceNode<K, V>(node: TreeNode<K, V>) returns (top: TreeNode<K, V>)
    requires node.Valid() && Rotatable(node.model)
    modifies node.repr
    ensures top.Valid() && top.repr == old(node.repr)
    ensures top.model == Rebalance(old(node.model))
  {
    top := node;
    if node.balance < -1 {
      if node.left.balance > 0 {
        var left := RotateLeftNode(node.left);
        ReplaceLeft(node, left);
      }
      top := RotateRightNode(node);
    } else if node.balance > 1 {
      if node.right.balance < 0 {
        var right := RotateRightNode(node.right);
        ReplaceRight(node, right);
      }
      top := RotateLeftNode(node);
    }
  }

  /** Hangs a subtree below a node in place of its left one. */
  method ReplaceLeft<K, V>(node: TreeNode<K, V>, left: TreeNode<K, V>)
    requires node in node.repr && node.model.Node?
    requires node.model == Node(node.model.left, node.key, node.value, node.balance, Model(node.right))
    requires Subtree(node.right) && Footprint(node.right) <= node.repr && node !in Footprint(node.right)
    requires left.Valid() && node !in left.repr && left.repr !! Footprint(node.right)
    modifies node
    ensures node.Valid() && node.left == left && node.right == old(node.right)
    ensures node.balance == old(node.balance) && node.value == old(node.value)
    ensures node.repr == old(node.repr) + left.repr
    ensures node.model == old(node.model).(left := left.model)
  {
    node.left := left;
    node.repr := node.repr + left.repr;
    node.model := node.model.(left := left.model);
    assert left.Valid() && Subtree(node.right);
  }

  method ReplaceRight<K, V>(node: TreeNode<K, V>, right: TreeNode<K, V>)
    requires node in node.repr && node.model.Node?
    requires node.model == Node(Model(node.left), node.key, node.value, node.balance, node.model.right)
    requires Subtree(node.left) && Footprint(node.left) <= node.repr && node !in Footprint(node.left)
    requires right.Valid() && node !in right.repr && right.repr !! Footprint(node.left)
    modifies node
    ensures node.Valid() && node.right == right && node.left == old(node.left)
    ensures node.balance == old(node.balance) && node.value == old(node.value)
    ensures node.repr == old(node.repr) + right.repr
    ensures node.model == old(node.model).(right := right.model)
  {
    node.right := right;
    node.repr := node.repr + right.repr;
    node.model := node.model.(right := right.model);
    assert right.Valid() && Subtree(node.left);
  }

  method SetBalance<K, V>(node: TreeNode<K, V>, balance: int)
    requires node.Valid()
    modifies node
    ensures node.Valid() && node.repr == old(node.repr) && node.balance == balance
    ensures node.model == old(node.model).(balance := balance)
  {
    node.balance := balance;
    node.model := node.model.(balance := balance);
    assert Subtree(node.left) && Subtree(node.right);
  }

  /** i_tree_node_insert: the heap recursion computes the value-level insertion. */
  method InsertNode<K, V>(node: TreeNode?<K, V>, cmp: (K, K) -> int, key: K, value: V)
    returns (top: TreeNode<K, V>, inserted: bool)
    requires Subtree(node) && Avl(Model(node))
    modifies Footprint(node)
    ensures top.Valid() && fresh(top.repr - old(Footprint(node)))
    ensures (top.model, inserted) == Insert(old(Model(node)), cmp, key, value)
    decreases Model(node), 1
  {
    if node == null {
      top := new TreeNode(key, value);
      return top, true;
    }
    var c := cmp(key, node.key);
    if c == 0 {
      node.value := value;
      node.model := node.model.(value := value);
      assert Subtree(node.left) && Subtree(node.right);
      return node, false;
    }
    if c < 0 {
      inserted := InsertLeft(node, cmp, key, value);
    } else {
      inserted := InsertRight(node, cmp, key, value);
    }
    top := node;
    if inserted {
      if node.balance < -1 || node.balance > 1 {
        RebalanceAvl(node.model);
        top := BalanceNode(node);
      }
    }
  }

  /** The branch of i_tree_node_insert for smaller keys. */
  method InsertLeft<K, V>(node: TreeNode<K, V>, cmp: (K, K) -> int, key: K, value: V)
    returns (inserted: bool)
    requires node.Valid() && Avl(node.model) && cmp(key, node.key) < 0
    modifies node.repr
    ensures node.Valid() && fresh(node.repr - old(node.repr))
    ensures node.model == HangLeft(old(node.model), Insert(old(node.model).left, cmp, key, value).0)
    ensures inserted == Insert(old(node.model).left, cmp, key, value).1
    decreases node.model, 0
  {
    if node.left != null {
      var oldBalance := node.left.balance;
      var left;
      left, inserted := InsertNode(node.left, cmp, key, value);
      ReplaceLeft(node, left);
      if oldBalance != left.balance && left.balance != 0 {
        SetBalance(node, node.balance - 1);
      }
    } else {
      inserted := true;
      var left := new TreeNode(key, value);
      ReplaceLeft(node, left);
      SetBalance(node, node.balance - 1);
    }
  }

  /** The branch of i_tree_node_insert for larger keys. */
  method InsertRight<K, V>(node: TreeNode<K, V>, cmp: (K, K) -> int, key: K, value: V)
    returns (inserted: bool)
    requires node.Valid() && Avl(node.model) && cmp(key, node.key) > 0
    modifies node.repr
    ensures node.Valid() && fresh(node.repr - old(node.repr))
    ensures node.model == HangRight(old(node.model), Insert(old(node.model).right, cmp, key, value).0)
    ensures inserted == Insert(old(node.model).right, cmp, key, value).1
    decreases node.model, 0
  {
    if node.right != null {
      var oldBalance := node.right.balance;
      var right;
      right, inserted := InsertNode(node.right, cmp, key, value);
      ReplaceRight(node, right);
      if oldBalance != right.balance && right.balance != 0 {
        SetBalance(node, node.balance + 1);
      }
    } else {
      inserted := true;
      var right := new TreeNode(key, value);
      ReplaceRight(node, right);
      SetBalance(node, node.balance + 1);
    }
  }

  /** i_tree_node_lookup on the heap. */
  function LookupNode<K, V>(node: TreeNode?<K, V>, cmp: (K, K) -> int, key: K): (r: Option<V>)
    requires Subtree(node)
    reads node, Footprint(node)
    ensures r == Lookup(Model(node), cmp, key)
    decreases Model(node)
  {
    if node == null then None
    else
      var c := cmp(key, node.key);
      if c == 0 then Some(node.value)
      else if c < 0 then (if node.left != null then LookupNode(node.left, cmp, key) else None)
      else (if node.right != null then LookupNode(node.right, cmp, key) else None)
  }

  /** The in-order recursion on the heap; the callback's data is threaded through. */
  function TraverseNode<S, K, V>(node: TreeNode<K, V>, f: Visitor<S, K, V>, s: S): (r: (S, bool))
    requires node.Valid()
    reads node, node.repr
    ensures r == TraverseIn(node.model, f, s)
    decreases node.model
  {
    var (s1, stop1) := if node.left != null then TraverseNode(node.left, f, s) else (s, false);
    if stop1 then (s1, true)
    else
      var (s2, stop2) := f(s1, node.key, node.value);
      if stop2 then (s2, true)
      else if node.right != null then TraverseNode(node.right, f, s2)
      else (s2, false)
  }

  /** The pre-order recursion on the heap. */
  function TraverseNodePre<S, K, V>(node: TreeNode<K, V>, f: Visitor<S, K, V>, s: S): (r: (S, bool))
    requires node.Valid()
    reads node, node.repr
    ensures r == TraversePre(node.model, f, s)
    decreases node.model
  {
    var (s1, stop1) := f(s, node.key, node.value);
    if stop1 then (s1, true)
    else
      var (s2, stop2) := if node.left != null then TraverseNodePre(node.left, f, s1) else (s1, false);
      if stop2 then (s2, true)
      else if node.right != null then TraverseNodePre(node.right, f, s2)
      else (s2, false)
  }

  /** The post-order recursion on the heap. */
  function TraverseNodePost<S, K, V>(node: TreeNode<K, V>, f: Visitor<S, K, V>, s: S): (r: (S, bool))
    requires node.Valid()
    reads node, node.repr
    ensures r == TraversePost(node.model, f, s)
    decreases node.model
  {
    var (s1, stop1) := if node.left != null then TraverseNodePost(node.left, f, s) else (s, false);
    if stop1 then (s1, true)
    else
      var (s2, stop2) := if node.right != null then TraverseNodePost(node.right, f, s1) else (s1, false);
      if stop2 then (s2, true) else f(s2, node.key, node.value)
  }

  /** The tree object its clients hold. Its ghost history makes the end-to-end statement:
      the heap structure always answers as the finite map of all insertions so far. */
  class SearchTree<K(!new), V> {
    const cmp: (K, K) -> int
    var root: TreeNode?<K, V>
    ghost var ops: seq<(K, V)>

    ghost predicate Valid()
      reads this, root, Footprint(root)
    {
      TotalPreorder(cmp) && Holds()
    }

    /** The nodes are the tree that the history builds. */
    ghost predicate Holds()
      reads this, root, Footprint(root)
    {
      Subtree(root) && Model(root) == Build(ops, cmp)
    }

    constructor (cmp: (K, K) -> int)
      requires TotalPreorder(cmp)
      ensures Valid() && ops == [] && fresh(Footprint(root)) && this.cmp == cmp
    {
      this.cmp, root, ops := cmp, null, [];
    }

    method Insert(key: K, value: V) returns (inserted: bool)
      requires Valid()
      modifies this, Footprint(root)
      ensures Valid() && fresh(Footprint(root) - old(Footprint(root)))
      ensures ops == old(ops) + [(key, value)]
      ensures inserted <==> LastValue(old(ops), cmp, key) == None
    {
      InsertedFlag(ops, cmp, key, value);
      inserted := InsertEntry(key, value);
    }

    method InsertEntry(key: K, value: V) returns (inserted: bool)
      requires Holds()
      modifies this, Footprint(root)
      ensures Holds() && fresh(Footprint(root) - old(Footprint(root)))
      ensures ops == old(ops) + [(key, value)]
      ensures inserted == AvlTree.Insert(Build(old(ops), cmp), cmp, key, value).1
    {
      BuildExtends(ops, cmp, key, value);
      root, inserted := InsertNode(root, cmp, key, value);
      ops := ops + [(key, value)];
    }

    method Find(key: K) returns (r: Option<V>)
      requires Valid()
      ensures r == LastValue(ops, cmp, key)
    {
      BuildIsMap(ops, cmp);
      r := LookupNode(root, cmp, key);
    }

    /** What the history leaves in the tree, in key order. */
    ghost function Entries(): seq<(K, V)>
      reads this
    {
      InOrder(Build(ops, cmp))
    }

    /** In order, it visits the keys ascending, each once, and in every order it visits the same
        entries, up to the first stop. */
    method Traverse<S>(order: Order, f: Visitor<S, K, V>, s: S) returns (r: S)
      requires Valid()
      ensures Ascending(Entries(), cmp) && |Entries()| == DistinctKeys(ops, cmp)
      ensures forall q :: Get(Entries(), cmp, q) == LastValue(ops, cmp, q)
      ensures order == In ==> r == FoldUntil(Entries(), f, s).0
      ensures order == Pre ==> r == FoldUntil(PreOrder(Build(ops, cmp)), f, s).0
      ensures order == Post ==> r == FoldUntil(PostOrder(Build(ops, cmp)), f, s).0
    {
      BuildIsMap(ops, cmp);
      forall q ensures Get(Entries(), cmp, q) == LastValue(ops, cmp, q) {
        LookupIsGet(Model(root), cmp, q);
      }
      TraversalsFold(Model(root), f, s);
      if root == null {
        return s;
      }
      match order
      case Pre => r := TraverseNodePre(root, f, s).0;
      case In => r := TraverseNode(root, f, s).0;
      case Post => r := TraverseNodePost(root, f, s).0;
    }
  }
}
