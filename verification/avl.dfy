/**
 The AVL tree: the same descent as the unbalanced tree, followed on the way back
 up by recomputing the stored height and by one of four rotation cases chosen
 from the balance factor and from how the inserted key compares with the key of
 the heavy child.
 */
module Avl {
  import opened Trees
  import Bst

  function Max(a: int, b: int): int {
    if a < b then b else a
  }

  /** `_get_height`: 0 for an empty link, otherwise the height stored in the node. */
  function Height(t: Tree): int {
    if t.Nil? then 0 else t.height
  }

  /** `_get_balance`: stored height of the left child minus that of the right
      child, 0 for an empty link. */
  function Balance(t: Tree): int {
    if t.Nil? then 0 else Height(t.left) - Height(t.right)
  }

  /** Every stored height is one more than the larger stored height of the
      children, an empty child counting 0. */
  ghost predicate HeightsOk(t: Tree) {
    match t
    case Nil => true
    case Node(_, l, r, h) => HeightsOk(l) && HeightsOk(r) && h == 1 + Max(Height(l), Height(r))
  }

  /** The AVL condition: every node has a balance factor of -1, 0 or 1. */
  ghost predicate Balanced(t: Tree) {
    match t
    case Nil => true
    case Node(_, l, r, _) => -1 <= Balance(t) <= 1 && Balanced(l) && Balanced(r)
  }

  /** The number of nodes on the longest path from the root to an empty link. */
  ghost function Depth(t: Tree): nat {
    match t
    case Nil => 0
    case Node(_, l, r, _) => 1 + (if Depth(l) < Depth(r) then Depth(r) else Depth(l))
  }

  function Pow2(n: nat): nat {
    if n == 0 then 1 else 2 * Pow2(n - 1)
  }

  /** `_right_rotate`: the left child becomes the subtree root, the old root
      becomes its right child and adopts the child's former right subtree; the
      demoted node's height is recomputed first, then the new root's. */
  function RightRotate(t: Tree): (r: Tree)
    requires t.Node? && t.left.Node?
    ensures r.Node? && r.key == t.left.key && r.right.Node? && r.right.key == t.key
    ensures InOrder(r) == InOrder(t)
    ensures HeightsOk(t.left.left) && HeightsOk(t.left.right) && HeightsOk(t.right) ==> HeightsOk(r)
  {
    var y := t.left;
    var z := Node(t.key, y.right, t.right, 1 + Max(Height(y.right), Height(t.right)));
    assert InOrder(t) == InOrder(y.left) + [y.key] + (InOrder(y.right) + [t.key] + InOrder(t.right));
    Node(y.key, y.left, z, 1 + Max(Height(y.left), Height(z)))
  }

  /** `_left_rotate`: the mirror image of RightRotate. */
  function LeftRotate(t: Tree): (r: Tree)
    requires t.Node? && t.right.Node?
    ensures r.Node? && r.key == t.right.key && r.left.Node? && r.left.key == t.key
    ensures InOrder(r) == InOrder(t)
    ensures HeightsOk(t.left) && HeightsOk(t.right.left) && HeightsOk(t.right.right) ==> HeightsOk(r)
  {
    var y := t.right;
    var z := Node(t.key, t.left, y.left, 1 + Max(Height(t.left), Height(y.left)));
    assert InOrder(t) == InOrder(t.left) + [t.key] + InOrder(y.left) + [y.key] + InOrder(y.right);
    Node(y.key, z, y.right, 1 + Max(Height(z), Height(y.right)))
  }

  /** How a call of `_insert` ends: it returns the root of the rebuilt subtree,
      or a rebalancing step reads a field of an empty link and AttributeError
      is raised. In both cases `tree` is the subtree as the nodes are left. */
  datatype Outcome = Ok(tree: Tree) | AttributeError(tree: Tree)

  /** The part of `_insert` after the child has been rebound: recompute the
      height, compute the balance factor, and try the LL, RR, LR and RL cases
      in that order, each guarded by a strict comparison of the inserted key
      with the key of the heavy child. */
  function Rebalance(n: Tree, key: int): (o: Outcome)
    requires n.Node?
    ensures InOrder(o.tree) == InOrder(n)
    ensures HeightsOk(n.left) && HeightsOk(n.right) ==> HeightsOk(o.tree)
  {
    var node := n.(height := 1 + Max(Height(n.left), Height(n.right)));
    var balance := Balance(node);
    if balance > 1 && node.left.Nil? then AttributeError(node)
    else if balance > 1 && key < node.left.key then Ok(RightRotate(node))
    else if balance < -1 && node.right.Nil? then AttributeError(node)
    else if balance < -1 && key > node.right.key then Ok(LeftRotate(node))
    else if balance > 1 && key > node.left.key then
      if node.left.right.Nil? then AttributeError(node)
      else
        var child := LeftRotate(node.left);
        assert HeightsOk(n.left) ==> HeightsOk(n.left.left) && HeightsOk(n.left.right);
        assert HeightsOk(n.left.right) ==> HeightsOk(n.left.right.left) && HeightsOk(n.left.right.right);
        assert HeightsOk(n.left) ==> HeightsOk(child) && HeightsOk(child.left) && HeightsOk(child.right);
        Ok(RightRotate(node.(left := child)))
    else if balance < -1 && key < node.right.key then
      if node.right.left.Nil? then AttributeError(node)
      else
        var child := RightRotate(node.right);
        assert HeightsOk(n.right) ==> HeightsOk(n.right.right) && HeightsOk(n.right.left);
        assert HeightsOk(n.right.left) ==> HeightsOk(n.right.left.left) && HeightsOk(n.right.left.right);
        assert HeightsOk(n.right) ==> HeightsOk(child) && HeightsOk(child.left) && HeightsOk(child.right);
        Ok(LeftRotate(node.(right := child)))
    else Ok(node)
  }

  /** `_insert`: descend exactly as the unbalanced tree does, then rebalance
      each node on the way back up. When a call deeper down raises, the nodes
      above it keep their links and their old heights. Whatever happens, the
      in-order listing is the one the unbalanced insertion produces, and a
      call that returns keeps every stored height correct. */
  function InsertNode(t: Tree, key: int): (o: Outcome)
    ensures InOrder(o.tree) == InOrder(Bst.InsertNode(t, key))
    ensures HeightsOk(t) && o.Ok? ==> HeightsOk(o.tree)
  {
    match t
    case Nil => Ok(Leaf(key))
    case Node(x, l, r, h) =>
      if key < x then
        match InsertNode(l, key)
        case Ok(l') => Rebalance(Node(x, l', r, h), key)
        case AttributeError(p) => AttributeError(Node(x, p, r, h))
      else
        match InsertNode(r, key)
        case Ok(r') => Rebalance(Node(x, l, r', h), key)
        case AttributeError(p) => AttributeError(Node(x, l, p, h))
  }

  /** Insertion adds exactly one occurrence of the key, also when it raises. */
  lemma InsertNodeKeys(t: Tree, key: int)
    ensures Keys(InsertNode(t, key).tree) == Keys(t) + multiset{key}
  {
    KeysOfInOrder(InsertNode(t, key).tree);
    KeysOfInOrder(Bst.InsertNode(t, key));
  }

  /** tree_sum grows by exactly the inserted key. */
  lemma InsertNodeSum(t: Tree, key: int)
    ensures TreeSum(InsertNode(t, key).tree) == TreeSum(t) + key
  {
    Bst.InsertNodeSum(t, key);
  }

  /** A sorted in-order listing stays sorted: the key lands after every key at
      most it and before every larger one, with or without duplicates. */
  lemma InsertNodeInOrder(t: Tree, key: int)
    requires NonDecreasing(InOrder(t))
    ensures InOrder(InsertNode(t, key).tree) == InsertSorted(InOrder(t), key)
    ensures NonDecreasing(InOrder(InsertNode(t, key).tree))
  {
    Bst.InsertNodeInOrder(t, key);
    InsertSortedIsSorted(InOrder(t), key);
  }

  lemma {:induction false} HeightNonNegative(t: Tree)
    requires HeightsOk(t)
    ensures 0 <= Height(t)
    ensures t.Node? ==> 1 <= Height(t)
  {
    if t.Node? {
      HeightNonNegative(t.left);
      HeightNonNegative(t.right);
    }
  }

  /** Correct stored heights are the true heights. */
  lemma {:induction false} HeightIsDepth(t: Tree)
    requires HeightsOk(t)
    ensures Height(t) == Depth(t)
  {
    if t.Node? {
      HeightIsDepth(t.left);
      HeightIsDepth(t.right);
    }
  }

  /** `_get_balance` of a node with correct heights is the difference of the
      true heights of its two subtrees. */
  lemma BalanceIsDepthDifference(t: Tree)
    requires HeightsOk(t) && t.Node?
    ensures Balance(t) == Depth(t.left) - Depth(t.right)
  {
    HeightIsDepth(t.left);
    HeightIsDepth(t.right);
  }

  lemma {:induction false} Pow2Monotone(a: nat, b: nat)
    requires a <= b
    ensures Pow2(a) <= Pow2(b)
  {
    if a < b {
      Pow2Monotone(a, b - 1);
    }
  }

  /** A balanced tree is logarithmically shallow: with n nodes and true height
      d, 2^(d/2) <= n + 1. */
  lemma {:induction false} BalancedIsShallow(t: Tree)
    requires HeightsOk(t) && Balanced(t)
    ensures Pow2(Depth(t) / 2) <= |Keys(t)| + 1
  {
    if t.Node? {
      var l, r := t.left, t.right;
      BalancedIsShallow(l);
      BalancedIsShallow(r);
      HeightIsDepth(l);
      HeightIsDepth(r);
      var d := Depth(t);
      if d >= 2 {
        Pow2Monotone((d - 2) / 2, Depth(l) / 2);
        Pow2Monotone((d - 2) / 2, Depth(r) / 2);
        assert (d - 2) / 2 + 1 == d / 2;
      }
    }
  }

  /** LL: a right rotation repairs a node whose left child is two higher than
      its right child and leans left; the subtree's height drops back. */
  lemma RightRotateBalances(n: Tree)
    requires n.Node? && n.left.Node?
    requires HeightsOk(n.left) && HeightsOk(n.right) && Balanced(n.left) && Balanced(n.right)
    requires Balance(n.left) == 1 && Height(n.left) == Height(n.right) + 2
    ensures Balanced(RightRotate(n)) && Height(RightRotate(n)) == Height(n.right) + 2
  {
    HeightNonNegative(n.right);
  }

  /** RR: the mirror image of LL. */
  lemma LeftRotateBalances(n: Tree)
    requires n.Node? && n.right.Node?
    requires HeightsOk(n.left) && HeightsOk(n.right) && Balanced(n.left) && Balanced(n.right)
    requires Balance(n.right) == -1 && Height(n.right) == Height(n.left) + 2
    ensures Balanced(LeftRotate(n)) && Height(LeftRotate(n)) == Height(n.left) + 2
  {
    HeightNonNegative(n.left);
  }

  /** LR: rotating the left child left and then the node right repairs a node
      whose left child is two higher than its right child and leans right. */
  lemma LeftRightRotateBalances(n: Tree)
    requires n.Node? && n.left.Node? && n.left.right.Node?
    requires HeightsOk(n.left) && HeightsOk(n.right) && Balanced(n.left) && Balanced(n.right)
    requires Balance(n.left) == -1 && Height(n.left) == Height(n.right) + 2
    ensures var r := RightRotate(n.(left := LeftRotate(n.left)));
      Balanced(r) && Height(r) == Height(n.right) + 2
  {
    HeightNonNegative(n.right);
    HeightNonNegative(n.left.left);
    HeightNonNegative(n.left.right.left);
    HeightNonNegative(n.left.right.right);
  }

  /** RL: the mirror image of LR. */
  lemma RightLeftRotateBalances(n: Tree)
    requires n.Node? && n.right.Node? && n.right.left.Node?
    requires HeightsOk(n.left) && HeightsOk(n.right) && Balanced(n.left) && Balanced(n.right)
    requires Balance(n.right) == 1 && Height(n.right) == Height(n.left) + 2
    ensures var r := LeftRotate(n.(right := RightRotate(n.right)));
      Balanced(r) && Height(r) == Height(n.left) + 2
  {
    HeightNonNegative(n.left);
    HeightNonNegative(n.right.right);
    HeightNonNegative(n.right.left.left);
    HeightNonNegative(n.right.left.right);
  }

  /** Rebalancing after the key went into the left subtree, whose height was
      `hl` before and grew by at most one. When the node ends up two higher on
      the left, the grown child leans towards the side the key went, and the
      strict guards pick LL or LR accordingly. */
  lemma RebalanceAfterLeft(n: Tree, key: int, hl: int)
    requires n.Node? && key < n.key
    requires HeightsOk(n.left) && HeightsOk(n.right) && Balanced(n.left) && Balanced(n.right)
    requires -1 <= hl - Height(n.right) <= 1 && hl <= Height(n.left) <= hl + 1
    requires Height(n.left) - Height(n.right) == 2 ==>
      n.left.Node? && key != n.left.key &&
      (key < n.left.key ==> Balance(n.left) == 1) && (key > n.left.key ==> Balance(n.left) == -1)
    ensures var o := Rebalance(n, key);
      && o.Ok? && Balanced(o.tree)
      && 1 + Max(hl, Height(n.right)) <= Height(o.tree) <= 2 + Max(hl, Height(n.right))
      && (Height(o.tree) == 2 + Max(hl, Height(n.right)) ==> o.tree.key == n.key && Balance(o.tree) == 1)
  {
    var node := n.(height := 1 + Max(Height(n.left), Height(n.right)));
    if Height(n.left) - Height(n.right) == 2 {
      if key < n.left.key {
        RightRotateBalances(node);
      } else {
        HeightNonNegative(n.left.left);
        LeftRightRotateBalances(node);
      }
    }
  }

  /** The mirror image of RebalanceAfterLeft. */
  lemma RebalanceAfterRight(n: Tree, key: int, hr: int)
    requires n.Node? && key > n.key
    requires HeightsOk(n.left) && HeightsOk(n.right) && Balanced(n.left) && Balanced(n.right)
    requires -1 <= Height(n.left) - hr <= 1 && hr <= Height(n.right) <= hr + 1
    requires Height(n.right) - Height(n.left) == 2 ==>
      n.right.Node? && key != n.right.key &&
      (key < n.right.key ==> Balance(n.right) == 1) && (key > n.right.key ==> Balance(n.right) == -1)
    ensures var o := Rebalance(n, key);
      && o.Ok? && Balanced(o.tree)
      && 1 + Max(Height(n.left), hr) <= Height(o.tree) <= 2 + Max(Height(n.left), hr)
      && (Height(o.tree) == 2 + Max(Height(n.left), hr) ==> o.tree.key == n.key && Balance(o.tree) == -1)
  {
    var node := n.(height := 1 + Max(Height(n.left), Height(n.right)));
    if Height(n.right) - Height(n.left) == 2 {
      if key > n.right.key {
        LeftRotateBalances(node);
      } else {
        HeightNonNegative(n.right.right);
        RightLeftRotateBalances(node);
      }
    }
  }

  /** Inserting a key that is not yet in a balanced tree with correct heights
      never raises, keeps the tree balanced, and raises its height by at most
      one; when the height does grow, no rotation happened at the root and the
      root leans towards the side the key went. */
  lemma {:induction false} InsertNodeBalanced(t: Tree, key: int)
    requires HeightsOk(t) && Balanced(t) && key !in Keys(t)
    ensures InsertNode(t, key).Ok?
    ensures Balanced(InsertNode(t, key).tree)
    ensures Height(t) <= Height(InsertNode(t, key).tree) <= Height(t) + 1
    ensures t.Node? && Height(InsertNode(t, key).tree) == Height(t) + 1 ==>
      && InsertNode(t, key).tree.key == t.key
      && (key < t.key ==> Balance(InsertNode(t, key).tree) == 1)
      && (key > t.key ==> Balance(InsertNode(t, key).tree) == -1)
  {
    match t
    case Nil =>
    case Node(x, l, r, h) =>
      HeightNonNegative(l);
      HeightNonNegative(r);
      if key < x {
        InsertNodeBalanced(l, key);
        var l' := InsertNode(l, key).tree;
        RebalanceAfterLeft(Node(x, l', r, h), key, Height(l));
      } else {
        InsertNodeBalanced(r, key);
        var r' := InsertNode(r, key).tree;
        RebalanceAfterRight(Node(x, l, r', h), key, Height(r));
      }
  }

  /** With a key not yet present, an AVL tree whose keys are strictly
      increasing in order stays one: no exception, correct heights, balance
      factors within [-1, 1], and the strict search-tree order. */
  lemma InsertNewKeyKeepsAvl(t: Tree, key: int)
    requires HeightsOk(t) && Balanced(t) && Increasing(InOrder(t)) && key !in Keys(t)
    ensures InsertNode(t, key).Ok?
    ensures HeightsOk(InsertNode(t, key).tree) && Balanced(InsertNode(t, key).tree)
    ensures Increasing(InOrder(InsertNode(t, key).tree)) && SearchOrdered(InsertNode(t, key).tree)
  {
    InsertNodeBalanced(t, key);
    Bst.InsertNodeInOrder(t, key);
    KeysOfInOrder(t);
    InsertSortedIsIncreasing(InOrder(t), key);
    IncreasingIsSearchOrdered(InsertNode(t, key).tree);
  }

  /** The `AVLTree` object: it owns the root of the tree. */
  class AvlTree {
    var root: Tree

    /** Every reachable tree lists its keys in non-decreasing order. */
    ghost predicate Valid()
      reads this
    {
      NonDecreasing(InOrder(root))
    }

    constructor ()
      ensures Valid() && root == Nil
    {
      root := Nil;
    }

    /** `insert`: a new leaf becomes the root of an empty tree; otherwise the
        root is rebound to what `_insert` returns. `raised` tells whether
        AttributeError escaped, in which case the root is the same node, left
        as mutated. */
    method Insert(key: int) returns (raised: bool)
      requires Valid()
      modifies this
      ensures Valid()
      ensures raised == InsertNode(old(root), key).AttributeError?
      ensures root == InsertNode(old(root), key).tree
      ensures Keys(root) == old(Keys(root)) + multiset{key}
      ensures InOrder(root) == InsertSorted(old(InOrder(root)), key)
      ensures Trees.TreeSum(root) == old(Trees.TreeSum(root)) + key
      ensures !raised && HeightsOk(old(root)) ==> HeightsOk(root)
      ensures HeightsOk(old(root)) && Balanced(old(root)) && key !in old(Keys(root)) ==>
        !raised && HeightsOk(root) && Balanced(root)
    {
      InsertNodeKeys(root, key);
      InsertNodeSum(root, key);
      InsertNodeInOrder(root, key);
      if HeightsOk(root) && Balanced(root) && key !in Keys(root) {
        InsertNodeBalanced(root, key);
      }
      if root == Nil {
        root := Leaf(key);
        raised := false;
      } else {
        var o := InsertNode(root, key);
        root := o.tree;
        raised := o.AttributeError?;
      }
    }

    /** `find_max`, inherited unchanged: the greatest key. */
    method FindMax() returns (k: int)
      requires Valid() && root.Node?
      ensures k in Keys(root) && k == InOrder(root)[|InOrder(root)| - 1]
      ensures forall y | y in Keys(root) :: y <= k
    {
      k := Trees.FindMax(root);
    }

    /** `find_min`, inherited unchanged: the least key. */
    method FindMin() returns (k: int)
      requires Valid() && root.Node?
      ensures k in Keys(root) && k == InOrder(root)[0]
      ensures forall y | y in Keys(root) :: k <= y
    {
      k := Trees.FindMin(root);
    }

    /** `tree_sum`, inherited unchanged. */
    function TreeSum(): (s: int)
      reads this
      ensures s == SeqSum(InOrder(root))
    {
      Trees.TreeSum(root)
    }
  }
}
