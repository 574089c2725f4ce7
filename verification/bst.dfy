/**
 The unbalanced binary search tree: recursive insertion that sends keys below a
 node's key to the left and every other key, duplicates included, to the right,
 and the tree object whose root that insertion rebinds.
 */
module Bst {
  import opened Trees

  /** `_insert`: rebuild the subtree with the key attached as a new leaf at the
      first empty link on its search path. */
  function InsertNode(t: Tree, key: int): (r: Tree)
    ensures r.Node?
    ensures Keys(r) == Keys(t) + multiset{key}
  {
    match t
    case Nil => Leaf(key)
    case Node(k, l, rt, h) =>
      if key < k then Node(k, InsertNode(l, key), rt, h)
      else Node(k, l, InsertNode(rt, key), h)
  }

  /** Inserting into a tree whose keys are listed in order puts the key into
      that listing after every key at most it and before every larger one. */
  lemma {:induction false} InsertNodeInOrder(t: Tree, key: int)
    requires NonDecreasing(InOrder(t))
    ensures InOrder(InsertNode(t, key)) == InsertSorted(InOrder(t), key)
  {
    match t
    case Nil =>
    case Node(k, l, rt, h) =>
      var a, b := InOrder(l), InOrder(rt);
      if key < k {
        assert NonDecreasing(a) by { SortedSplit(a, k, b); }
        InsertNodeInOrder(l, key);
        InsertLeftOf(a, k, b, key);
      } else {
        assert NonDecreasing(b) by { SortedSplit(a, k, b); }
        InsertNodeInOrder(rt, key);
        assert a + [k] + InsertSorted(b, key) == InsertSorted(a + [k] + b, key) by {
          SortedSplit(a, k, b);
          InsertRightOf(a, k, b, key);
        }
      }
  }

  lemma InsertLeftOf(a: seq<int>, k: int, b: seq<int>, key: int)
    requires key < k
    ensures InsertSorted(a, key) + [k] + b == InsertSorted(a + [k] + b, key)
  {
    InsertSortedBefore(a, [k] + b, key);
    assert a + [k] + b == a + ([k] + b);
  }

  lemma InsertRightOf(a: seq<int>, k: int, b: seq<int>, key: int)
    requires k <= key && forall y | y in a :: y <= k
    ensures a + [k] + InsertSorted(b, key) == InsertSorted(a + [k] + b, key)
  {
    forall y | y in a + [k] ensures y <= key {
      assert y in a || y == k;
    }
    InsertSortedAfter(a + [k], b, key);
  }

  /** Insertion keeps the in-order listing sorted, and strictly increasing
      when the key is new. */
  lemma InsertNodeSorted(t: Tree, key: int)
    requires NonDecreasing(InOrder(t))
    ensures NonDecreasing(InOrder(InsertNode(t, key)))
    ensures Increasing(InOrder(t)) && key !in Keys(t) ==> Increasing(InOrder(InsertNode(t, key)))
  {
    InsertNodeInOrder(t, key);
    InsertSortedIsSorted(InOrder(t), key);
    if Increasing(InOrder(t)) && key !in Keys(t) {
      KeysOfInOrder(t);
      InsertSortedIsIncreasing(InOrder(t), key);
    }
  }

  /** Insertion keeps the search-tree order at every node, for every key,
      duplicates included. */
  lemma {:induction false} InsertNodeKeepsOrder(t: Tree, key: int)
    requires SearchOrdered(t)
    ensures SearchOrdered(InsertNode(t, key))
  {
    match t
    case Nil =>
    case Node(k, l, rt, h) =>
      if key < k {
        var l2 := InsertNode(l, key);
        InsertNodeKeepsOrder(l, key);
        AllBelow(Keys(l), key, k);
        NodeOrdered(k, l2, rt, h);
      } else {
        var r2 := InsertNode(rt, key);
        InsertNodeKeepsOrder(rt, key);
        AllAbove(Keys(rt), key, k);
        NodeOrdered(k, l, r2, h);
      }
  }

  lemma AllBelow(m: multiset<int>, key: int, k: int)
    requires forall y | y in m :: y < k
    requires key < k
    ensures forall y | y in m + multiset{key} :: y < k
  {
  }

  lemma AllAbove(m: multiset<int>, key: int, k: int)
    requires forall y | y in m :: k <= y
    requires k <= key
    ensures forall y | y in m + multiset{key} :: k <= y
  {
  }

  lemma NodeOrdered(k: int, l: Tree, r: Tree, h: int)
    requires forall y | y in Keys(l) :: y < k
    requires forall y | y in Keys(r) :: k <= y
    requires SearchOrdered(l) && SearchOrdered(r)
    ensures SearchOrdered(Node(k, l, r, h))
  {
  }

  /** tree_sum grows by exactly the inserted key. */
  lemma {:induction false} InsertNodeSum(t: Tree, key: int)
    ensures TreeSum(InsertNode(t, key)) == TreeSum(t) + key
  {
    match t
    case Nil =>
    case Node(k, l, rt, h) =>
      if key < k {
        InsertNodeSum(l, key);
      } else {
        InsertNodeSum(rt, key);
      }
  }

  /** The `BST` object: it owns the root of the tree. */
  class BinarySearchTree {
    var root: Tree

    /** Every reachable tree is a search tree. */
    ghost predicate Valid()
      reads this
    {
      SearchOrdered(root)
    }

    constructor ()
      ensures Valid() && root == Nil
    {
      root := Nil;
    }

    /** `insert`: a new leaf becomes the root of an empty tree; otherwise the
        root is rebound to the rebuilt tree. */
    method Insert(key: int)
      requires Valid()
      modifies this
      ensures Valid()
      ensures root == InsertNode(old(root), key)
      ensures Keys(root) == old(Keys(root)) + multiset{key}
      ensures InOrder(root) == InsertSorted(old(InOrder(root)), key)
      ensures Trees.TreeSum(root) == old(Trees.TreeSum(root)) + key
    {
      InsertNodeKeepsOrder(root, key);
      SearchOrderedIsSorted(root);
      InsertNodeInOrder(root, key);
      InsertNodeSum(root, key);
      if root == Nil {
        root := Leaf(key);
      } else {
        root := InsertNode(root, key);
      }
    }

    /** `find_max` on a non-empty tree: the greatest key. */
    method FindMax() returns (k: int)
      requires Valid() && root.Node?
      ensures k in Keys(root) && k == InOrder(root)[|InOrder(root)| - 1]
      ensures forall y | y in Keys(root) :: y <= k
    {
      SearchOrderedIsSorted(root);
      k := Trees.FindMax(root);
    }

    /** `find_min` on a non-empty tree: the least key. */
    method FindMin() returns (k: int)
      requires Valid() && root.Node?
      ensures k in Keys(root) && k == InOrder(root)[0]
      ensures forall y | y in Keys(root) :: k <= y
    {
      SearchOrderedIsSorted(root);
      k := Trees.FindMin(root);
    }

    /** `tree_sum`: the sum of every key in the tree, 0 when it is empty. */
    function TreeSum(): (s: int)
      reads this
      ensures s == SeqSum(InOrder(root))
    {
      Trees.TreeSum(root)
    }
  }
}
