# Ordered trees: an unbalanced binary search tree and an AVL tree

This project models the ordered-tree code of `task_1_2_3.py` in Dafny and
proves properties of the model.

- **Node.** A node carries an integer key, a left and a right link and a stored
  height. Nodes are strictly owned: there is no sharing and there are no parent
  links. The node is the datatype `Trees.Tree`. A fresh node (`Trees.Leaf`) has
  height 1.
- **Unbalanced tree (`BST`).** `_insert` descends to the left when the key is
  below the node's key and to the right otherwise, so duplicates go right. It
  attaches a new leaf at the first empty link. `find_max` and `find_min` walk
  the right or left spine with a `while` loop. `tree_sum` adds up the keys
  recursively.
- **AVL tree (`AVLTree`).** It inherits `find_min`, `find_max` and `tree_sum`
  and overrides `_insert`. On the way back up, each node:
  - recomputes its stored height;
  - computes its balance factor;
  - tries the LL, RR, LR and RL cases in that order. Each case is guarded by a
    strict comparison of the inserted key with the key of the heavy child.
- **Rotations.** `_right_rotate` and `_left_rotate` re-link three subtrees and
  recompute two heights, the demoted node's first.

How the code maps to Dafny:

- `_insert` and the rotations rewrite links in place, and every node has a
  single owner. They are therefore modelled as functions that return the
  rebuilt subtree.
- The two tree objects are classes (`Bst.BinarySearchTree`, `Avl.AvlTree`). Each
  has a `root` field that `Insert` rebinds.
- `find_max` and `find_min` are loop methods over the tree value, in module
  `Trees`. Both classes call them.

With duplicate keys the AVL `_insert` can raise `AttributeError`. Insert
10, 10, 10, 10, 5: the strict guards never repair the right spine of equal
keys. When 5 arrives, the RL guard fires at the root even though the root's
right child has no left child, and `_right_rotate` reads `.right` of `None`.
`Avl.Outcome` models this. Its `AttributeError` case carries the nodes as the
exception leaves them: the new leaf is already attached and the heights below
the failing call are already updated. `Avl.AvlTree.Insert` reports whether the
exception escaped. A key new to a balanced tree with correct heights (for
example one built from distinct keys) never raises.

A raise can also leave stale heights. `_insert` recomputes a node's height
only after its recursive call returns (line 107), so the nodes above the
failing call keep their old heights. `Scenarios.StaleHeightAfterRaise` shows
a tree with correct heights where inserting a new key raises and leaves the
root's height two above its child's.

Facts about the source that the model reproduces:

- The LR and RL guards are strict, `>` and `<` (task_1_2_3.py:119, 124).
- `find_min` and `find_max` read `.left` or `.right` of `None` on an empty
  tree (lines 36, 43). The model has a precondition there.
- The demonstration run of the AVL tree (lines 145-150) performs no rotation.
- With duplicate keys, `_insert` can raise `AttributeError`: the RL or LR
  case calls a rotation on a child that lacks the needed grandchild, and the
  rotation reads a link of `None` (lines 75, 85, 120, 125).

## Model

| member | source | states |
|---|---|---|
| Bst.InsertNode | task_1_2_3.py:24-31 | the rebuilt tree is non-empty and holds the old multiset of keys plus exactly one occurrence of the key |
| Bst.InsertNodeInOrder | task_1_2_3.py:24-31 | on a tree whose in-order listing is sorted, the new listing is the reference sorted insertion `InsertSorted`: the key lands after every key at most it and before every larger key |
| Bst.InsertNodeSorted | task_1_2_3.py:24-31 | insertion keeps the in-order listing non-decreasing, and strictly increasing when the listing was strictly increasing and the key is new |
| Bst.InsertNodeKeepsOrder | task_1_2_3.py:27-30 | every node keeps the order: keys below the node's key on the left, keys at least the node's key (duplicates included) on the right |
| Bst.InsertNodeSum | task_1_2_3.py:24-31 | the key sum grows by exactly the inserted key |
| Bst.BinarySearchTree.Insert | task_1_2_3.py:17-22 | the search-tree order is kept; the root becomes the rebuilt tree; keys, in-order listing and sum change as for one sorted insertion of the key |
| Bst.BinarySearchTree.FindMax | task_1_2_3.py:33-38 | on a non-empty tree, returns a key of the tree that is its last in-order key and at least every key |
| Bst.BinarySearchTree.FindMin | task_1_2_3.py:40-45 | on a non-empty tree, returns a key of the tree that is its first in-order key and at most every key |
| Bst.BinarySearchTree.TreeSum | task_1_2_3.py:47-54 | the sum of the in-order listing, so 0 for an empty tree; a function, so nothing changes |
| Trees.FindMax | task_1_2_3.py:33-38 | following right links from a non-empty tree ends at the last in-order key, which is a key of the tree and, when the listing is sorted, the greatest |
| Trees.FindMin | task_1_2_3.py:40-45 | following left links from a non-empty tree ends at the first in-order key, which is a key of the tree and, when the listing is sorted, the least |
| Trees.Leaf | task_1_2_3.py:4-8 | a fresh node has no children and height 1 and holds exactly the one key |
| Trees.TreeSum | task_1_2_3.py:51-54 | the recursive tree sum equals the sum of the in-order listing: every key is counted once |
| Trees.KeysOfInOrder | task_1_2_3.py:51-54 | the in-order listing holds exactly the tree's keys, with their multiplicities |
| Trees.InsertSorted | task_1_2_3.py:24-31 | the reference insertion into a sorted listing adds exactly one occurrence of the key |
| Trees.InsertSortedIsSorted | task_1_2_3.py:24-31 | the reference insertion keeps a non-decreasing listing non-decreasing |
| Trees.InsertSortedIsIncreasing | task_1_2_3.py:24-31 | the reference insertion of a new key keeps a strictly increasing listing strictly increasing |
| Trees.SearchOrderedIsSorted | task_1_2_3.py:27-30 | a tree in search-tree order lists its keys in non-decreasing order |
| Trees.IncreasingIsSearchOrdered | task_1_2_3.py:27-30 | a tree whose listing is strictly increasing is in search-tree order |
| Avl.HeightNonNegative | task_1_2_3.py:60-64 | with correct stored heights, the height of an empty link is 0 and that of a node at least 1 |
| Avl.HeightIsDepth | task_1_2_3.py:60-64 | `_get_height` of a tree with correct stored heights is its true height (the longest root-to-empty-link path), 0 for an empty link |
| Avl.BalanceIsDepthDifference | task_1_2_3.py:66-70 | `_get_balance` of a node with correct stored heights is the true height of its left subtree minus that of its right subtree |
| Avl.RightRotate | task_1_2_3.py:72-80 | for a node with a left child: the child becomes the subtree root with the old root as its right child; the in-order listing is unchanged; with correct heights in the three moved subtrees, every stored height of the result is correct |
| Avl.LeftRotate | task_1_2_3.py:82-90 | the mirror image of RightRotate, for a node with a right child |
| Avl.RightRotateBalances | task_1_2_3.py:110-112 | the LL case: a right rotation balances a node whose left child is two higher and leans left, and the subtree height returns to its value before the insertion |
| Avl.LeftRotateBalances | task_1_2_3.py:114-116 | the RR case, the mirror image |
| Avl.LeftRightRotateBalances | task_1_2_3.py:118-121 | the LR case: rotating the left child left and then the node right balances a node whose left child is two higher and leans right |
| Avl.RightLeftRotateBalances | task_1_2_3.py:123-126 | the RL case, the mirror image |
| Avl.Rebalance | task_1_2_3.py:107-128 | whether the node is returned, rotated once or twice, or AttributeError is raised, the in-order listing is unchanged; correct heights in the children give correct heights everywhere in the result |
| Avl.RebalanceAfterLeft | task_1_2_3.py:102-128 | after a new key went left and the left subtree grew by at most one, the strict guards pick the right case: no exception, balanced, height grows by at most one, and if it grows the root is unchanged and leans left |
| Avl.RebalanceAfterRight | task_1_2_3.py:104-128 | the mirror image for a key that went right |
| Avl.InsertNode | task_1_2_3.py:99-128 | returns or raises with the in-order listing of the unbalanced insertion; a call that returns keeps every stored height correct, duplicates or not |
| Avl.InsertNodeKeys | task_1_2_3.py:99-105 | insertion adds exactly one occurrence of the key, also when it raises |
| Avl.InsertNodeSum | task_1_2_3.py:99-105 | the key sum grows by exactly the key, also when it raises |
| Avl.InsertNodeInOrder | task_1_2_3.py:99-128 | a sorted listing receives the key by sorted insertion and stays non-decreasing |
| Avl.InsertNodeBalanced | task_1_2_3.py:99-128 | a key new to a balanced tree with correct heights never raises; the result is balanced and at most one higher; when it is higher, its root is unchanged and leans towards the side the key went |
| Avl.InsertNewKeyKeepsAvl | task_1_2_3.py:99-128 | a key new to an AVL tree with a strictly increasing listing gives an AVL tree again: no exception, correct heights, every balance factor in -1..1, strictly increasing listing and search-tree order |
| Avl.BalancedIsShallow | task_1_2_3.py:57-58 | a balanced tree with correct heights and n nodes has true height d with 2^(d/2) <= n + 1 |
| Avl.AvlTree.Insert | task_1_2_3.py:92-97 | the listing stays sorted; `raised` tells whether AttributeError escaped; the root becomes the tree `_insert` leaves; keys, listing and sum change as for one sorted insertion; heights stay correct when it returns; a new key in a balanced tree never raises and keeps it balanced |
| Avl.AvlTree.FindMax | task_1_2_3.py:33-38 | inherited: on a non-empty tree, the last in-order key, a key of the tree and at least every key |
| Avl.AvlTree.FindMin | task_1_2_3.py:40-45 | inherited: on a non-empty tree, the first in-order key, a key of the tree and at most every key |
| Avl.AvlTree.TreeSum | task_1_2_3.py:47-54 | inherited: the sum of the in-order listing |
| Scenarios.BstFiveKeys | task_1_2_3.py:133-138 | keys a < b < c < d < e inserted as b, d, a, e, c into the unbalanced tree, one tree per step |
| Scenarios.AvlFiveKeys | task_1_2_3.py:145-150 | the same insertions into the AVL tree: no exception, no rotation, one tree per step |
| Scenarios.FiveKeysListing | task_1_2_3.py:33-54 | the five-key tree lists a, b, c, d, e and sums to a + b + c + d + e |
| Scenarios.Demo | task_1_2_3.py:133-154 | the demonstration 10, 20, 5, 25, 15: the same shape in both trees, first key 5, last key 25, sum 75 |
| Scenarios.LeftLeft | task_1_2_3.py:110-112 | c, b, a ends as b with children a and c |
| Scenarios.RightRight | task_1_2_3.py:114-116 | a, b, c ends as b with children a and c |
| Scenarios.LeftRight | task_1_2_3.py:118-121 | c, a, b ends as b with children a and c |
| Scenarios.RightLeft | task_1_2_3.py:123-126 | a, c, b ends as b with children a and c |
| Scenarios.ThreeKeysRotate | task_1_2_3.py:110-126 | all four unbalancing orders of three distinct keys end in the same balanced tree with correct heights |
| Scenarios.DuplicateLeavesImbalance | task_1_2_3.py:114-128 | a, b, b (10, 20, 20) leaves the root at balance -2 with correct heights: the strict guards do not fire on the equal key |
| Scenarios.DuplicateMovedLeft | task_1_2_3.py:84-90 | a, a, b (5, 5, 7): the RR rotation puts an equal key on the left; the listing is sorted but the search-tree order is lost |
| Scenarios.EqualKeysSpine | task_1_2_3.py:102-128 | a, a, a, a builds a right spine whose root has balance -3 |
| Scenarios.DuplicatesRaise | task_1_2_3.py:123-126 | then inserting a smaller key raises AttributeError in the RL case, with the new leaf already attached |
| Scenarios.StaleHeightAfterRaise | task_1_2_3.py:99-128 | a tree with correct heights and search-tree order where inserting a new key raises AttributeError and leaves a height that is no longer correct |
| Scenarios.Examples | task_1_2_3.py:99-128 | the concrete insertion sequences 30, 20, 10; 10, 20, 20; 5, 5, 7; and 10, 10, 10, 10, 5 |

## Left out

- `task_4.py` (the comment reply tree) is not part of this model. It prints
  indented lines, appends to a list and writes two fields.
- The `__main__` demonstration only prints. Its insertion sequence appears as
  `Scenarios.Demo`; the printing is left out.
- In-place mutation of nodes is modelled as rebuilding values. This is exact
  because nodes have one owner and no parent links, but object identity and
  aliasing are not modelled.
- Trees.FindMax, Trees.FindMin: an empty tree is a precondition. The source
  fails on `None` there and has no error of its own.
- Keys are `int`. Python compares arbitrary objects with `<`, and that is not
  modelled.
- Python integers are unbounded, as Dafny's are, so no overflow is modelled.
- Memory management is left out: there is no teardown of nodes.
- Deletion, lookup by key and rebalancing of the plain tree are not in the
  code, so they are not in the model.
- Avl.InsertNodeBalanced: balance is claimed only for keys new to the tree. With
  duplicates the strict guards can leave a balance of -2 or -3, or raise, as
  the scenarios show.
- Avl.InsertNode: stored heights are claimed correct only for calls that
  return. A raise leaves the heights above the failing node as they were, and
  `Scenarios.StaleHeightAfterRaise` shows a tree with correct heights where
  that makes them wrong. Whether trees built by insertions alone can reach
  such a state is not proved either way.
- Avl.AvlTree.Insert: likewise, heights are claimed correct only when
  `raised` is false.
- Recursion depth: `_insert` and `_tree_sum` recurse as deep as the tree, so
  in Python about 1000 increasing keys in the unbalanced tree, or a long
  spine of equal keys in the AVL tree, raise `RecursionError`. The model's
  recursion is unbounded.
- Class inheritance: the source's `AVLTree` inherits `find_max`, `find_min`
  and `tree_sum` from `BST`. Classes here do not inherit, so `AvlTree` repeats
  the three members with the same contracts, and both classes delegate to
  `Trees`.
