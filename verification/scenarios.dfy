/**
 Insertion sequences worked through step by step: the demonstration run of
 both trees, the four rotation cases, and what duplicate keys do to the AVL
 tree. Each sequence is stated for any keys in the order the run needs, and
 then for the numbers of the demonstration or of a worked insertion
 sequence.
 */
module Scenarios {
  import opened Trees
  import Bst
  import opened Avl

  // Single insertions into a leaf.

  lemma BstLeafRight(a: int, b: int)
    requires a <= b
    ensures Bst.InsertNode(Leaf(a), b) == Node(a, Nil, Leaf(b), 1)
  {
  }

  lemma AvlLeafRight(a: int, b: int)
    requires a <= b
    ensures InsertNode(Leaf(a), b) == Ok(Node(a, Nil, Leaf(b), 2))
  {
  }

  lemma AvlLeafLeft(a: int, b: int)
    requires b < a
    ensures InsertNode(Leaf(a), b) == Ok(Node(a, Leaf(b), Nil, 2))
  {
  }

  /** With keys a < b < c < d < e inserted as b, d, a, e, c (the demonstration
      inserts 10, 20, 5, 25, 15), the unbalanced tree has b at the root, a on
      its left, d on its right and c, e below d. */
  lemma BstFiveKeys(a: int, b: int, c: int, d: int, e: int)
    requires a < b < c < d < e
    ensures Bst.InsertNode(Leaf(b), d) == Node(b, Nil, Leaf(d), 1)
    ensures Bst.InsertNode(Node(b, Nil, Leaf(d), 1), a) == Node(b, Leaf(a), Leaf(d), 1)
    ensures Bst.InsertNode(Node(b, Leaf(a), Leaf(d), 1), e) == Node(b, Leaf(a), Node(d, Nil, Leaf(e), 1), 1)
    ensures Bst.InsertNode(Node(b, Leaf(a), Node(d, Nil, Leaf(e), 1), 1), c)
         == Node(b, Leaf(a), Node(d, Leaf(c), Leaf(e), 1), 1)
  {
    BstLeafRight(b, d);
    BstLeafRight(d, e);
    assert Bst.InsertNode(Node(d, Nil, Leaf(e), 1), c) == Node(d, Leaf(c), Leaf(e), 1);
  }

  /** The same insertions into the AVL tree: nothing raises and no rotation
      happens, so the shape is the unbalanced tree's; only the stored heights
      differ. */
  lemma AvlFiveKeys(a: int, b: int, c: int, d: int, e: int)
    requires a < b < c < d < e
    ensures InsertNode(Leaf(b), d) == Ok(Node(b, Nil, Leaf(d), 2))
    ensures InsertNode(Node(b, Nil, Leaf(d), 2), a) == Ok(Node(b, Leaf(a), Leaf(d), 2))
    ensures InsertNode(Node(b, Leaf(a), Leaf(d), 2), e) == Ok(Node(b, Leaf(a), Node(d, Nil, Leaf(e), 2), 3))
    ensures InsertNode(Node(b, Leaf(a), Node(d, Nil, Leaf(e), 2), 3), c)
         == Ok(Node(b, Leaf(a), Node(d, Leaf(c), Leaf(e), 2), 3))
  {
    AvlLeafRight(b, d);
    AvlLeafRight(d, e);
    assert InsertNode(Node(d, Nil, Leaf(e), 2), c) == Ok(Node(d, Leaf(c), Leaf(e), 2));
  }

  lemma ThreeListing(a: int, b: int, c: int, h: int)
    ensures InOrder(Node(b, Leaf(a), Leaf(c), h)) == [a, b, c]
  {
    assert InOrder(Leaf(a)) == [a] by { assert [] + [a] + [] == [a]; }
    assert InOrder(Leaf(c)) == [c] by { assert [] + [c] + [] == [c]; }
    assert [a] + [b] + [c] == [a, b, c];
  }

  /** The listing and the sum of the five-key tree, whatever its heights. */
  lemma FiveKeysListing(a: int, b: int, c: int, d: int, e: int, hb: int, hd: int)
    ensures var t := Node(b, Leaf(a), Node(d, Leaf(c), Leaf(e), hd), hb);
      InOrder(t) == [a, b, c, d, e] && TreeSum(t) == a + b + c + d + e
  {
    ThreeListing(c, d, e, hd);
    assert InOrder(Leaf(a)) == [a] by { assert [] + [a] + [] == [a]; }
    assert [a] + [b] + [c, d, e] == [a, b, c, d, e];
    assert TreeSum(Leaf(a)) == a;
    assert TreeSum(Node(d, Leaf(c), Leaf(e), hd)) == c + d + e;
  }

  /** The demonstration run on both trees: the same tree shape, find_max 25
      (the last key of the listing), find_min 5 (the first) and tree_sum 75,
      and no AVL insertion raises. */
  lemma Demo()
    ensures Bst.InsertNode(Bst.InsertNode(Bst.InsertNode(Bst.InsertNode(Leaf(10), 20), 5), 25), 15)
         == Node(10, Leaf(5), Node(20, Leaf(15), Leaf(25), 1), 1)
    ensures InsertNode(InsertNode(InsertNode(InsertNode(Leaf(10), 20).tree, 5).tree, 25).tree, 15)
         == Ok(Node(10, Leaf(5), Node(20, Leaf(15), Leaf(25), 2), 3))
    ensures InOrder(Node(10, Leaf(5), Node(20, Leaf(15), Leaf(25), 2), 3)) == [5, 10, 15, 20, 25]
    ensures InOrder(Node(10, Leaf(5), Node(20, Leaf(15), Leaf(25), 1), 1)) == [5, 10, 15, 20, 25]
    ensures TreeSum(Node(10, Leaf(5), Node(20, Leaf(15), Leaf(25), 2), 3)) == 75
    ensures TreeSum(Node(10, Leaf(5), Node(20, Leaf(15), Leaf(25), 1), 1)) == 75
  {
    BstFiveKeys(5, 10, 15, 20, 25);
    AvlFiveKeys(5, 10, 15, 20, 25);
    FiveKeysListing(5, 10, 15, 20, 25, 1, 1);
    FiveKeysListing(5, 10, 15, 20, 25, 3, 2);
  }

  // The four rotation cases, on keys a < b < c.

  /** LL: c, b, a. */
  lemma LeftLeft(a: int, b: int, c: int)
    requires a < b < c
    ensures InsertNode(Node(c, Leaf(b), Nil, 2), a) == Ok(Node(b, Leaf(a), Leaf(c), 2))
  {
    AvlLeafLeft(b, a);
  }

  /** RR: a, b, c. */
  lemma RightRight(a: int, b: int, c: int)
    requires a < b < c
    ensures InsertNode(Node(a, Nil, Leaf(b), 2), c) == Ok(Node(b, Leaf(a), Leaf(c), 2))
  {
    AvlLeafRight(b, c);
  }

  /** LR: c, a, b. */
  lemma LeftRight(a: int, b: int, c: int)
    requires a < b < c
    ensures InsertNode(Node(c, Leaf(a), Nil, 2), b) == Ok(Node(b, Leaf(a), Leaf(c), 2))
  {
    AvlLeafRight(a, b);
  }

  /** RL: a, c, b. */
  lemma RightLeft(a: int, b: int, c: int)
    requires a < b < c
    ensures InsertNode(Node(a, Nil, Leaf(c), 2), b) == Ok(Node(b, Leaf(a), Leaf(c), 2))
  {
    AvlLeafLeft(c, b);
  }

  /** Three distinct keys in any of the four orders that unbalance the root
      (for instance 30, 20, 10) end as the middle key with the other two as
      its children: a balanced tree with correct heights. */
  lemma ThreeKeysRotate(a: int, b: int, c: int)
    requires a < b < c
    ensures InsertNode(InsertNode(Leaf(c), b).tree, a) == Ok(Node(b, Leaf(a), Leaf(c), 2))
    ensures InsertNode(InsertNode(Leaf(a), b).tree, c) == Ok(Node(b, Leaf(a), Leaf(c), 2))
    ensures InsertNode(InsertNode(Leaf(c), a).tree, b) == Ok(Node(b, Leaf(a), Leaf(c), 2))
    ensures InsertNode(InsertNode(Leaf(a), c).tree, b) == Ok(Node(b, Leaf(a), Leaf(c), 2))
    ensures HeightsOk(Node(b, Leaf(a), Leaf(c), 2)) && Balanced(Node(b, Leaf(a), Leaf(c), 2))
  {
    AvlLeafLeft(c, b);
    AvlLeafRight(a, b);
    AvlLeafLeft(c, a);
    AvlLeafRight(a, c);
    LeftLeft(a, b, c);
    RightRight(a, b, c);
    LeftRight(a, b, c);
    RightLeft(a, b, c);
  }

  // Duplicate keys.

  /** a, b, b with a < b (10, 20, 20): the second b equals the right child's
      key, so neither the RR nor the RL guard fires and the root keeps balance
      -2, with every stored height still correct. */
  lemma DuplicateLeavesImbalance(a: int, b: int)
    requires a < b
    ensures InsertNode(InsertNode(Leaf(a), b).tree, b) == Ok(Node(a, Nil, Node(b, Nil, Leaf(b), 2), 3))
    ensures var t := Node(a, Nil, Node(b, Nil, Leaf(b), 2), 3);
      HeightsOk(t) && Balance(t) == -2 && !Balanced(t)
  {
    AvlLeafRight(a, b);
    AvlLeafRight(b, b);
  }

  /** a, a, b with a < b (5, 5, 7): the RR rotation moves the first a into
      the left subtree of the second; the listing stays sorted, but the
      search-tree order, which sends equal keys right, is lost. */
  lemma DuplicateMovedLeft(a: int, b: int)
    requires a < b
    ensures InsertNode(InsertNode(Leaf(a), a).tree, b) == Ok(Node(a, Leaf(a), Leaf(b), 2))
    ensures NonDecreasing(InOrder(Node(a, Leaf(a), Leaf(b), 2)))
    ensures !SearchOrdered(Node(a, Leaf(a), Leaf(b), 2))
  {
    AvlLeafRight(a, a);
    AvlLeafRight(a, b);
    ThreeListing(a, a, b, 2);
    assert a in Keys(Leaf(a));
  }

  /** Equal keys build a right spine: a, a, a, a leaves a root of balance -3
      that no guard repairs. */
  lemma EqualKeysSpine(a: int)
    ensures InsertNode(Leaf(a), a) == Ok(Node(a, Nil, Leaf(a), 2))
    ensures InsertNode(Node(a, Nil, Leaf(a), 2), a) == Ok(Node(a, Nil, Node(a, Nil, Leaf(a), 2), 3))
    ensures InsertNode(Node(a, Nil, Node(a, Nil, Leaf(a), 2), 3), a)
         == Ok(Node(a, Nil, Node(a, Nil, Node(a, Nil, Leaf(a), 2), 3), 4))
    ensures Balance(Node(a, Nil, Node(a, Nil, Node(a, Nil, Leaf(a), 2), 3), 4)) == -3
  {
    AvlLeafRight(a, a);
    assert InsertNode(Node(a, Nil, Leaf(a), 2), a) == Ok(Node(a, Nil, Node(a, Nil, Leaf(a), 2), 3));
  }

  /** a, a, a, a, b with b < a (10, 10, 10, 10, 5): the b makes the RL guard
      fire at the root although its right child has no left child, and the
      right rotation of that child reads a field of an empty link, so
      AttributeError is raised. The b is already attached by then, and the
      tree left behind holds every key inserted. */
  lemma DuplicatesRaise(a: int, b: int)
    requires b < a
    ensures InsertNode(Node(a, Nil, Node(a, Nil, Node(a, Nil, Leaf(a), 2), 3), 4), b)
         == AttributeError(Node(a, Leaf(b), Node(a, Nil, Node(a, Nil, Leaf(a), 2), 3), 4))
  {
  }

  /** The worked insertion sequences with numbers: 30, 20, 10 rotates to
      root 20; 10, 20, 20 leaves balance -2; 5, 5, 7 breaks the search-tree
      order; 10, 10, 10, 10, 5 raises. */
  lemma Examples()
    ensures InsertNode(InsertNode(Leaf(30), 20).tree, 10) == Ok(Node(20, Leaf(10), Leaf(30), 2))
    ensures InsertNode(InsertNode(Leaf(10), 20).tree, 20) == Ok(Node(10, Nil, Node(20, Nil, Leaf(20), 2), 3))
    ensures InsertNode(InsertNode(Leaf(5), 5).tree, 7) == Ok(Node(5, Leaf(5), Leaf(7), 2))
    ensures InsertNode(InsertNode(InsertNode(InsertNode(Leaf(10), 10).tree, 10).tree, 10).tree, 5).AttributeError?
  {
    ThreeKeysRotate(10, 20, 30);
    DuplicateLeavesImbalance(10, 20);
    DuplicateMovedLeft(5, 7);
    EqualKeysSpine(10);
    DuplicatesRaise(10, 5);
  }

  // A raise that leaves a stale height. The tree below has correct heights
  // and search-tree order, but is not claimed to arise from insertions.

  /** Inserting b (a < b < c) into the lower end of the spine: the node c
      takes b on its left, and the a above it is turned by the RL case. */
  lemma LoweringSteps(a: int, b: int, c: int)
    requires a < b < c
    ensures InsertNode(Node(c, Nil, Leaf(c), 2), b) == Ok(Node(c, Leaf(b), Leaf(c), 2))
    ensures InsertNode(Node(a, Nil, Node(c, Nil, Leaf(c), 2), 3), b)
         == Ok(Node(b, Leaf(a), Node(c, Nil, Leaf(c), 2), 3))
  {
    assert InsertNode(Nil, b) == Ok(Leaf(b));
  }

  /** The next a keeps its stale balance of -3 (no guard fires), the one
      above is turned by the RR case, and the top two a's shrink the spine
      from height 7 to 4. */
  lemma LoweringStep2(a: int, b: int, c: int)
    requires a < b < c
    ensures InsertNode(Node(a, Nil, Node(a, Nil, Node(c, Nil, Leaf(c), 2), 3), 4), b)
         == Ok(Node(a, Nil, Node(b, Leaf(a), Node(c, Nil, Leaf(c), 2), 3), 4))
  {
    LoweringSteps(a, b, c);
  }

  lemma LoweringStep3(a: int, b: int, c: int)
    requires a < b < c
    ensures InsertNode(Node(a, Nil, Node(a, Nil, Node(a, Nil, Node(c, Nil, Leaf(c), 2), 3), 4), 5), b)
         == Ok(Node(a, Leaf(a), Node(b, Leaf(a), Node(c, Nil, Leaf(c), 2), 3), 4))
  {
    LoweringStep2(a, b, c);
  }

  lemma LoweringStep4(a: int, b: int, c: int)
    requires a < b < c
    ensures InsertNode(Node(a, Nil, Node(a, Nil, Node(a, Nil, Node(a, Nil, Node(c, Nil, Leaf(c), 2), 3), 4), 5), 6), b)
         == Ok(Node(a, Node(a, Nil, Leaf(a), 2), Node(b, Leaf(a), Node(c, Nil, Leaf(c), 2), 3), 4))
  {
    LoweringStep3(a, b, c);
  }

  lemma LoweringStep5(a: int, b: int, c: int)
    requires a < b < c
    ensures InsertNode(Lowered(a, c), b) == Ok(LoweredAfter(a, b, c))
  {
    LoweringStep4(a, b, c);
  }

  /** The spine of five a's above c, c. */
  function Lowered(a: int, c: int): Tree {
    Node(a, Nil, Node(a, Nil, Node(a, Nil, Node(a, Nil, Node(a, Nil, Node(c, Nil, Leaf(c), 2), 3), 4), 5), 6), 7)
  }

  /** What inserting b makes of it. */
  function LoweredAfter(a: int, b: int, c: int): Tree {
    Node(a, Node(a, Nil, Node(a, Nil, Leaf(a), 2), 3), Node(b, Leaf(a), Node(c, Nil, Leaf(c), 2), 3), 4)
  }

  /** A right spine of six d's. */
  function SpineOfSix(d: int): Tree {
    Node(d, Nil, Node(d, Nil, Node(d, Nil, Node(d, Nil, Node(d, Nil, Leaf(d), 2), 3), 4), 5), 6)
  }

  /** All keys of t lie in lo..hi. */
  ghost predicate InRange(t: Tree, lo: int, hi: int) {
    forall y | y in Keys(t) :: lo <= y <= hi
  }

  lemma RangeNode(k: int, l: Tree, r: Tree, h: int, lo: int, hi: int)
    requires InRange(l, lo, hi) && InRange(r, lo, hi) && lo <= k <= hi
    ensures InRange(Node(k, l, r, h), lo, hi)
  {
  }

  lemma LeafOrdered(k: int)
    ensures SearchOrdered(Leaf(k)) && InRange(Leaf(k), k, k) && HeightsOk(Leaf(k))
  {
  }

  /** An equal-key spine node above a subtree whose keys are at least k. */
  lemma SpineNodeOrdered(k: int, t: Tree, hi: int)
    requires k <= hi && SearchOrdered(t) && InRange(t, k, hi) && HeightsOk(t) && 0 <= Height(t)
    ensures var s := Node(k, Nil, t, Height(t) + 1);
      SearchOrdered(s) && InRange(s, k, hi) && HeightsOk(s)
  {
    Bst.NodeOrdered(k, Nil, t, Height(t) + 1);
    RangeNode(k, Nil, t, Height(t) + 1, k, hi);
  }

  lemma LoweredOrdered(a: int, c: int)
    requires a < c
    ensures SearchOrdered(Lowered(a, c)) && InRange(Lowered(a, c), a, c) && HeightsOk(Lowered(a, c))
  {
    LeafOrdered(c);
    SpineNodeOrdered(c, Leaf(c), c);
    var t0 := Node(c, Nil, Leaf(c), 2);
    assert InRange(t0, a, c);
    SpineNodeOrdered(a, t0, c);
    var t1 := Node(a, Nil, t0, 3);
    SpineNodeOrdered(a, t1, c);
    var t2 := Node(a, Nil, t1, 4);
    SpineNodeOrdered(a, t2, c);
    var t3 := Node(a, Nil, t2, 5);
    SpineNodeOrdered(a, t3, c);
    var t4 := Node(a, Nil, t3, 6);
    SpineNodeOrdered(a, t4, c);
  }

  lemma SpineOfSixOrdered(d: int)
    ensures SearchOrdered(SpineOfSix(d)) && InRange(SpineOfSix(d), d, d) && HeightsOk(SpineOfSix(d))
  {
    LeafOrdered(d);
    var s1 := Leaf(d);
    SpineNodeOrdered(d, s1, d);
    var s2 := Node(d, Nil, s1, 2);
    SpineNodeOrdered(d, s2, d);
    var s3 := Node(d, Nil, s2, 3);
    SpineNodeOrdered(d, s3, d);
    var s4 := Node(d, Nil, s3, 4);
    SpineNodeOrdered(d, s4, d);
    var s5 := Node(d, Nil, s4, 5);
    SpineNodeOrdered(d, s5, d);
  }

  /** The tree: e at the root with, on its left, d over the lowering spine
      and a spine of six d's. */
  function StaleExample(a: int, c: int, d: int, e: int): Tree {
    Node(e, Node(d, Lowered(a, c), SpineOfSix(d), 8), Nil, 9)
  }

  /** d over the lowering spine and the spine of six d's. */
  lemma StaleInnerOrdered(a: int, c: int, d: int)
    requires a < c < d
    ensures var t := Node(d, Lowered(a, c), SpineOfSix(d), 8);
      HeightsOk(t) && SearchOrdered(t) && InRange(t, a, d)
  {
    LoweredOrdered(a, c);
    SpineOfSixOrdered(d);
    assert forall y | y in Keys(Lowered(a, c)) :: y < d by {
      assert InRange(Lowered(a, c), a, c);
    }
    assert forall y | y in Keys(SpineOfSix(d)) :: d <= y by {
      assert InRange(SpineOfSix(d), d, d);
    }
    Bst.NodeOrdered(d, Lowered(a, c), SpineOfSix(d), 8);
    RangeNode(d, Lowered(a, c), SpineOfSix(d), 8, a, d);
  }

  lemma StaleExampleOrdered(a: int, c: int, d: int, e: int)
    requires a < c < d < e
    ensures HeightsOk(StaleExample(a, c, d, e)) && SearchOrdered(StaleExample(a, c, d, e))
  {
    var t := Node(d, Lowered(a, c), SpineOfSix(d), 8);
    StaleInnerOrdered(a, c, d);
    assert forall y | y in Keys(t) :: y < e by {
      assert InRange(t, a, d);
    }
    Bst.NodeOrdered(e, t, Nil, 9);
  }

  /** A key that is neither the node's key nor in either subtree is not in
      the node. */
  lemma NotInNode(k: int, l: Tree, r: Tree, h: int, b: int)
    requires b != k && b !in Keys(l) && b !in Keys(r)
    ensures b !in Keys(Node(k, l, r, h))
  {
  }

  lemma StaleExampleLacks(a: int, b: int, c: int, d: int, e: int)
    requires a < b < c < d < e
    ensures b !in Keys(StaleExample(a, c, d, e))
  {
    var t0 := Node(c, Nil, Leaf(c), 2);
    NotInNode(c, Nil, Nil, 1, b);
    NotInNode(c, Nil, Leaf(c), 2, b);
    var t1 := Node(a, Nil, t0, 3);
    NotInNode(a, Nil, t0, 3, b);
    var t2 := Node(a, Nil, t1, 4);
    NotInNode(a, Nil, t1, 4, b);
    var t3 := Node(a, Nil, t2, 5);
    NotInNode(a, Nil, t2, 5, b);
    var t4 := Node(a, Nil, t3, 6);
    NotInNode(a, Nil, t3, 6, b);
    NotInNode(a, Nil, t4, 7, b);
    assert b !in Keys(SpineOfSix(d)) by {
      SpineOfSixOrdered(d);
      assert InRange(SpineOfSix(d), d, d);
    }
    NotInNode(d, Lowered(a, c), SpineOfSix(d), 8, b);
    NotInNode(e, Node(d, Lowered(a, c), SpineOfSix(d), 8), Nil, 9, b);
  }

  /** Inserting b below d: the left subtree loses three levels, d turns
      right-heavy by two, the RL guard fires on a right child that has no
      left child, and the raise carries d with its height recomputed to 7
      up to e, which keeps 9. */
  lemma StaleInsertion(a: int, b: int, c: int, d: int, e: int)
    requires a < b < c < d < e
    ensures InsertNode(StaleExample(a, c, d, e), b)
         == AttributeError(Node(e, Node(d, LoweredAfter(a, b, c), SpineOfSix(d), 7), Nil, 9))
  {
    LoweringStep5(a, b, c);
    var inner := Node(d, LoweredAfter(a, b, c), SpineOfSix(d), 8);
    assert Rebalance(inner, b) == AttributeError(inner.(height := 7));
  }

  /** Heights are correct only for calls that return: in this tree with
      correct heights and search-tree order, inserting the new key b raises
      AttributeError and leaves the root's height 9 above a child of
      height 7. */
  lemma StaleHeightAfterRaise(a: int, b: int, c: int, d: int, e: int)
    requires a < b < c < d < e
    ensures HeightsOk(StaleExample(a, c, d, e)) && SearchOrdered(StaleExample(a, c, d, e))
    ensures b !in Keys(StaleExample(a, c, d, e))
    ensures InsertNode(StaleExample(a, c, d, e), b).AttributeError?
    ensures !HeightsOk(InsertNode(StaleExample(a, c, d, e), b).tree)
  {
    StaleExampleOrdered(a, c, d, e);
    StaleExampleLacks(a, b, c, d, e);
    StaleInsertion(a, b, c, d, e);
  }
}
