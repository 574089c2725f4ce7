/**
 The node shape shared by the unbalanced search tree and the AVL tree, the
 in-order view that both trees keep sorted, and the read-only operations that
 the AVL tree inherits unchanged: find_min, find_max and tree_sum.
 */
module Trees {

  /** A node owns its two subtrees (no sharing, no parent links). The height
      field is written 1 on creation and maintained only by the AVL tree. */
  datatype Tree = Nil | Node(key: int, left: Tree, right: Tree, height: int)

  /** `Node(key)`: a freshly created node with no children and height 1; it
      holds exactly the one key. */
  function Leaf(key: int): (r: Tree)
    ensures r.Node? && r.height == 1
    ensures Keys(r) == multiset{key} && InOrder(r) == [key]
  {
    Node(key, Nil, Nil, 1)
  }

  /** The keys stored in a tree, with their multiplicities. */
  function Keys(t: Tree): multiset<int> {
    match t
    case Nil => multiset{}
    case Node(k, l, r, _) => Keys(l) + multiset{k} + Keys(r)
  }

  /** The keys listed left subtree first, then the node, then the right subtree. */
  function InOrder(t: Tree): seq<int> {
    match t
    case Nil => []
    case Node(k, l, r, _) => InOrder(l) + [k] + InOrder(r)
  }

  ghost predicate NonDecreasing(s: seq<int>) {
    forall i, j | 0 <= i < j < |s| :: s[i] <= s[j]
  }

  ghost predicate Increasing(s: seq<int>) {
    forall i, j | 0 <= i < j < |s| :: s[i] < s[j]
  }

  /** The search-tree order of the unbalanced tree: keys below a node's key sit
      on its left, keys at least as large (duplicates included) on its right. */
  ghost predicate SearchOrdered(t: Tree) {
    match t
    case Nil => true
    case Node(k, l, r, _) =>
      && (forall y | y in Keys(l) :: y < k)
      && (forall y | y in Keys(r) :: k <= y)
      && SearchOrdered(l)
      && SearchOrdered(r)
  }

  /** Reference for insertion into a sorted listing: the new key goes after
      every element that is at most the key and before the first larger one. */
  function InsertSorted(s: seq<int>, key: int): (r: seq<int>)
    ensures multiset(r) == multiset(s) + multiset{key}
    ensures |r| == |s| + 1
  {
    if s == [] || key < s[0] then [key] + s
    else
      assert s == [s[0]] + s[1..];
      [s[0]] + InsertSorted(s[1..], key)
  }

  function SeqSum(s: seq<int>): int {
    if s == [] then 0 else s[0] + SeqSum(s[1..])
  }

  /** `_tree_sum`: the node's key plus the sums of both subtrees, 0 for no
      node. Every key is counted once: the result is the sum of the in-order
      listing. */
  function TreeSum(t: Tree): (s: int)
    ensures s == SeqSum(InOrder(t))
  {
    match t
    case Nil => 0
    case Node(k, l, r, _) =>
      SeqSumAppend(InOrder(l) + [k], InOrder(r));
      SeqSumAppend(InOrder(l), [k]);
      k + TreeSum(l) + TreeSum(r)
  }

  /** find_max: follow right links from the root to the last node and return
      its key, which is the last key of the in-order listing and, when that
      listing is sorted, the greatest key of the tree. */
  method FindMax(t: Tree) returns (k: int)
    requires t.Node?
    ensures |InOrder(t)| > 0 && k == InOrder(t)[|InOrder(t)| - 1]
    ensures k in Keys(t)
    ensures NonDecreasing(InOrder(t)) ==> forall y | y in Keys(t) :: y <= k
  {
    var current := t;
    while current.right != Nil
      invariant current.Node?
      invariant |InOrder(current)| > 0
      invariant InOrder(current)[|InOrder(current)| - 1] == InOrder(t)[|InOrder(t)| - 1]
      invariant Keys(current) <= Keys(t)
      decreases current
    {
      current := current.right;
    }
    k := current.key;
    KeysOfInOrder(t);
    if NonDecreasing(InOrder(t)) {
      SortedLastIsMax(InOrder(t));
    }
  }

  /** find_min: follow left links from the root to the first node and return
      its key, which is the first key of the in-order listing and, when that
      listing is sorted, the least key of the tree. */
  method FindMin(t: Tree) returns (k: int)
    requires t.Node?
    ensures |InOrder(t)| > 0 && k == InOrder(t)[0]
    ensures k in Keys(t)
    ensures NonDecreasing(InOrder(t)) ==> forall y | y in Keys(t) :: k <= y
  {
    var current := t;
    while current.left != Nil
      invariant current.Node?
      invariant |InOrder(current)| > 0
      invariant InOrder(current)[0] == InOrder(t)[0]
      invariant Keys(current) <= Keys(t)
      decreases current
    {
      current := current.left;
    }
    k := current.key;
    KeysOfInOrder(t);
    if NonDecreasing(InOrder(t)) {
      SortedFirstIsMin(InOrder(t));
    }
  }

  lemma SortedLastIsMax(s: seq<int>)
    requires |s| > 0 && NonDecreasing(s)
    ensures forall y | y in multiset(s) :: y <= s[|s| - 1]
  {
    forall y | y in multiset(s) ensures y <= s[|s| - 1] {
      assert y in s;
      var i :| 0 <= i < |s| && s[i] == y;
      assert i == |s| - 1 || s[i] <= s[|s| - 1];
    }
  }

  lemma SortedFirstIsMin(s: seq<int>)
    requires |s| > 0 && NonDecreasing(s)
    ensures forall y | y in multiset(s) :: s[0] <= y
  {
    forall y | y in multiset(s) ensures s[0] <= y {
      assert y in s;
      var i :| 0 <= i < |s| && s[i] == y;
      assert i == 0 || s[0] <= s[i];
    }
  }

  /** The in-order listing holds exactly the keys of the tree. */
  lemma {:induction false} KeysOfInOrder(t: Tree)
    ensures multiset(InOrder(t)) == Keys(t)
  {
    match t
    case Nil =>
    case Node(k, l, r, _) =>
      KeysOfInOrder(l);
      KeysOfInOrder(r);
      assert InOrder(t) == InOrder(l) + [k] + InOrder(r);
  }

  lemma {:induction false} SeqSumAppend(a: seq<int>, b: seq<int>)
    ensures SeqSum(a + b) == SeqSum(a) + SeqSum(b)
  {
    if a == [] {
      assert a + b == b;
    } else {
      assert (a + b)[1..] == a[1..] + b;
      SeqSumAppend(a[1..], b);
    }
  }

  /** Splitting a sorted listing around one element. */
  lemma SortedSplit(a: seq<int>, k: int, b: seq<int>)
    requires NonDecreasing(a + [k] + b)
    ensures NonDecreasing(a) && NonDecreasing(b)
    ensures forall y | y in a :: y <= k
    ensures forall y | y in b :: k <= y
  {
    var s := a + [k] + b;
    assert forall i | 0 <= i < |a| :: s[i] == a[i];
    assert forall i | 0 <= i < |b| :: s[|a| + 1 + i] == b[i];
    assert s[|a|] == k;
  }

  lemma StrictSplit(a: seq<int>, k: int, b: seq<int>)
    requires Increasing(a + [k] + b)
    ensures Increasing(a) && Increasing(b)
    ensures forall y | y in a :: y < k
    ensures forall y | y in b :: k < y
  {
    var s := a + [k] + b;
    assert forall i | 0 <= i < |a| :: s[i] == a[i];
    assert forall i | 0 <= i < |b| :: s[|a| + 1 + i] == b[i];
    assert s[|a|] == k;
  }

  /** Joining two sorted listings around an element that separates them. */
  lemma SortedJoin(a: seq<int>, k: int, b: seq<int>)
    requires NonDecreasing(a) && NonDecreasing(b)
    requires forall y | y in a :: y <= k
    requires forall y | y in b :: k <= y
    ensures NonDecreasing(a + [k] + b)
  {
    var s := a + [k] + b;
    forall i, j | 0 <= i < j < |s| ensures s[i] <= s[j] {
      if j < |a| {
        assert s[i] == a[i] && s[j] == a[j];
      } else if i < |a| {
        assert s[i] == a[i] && a[i] in a;
        if j > |a| {
          assert s[j] == b[j - |a| - 1] && b[j - |a| - 1] in b;
        }
      } else if i == |a| {
        assert s[j] == b[j - |a| - 1] && b[j - |a| - 1] in b;
      } else {
        assert s[i] == b[i - |a| - 1] && s[j] == b[j - |a| - 1];
      }
    }
  }

  /** A sorted listing of the keys makes the tree a search tree in the strict
      sense wherever the keys are distinct. */
  lemma {:induction false} IncreasingIsSearchOrdered(t: Tree)
    requires Increasing(InOrder(t))
    ensures SearchOrdered(t)
  {
    match t
    case Nil =>
    case Node(k, l, r, _) =>
      StrictSplit(InOrder(l), k, InOrder(r));
      IncreasingIsSearchOrdered(l);
      IncreasingIsSearchOrdered(r);
      KeysOfInOrder(l);
      KeysOfInOrder(r);
      assert forall y | y in Keys(l) :: y in InOrder(l);
      assert forall y | y in Keys(r) :: y in InOrder(r);
  }

  /** A search tree lists its keys in non-decreasing order. */
  lemma {:induction false} SearchOrderedIsSorted(t: Tree)
    requires SearchOrdered(t)
    ensures NonDecreasing(InOrder(t))
  {
    match t
    case Nil =>
    case Node(k, l, r, _) =>
      SearchOrderedIsSorted(l);
      SearchOrderedIsSorted(r);
      KeysOfInOrder(l);
      KeysOfInOrder(r);
      assert forall y | y in InOrder(l) :: y in Keys(l);
      assert forall y | y in InOrder(r) :: y in Keys(r);
      SortedJoin(InOrder(l), k, InOrder(r));
  }

  /** The head of InsertSorted: the key itself when it goes first, the old
      head otherwise. */
  lemma InsertSortedHead(s: seq<int>, key: int)
    ensures InsertSorted(s, key)[0] == if s == [] || key < s[0] then key else s[0]
  {
  }

  lemma ConsSorted(x: int, r: seq<int>)
    requires NonDecreasing(r) && (r == [] || x <= r[0])
    ensures NonDecreasing([x] + r)
  {
    var s := [x] + r;
    forall i, j | 0 <= i < j < |s| ensures s[i] <= s[j] {
      assert s[j] == r[j - 1];
      if i == 0 {
        assert j - 1 == 0 || r[0] <= r[j - 1];
      } else {
        assert s[i] == r[i - 1];
      }
    }
  }

  lemma ConsIncreasing(x: int, r: seq<int>)
    requires Increasing(r) && (r == [] || x < r[0])
    ensures Increasing([x] + r)
  {
    var s := [x] + r;
    forall i, j | 0 <= i < j < |s| ensures s[i] < s[j] {
      assert s[j] == r[j - 1];
      if i == 0 {
        assert j - 1 == 0 || r[0] < r[j - 1];
      } else {
        assert s[i] == r[i - 1];
      }
    }
  }

  /** InsertSorted keeps a sorted listing sorted. */
  lemma {:induction false} InsertSortedIsSorted(s: seq<int>, key: int)
    requires NonDecreasing(s)
    ensures NonDecreasing(InsertSorted(s, key))
  {
    if s == [] || key < s[0] {
      ConsSorted(key, s);
    } else {
      var t := s[1..];
      assert NonDecreasing(t) by {
        forall i, j | 0 <= i < j < |t| ensures t[i] <= t[j] {
          assert t[i] == s[i + 1] && t[j] == s[j + 1];
        }
      }
      assert t == [] || s[0] <= t[0] by {
        if t != [] { assert t[0] == s[1]; }
      }
      InsertSortedIsSorted(t, key);
      InsertSortedHead(t, key);
      ConsSorted(s[0], InsertSorted(t, key));
    }
  }

  /** InsertSorted of a new key into a strictly increasing listing keeps it
      strictly increasing. */
  lemma {:induction false} InsertSortedIsIncreasing(s: seq<int>, key: int)
    requires Increasing(s) && key !in s
    ensures Increasing(InsertSorted(s, key))
  {
    if s == [] || key < s[0] {
      ConsIncreasing(key, s);
    } else {
      var t := s[1..];
      assert Increasing(t) by {
        forall i, j | 0 <= i < j < |t| ensures t[i] < t[j] {
          assert t[i] == s[i + 1] && t[j] == s[j + 1];
        }
      }
      assert t == [] || s[0] < t[0] by {
        if t != [] { assert t[0] == s[1]; }
      }
      assert key != s[0] && key !in t by {
        assert s == [s[0]] + t;
      }
      InsertSortedIsIncreasing(t, key);
      InsertSortedHead(t, key);
      ConsIncreasing(s[0], InsertSorted(t, key));
    }
  }

  /** Inserting past a prefix whose elements are all at most the key. */
  lemma {:induction false} InsertSortedAfter(a: seq<int>, c: seq<int>, key: int)
    requires forall y | y in a :: y <= key
    ensures InsertSorted(a + c, key) == a + InsertSorted(c, key)
  {
    if a != [] {
      var s := a + c;
      assert s[0] == a[0] && a[0] in a;
      assert s[1..] == a[1..] + c;
      forall y | y in a[1..] ensures y <= key {
        assert y in a;
      }
      InsertSortedAfter(a[1..], c, key);
      calc {
        InsertSorted(s, key);
        [a[0]] + InsertSorted(s[1..], key);
        [a[0]] + (a[1..] + InsertSorted(c, key));
        { assert a == [a[0]] + a[1..]; }
        a + InsertSorted(c, key);
      }
    } else {
      assert a + c == c;
    }
  }

  /** Inserting in front of a suffix that starts above the key. */
  lemma {:induction false} InsertSortedBefore(a: seq<int>, c: seq<int>, key: int)
    requires c != [] && key < c[0]
    ensures InsertSorted(a + c, key) == InsertSorted(a, key) + c
  {
    if a == [] {
      assert a + c == c;
    } else if key < a[0] {
      assert (a + c)[0] == a[0];
    } else {
      assert (a + c)[0] == a[0];
      assert (a + c)[1..] == a[1..] + c;
      InsertSortedBefore(a[1..], c, key);
    }
  }
}
