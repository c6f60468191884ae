/** Index arithmetic of the array-backed binary heap and the heap-order
    predicates stated over it. Position `i` has children `2i+1` and `2i+2`. */
module HeapOrder {
  import opened Trees

  function Parent(i: nat): nat
    requires i > 0
  {
    (i - 1) / 2
  }

  function LeftChild(i: nat): nat
  {
    2 * i + 1
  }

  function RightChild(i: nat): nat
  {
    2 * i + 2
  }

  /** Position `j` lies in the subtree rooted at position `root`. */
  predicate InSubtree(root: nat, j: nat)
    decreases j
  {
    j == root || (j > root && InSubtree(root, Parent(j)))
  }

  /** The edge from the parent of `c` down to `c` is in heap order. */
  predicate EdgeOk(a: seq<Tree>, c: nat)
    requires 0 < c < |a|
  {
    a[Parent(c)].freq <= a[c].freq
  }

  /** Heap order over the whole array: no node is lighter than its parent. */
  predicate IsHeap(a: seq<Tree>)
  {
    forall c :: 0 < c < |a| ==> EdgeOk(a, c)
  }

  /** Heap order over the subtree rooted at `root`. */
  predicate SubtreeHeap(a: seq<Tree>, root: nat)
  {
    forall c :: 0 < c < |a| && InSubtree(root, Parent(c)) ==> EdgeOk(a, c)
  }

  /** Both child subtrees of `root` are heaps; only the edges leaving `root`
      itself may be out of order. */
  predicate ChildSubtreesHeap(a: seq<Tree>, root: nat)
  {
    forall c :: 0 < c < |a| && InSubtree(root, Parent(c)) && Parent(c) != root ==> EdgeOk(a, c)
  }

  /** Every edge is in order except the one into position `i`. */
  predicate EdgesOkExcept(a: seq<Tree>, i: nat)
  {
    forall c :: 0 < c < |a| && c != i ==> EdgeOk(a, c)
  }

  lemma {:induction false} InSubtreeLe(root: nat, j: nat)
    requires InSubtree(root, j)
    ensures root <= j
  {
  }

  lemma {:induction false} InSubtreeTrans(a: nat, b: nat, c: nat)
    requires InSubtree(a, b) && InSubtree(b, c)
    ensures InSubtree(a, c)
    decreases c
  {
    if c != b {
      InSubtreeLe(b, c);
      InSubtreeTrans(a, b, Parent(c));
    }
  }

  /** Every position is in the subtree of the root position 0. */
  lemma {:induction false} AllInRootSubtree(j: nat)
    ensures InSubtree(0, j)
    decreases j
  {
    if j > 0 {
      AllInRootSubtree(Parent(j));
    }
  }

  /** The ancestors of a position form a chain: between a position `i` on
      the path from `n` to the root and its parent there is no other. */
  lemma {:induction false} AncestorChain(i: nat, j: nat, n: nat)
    requires 0 < i && InSubtree(i, n) && InSubtree(j, n) && j < i
    ensures InSubtree(j, Parent(i))
    decreases n
  {
    if n == i {
      InSubtreeLe(j, Parent(n));
    } else {
      InSubtreeLe(i, n);
      AncestorChain(i, j, Parent(n));
    }
  }

  /** A heap's root is no heavier than any other entry. */
  lemma {:induction false} HeapRootIsMin(a: seq<Tree>, i: nat)
    requires IsHeap(a) && i < |a|
    ensures a[0].freq <= a[i].freq
    decreases i
  {
    if i > 0 {
      assert EdgeOk(a, i);
      HeapRootIsMin(a, Parent(i));
    }
  }

  /** Heap order over the subtree of position 0 is heap order everywhere. */
  lemma RootSubtreeHeapIsHeap(a: seq<Tree>)
    requires SubtreeHeap(a, 0)
    ensures IsHeap(a)
  {
    forall c | 0 < c < |a|
      ensures EdgeOk(a, c)
    {
      AllInRootSubtree(Parent(c));
    }
  }
}
