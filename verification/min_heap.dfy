/** The array-backed binary min-heap of tree nodes that the Huffman builder
    uses as its priority queue (`struct MinHeap` and its operations). */
module MinHeaps {
  import opened Trees
  import opened HeapOrder

  /** `size` of the source's heap is `|array|`: the slots of the C array past
      `size` are never read before they are written, so they are not kept.
      `capacity` is the number of slots the array was allocated with. */
  datatype MinHeap = MinHeap(nodes: seq<Tree>, capacity: nat)

  /** `isSize`: the heap holds exactly `size` nodes. */
  predicate IsSize(h: MinHeap, size: int)
  {
    |h.nodes| == size
  }

  /** `swapMinHeapNode` applied to two slots of the array. */
  function Swap(a: seq<Tree>, i: nat, j: nat): (r: seq<Tree>)
    requires i < |a| && j < |a|
    ensures |r| == |a| && r[i] == a[j] && r[j] == a[i]
    ensures forall k :: 0 <= k < |a| && k != i && k != j ==> r[k] == a[k]
    ensures multiset(r) == multiset(a)
  {
    a[i := a[j]][j := a[i]]
  }

  /** The `smallest` index `HeapifyMin` settles on at `index`: a child takes
      over only when strictly lighter than the current candidate, so equal
      frequencies never move a node and a tie between the children goes to
      the left one. */
  function Smallest(a: seq<Tree>, index: nat): (s: nat)
    ensures s == index || s == LeftChild(index) || s == RightChild(index)
    ensures s != index ==> s < |a| && a[s].freq < a[index].freq
    ensures s == index <==>
      && (LeftChild(index) < |a| ==> a[index].freq <= a[LeftChild(index)].freq)
      && (RightChild(index) < |a| ==> a[index].freq <= a[RightChild(index)].freq)
    ensures s != index && LeftChild(index) < |a| ==> a[s].freq <= a[LeftChild(index)].freq
    ensures s != index && RightChild(index) < |a| ==> a[s].freq <= a[RightChild(index)].freq
    ensures s == RightChild(index) ==> a[RightChild(index)].freq < a[LeftChild(index)].freq
  {
    var left := LeftChild(index);
    var right := RightChild(index);
    var s1 := if left < |a| && a[left].freq < a[index].freq then left else index;
    if right < |a| && a[right].freq < a[s1].freq then right else s1
  }

  /** Nodes below a child of `index` are below `index`. */
  lemma ChildSubtreeInside(index: nat, s: nat)
    requires s == LeftChild(index) || s == RightChild(index)
    ensures forall j :: InSubtree(s, j) ==> InSubtree(index, j)
  {
    forall j | InSubtree(s, j)
      ensures InSubtree(index, j)
    {
      assert InSubtree(index, s);
      InSubtreeTrans(index, s, j);
    }
  }

  /** `HeapifyMin`: sift the node at `index` down, swapping it with its
      lighter child until neither child is strictly lighter. It only swaps
      entries inside the subtree of `index`. */
  function HeapifyMin(a: seq<Tree>, index: nat): (r: seq<Tree>)
    ensures |r| == |a|
    ensures multiset(r) == multiset(a)
    ensures forall j :: 0 <= j < |a| && !InSubtree(index, j) ==> r[j] == a[j]
    decreases |a| - index
  {
    var s := Smallest(a, index);
    if s == index then a
    else
      ChildSubtreeInside(index, s);
      HeapifyMin(Swap(a, index, s), s)
  }

  /** The sift-down step at `index` inside the subtree of `root`: every edge
      of that subtree is in order except those leaving `index`, and the parent
      of `index` (when inside the subtree) is no heavier than `index`'s
      children. Afterwards the whole subtree of `root` is in heap order. */
  lemma {:induction false} HeapifyMinRestoresOrder(a: seq<Tree>, index: nat, root: nat)
    requires index < |a| && InSubtree(root, index)
    requires forall c :: 0 < c < |a| && InSubtree(root, Parent(c)) && Parent(c) != index ==> EdgeOk(a, c)
    requires index != root ==>
      forall c :: 0 < c < |a| && Parent(c) == index ==> a[Parent(index)].freq <= a[c].freq
    ensures SubtreeHeap(HeapifyMin(a, index), root)
    decreases |a| - index
  {
    var s := Smallest(a, index);
    InSubtreeLe(root, index);
    if s == index {
      forall c | 0 < c < |a| && InSubtree(root, Parent(c))
        ensures EdgeOk(a, c)
      {
        if Parent(c) == index {
          assert c == LeftChild(index) || c == RightChild(index);
        }
      }
    } else {
      var b := Swap(a, index, s);
      ChildSubtreeInside(index, s);
      assert InSubtree(root, s) by {
        assert Parent(s) == index;
      }
      forall c | 0 < c < |b| && InSubtree(root, Parent(c)) && Parent(c) != s
        ensures EdgeOk(b, c)
      {
        var p := Parent(c);
        if p == index {
          assert c == LeftChild(index) || c == RightChild(index);
        } else if c == index {
          // The parent of `index` lies inside the subtree, so `index` is not its root.
          InSubtreeLe(root, p);
          assert index != root;
          assert s == LeftChild(index) || s == RightChild(index);
          assert Parent(s) == index;
        } else {
          assert c != s by {
            assert Parent(s) == index;
          }
          assert p != s;
          assert EdgeOk(a, c);
        }
      }
      forall c | 0 < c < |b| && Parent(c) == s
        ensures b[Parent(s)].freq <= b[c].freq
      {
        assert Parent(s) == index;
        InSubtreeLe(root, index);
        assert InSubtree(root, Parent(c));
        assert EdgeOk(a, c);
      }
      HeapifyMinRestoresOrder(b, s, root);
    }
  }

  /** If both child subtrees of `index` are heaps, `HeapifyMin` makes the
      whole subtree of `index` a heap. */
  lemma HeapifyMinMakesHeap(a: seq<Tree>, index: nat)
    requires index < |a|
    requires ChildSubtreesHeap(a, index)
    ensures SubtreeHeap(HeapifyMin(a, index), index)
  {
    HeapifyMinRestoresOrder(a, index, index);
  }

  /** The array `extractMin` sifts down: the last entry moved to the root,
      the size reduced by one. */
  function MoveLastToRoot(a: seq<Tree>): (r: seq<Tree>)
    requires |a| > 0
    ensures |r| == |a| - 1
    ensures |a| > 1 ==> r[0] == a[|a| - 1]
    ensures forall j :: 0 < j < |r| ==> r[j] == a[j]
    ensures multiset(r) + multiset{a[0]} == multiset(a)
  {
    var n := |a|;
    var r := a[0 := a[n - 1]][..n - 1];
    assert n > 1 ==> a == [a[0]] + a[1..n - 1] + [a[n - 1]];
    assert n > 1 ==> r == [a[n - 1]] + a[1..n - 1];
    r
  }

  /** `extractMin`: remove and return the root. The source reads slot
      `size - 1` unconditionally, so the heap must not be empty. */
  function ExtractMin(h: MinHeap): (res: (Tree, MinHeap))
    requires |h.nodes| > 0
    ensures res.0 == h.nodes[0]
    ensures res.1.capacity == h.capacity
    ensures |res.1.nodes| == |h.nodes| - 1
    ensures multiset(res.1.nodes) + multiset{res.0} == multiset(h.nodes)
    ensures IsHeap(h.nodes) ==> IsHeap(res.1.nodes)
    ensures IsHeap(h.nodes) ==> forall i :: 0 <= i < |h.nodes| ==> res.0.freq <= h.nodes[i].freq
  {
    ExtractMinOrder(h.nodes);
    (h.nodes[0], MinHeap(HeapifyMin(MoveLastToRoot(h.nodes), 0), h.capacity))
  }

  lemma ExtractMinOrder(a: seq<Tree>)
    requires |a| > 0
    ensures IsHeap(a) ==> IsHeap(HeapifyMin(MoveLastToRoot(a), 0))
    ensures IsHeap(a) ==> forall i :: 0 <= i < |a| ==> a[0].freq <= a[i].freq
  {
    if IsHeap(a) {
      var b := MoveLastToRoot(a);
      forall i | 0 <= i < |a|
        ensures a[0].freq <= a[i].freq
      {
        HeapRootIsMin(a, i);
      }
      if |b| > 0 {
        forall c | 0 < c < |b| && InSubtree(0, Parent(c)) && Parent(c) != 0
          ensures EdgeOk(b, c)
        {
          assert EdgeOk(a, c);
        }
        HeapifyMinMakesHeap(b, 0);
        RootSubtreeHeapIsHeap(HeapifyMin(b, 0));
      }
    }
  }

  /** The `while` loop of `InsertMinHeap`: starting from the free slot `i`,
      shift each strictly heavier parent down one level and move up. Returns
      the array and the slot where the loop stops. */
  function SiftUp(arr: seq<Tree>, i: nat, node: Tree): (r: (seq<Tree>, nat))
    requires i < |arr|
    ensures |r.0| == |arr| && r.1 <= i
    ensures InSubtree(r.1, i)
    ensures r.1 > 0 ==> r.0[Parent(r.1)].freq <= node.freq
    decreases i
  {
    if i > 0 && node.freq < arr[Parent(i)].freq then
      SiftUp(arr[i := arr[Parent(i)]], Parent(i), node)
    else
      (arr, i)
  }

  /** `InsertMinHeap`: grow the heap by one slot and place `node` where the
      sift-up loop stops. The source writes past the allocation when the heap
      is full, so there must be room. The slot at the old size holds garbage
      in the source until written; here it holds `node`, and it is always
      overwritten before it is read. */
  function InsertMinHeap(h: MinHeap, node: Tree): (h': MinHeap)
    requires |h.nodes| < h.capacity
    ensures h'.capacity == h.capacity
    ensures |h'.nodes| == |h.nodes| + 1
    ensures multiset(h'.nodes) == multiset(h.nodes) + multiset{node}
    ensures IsHeap(h.nodes) ==> IsHeap(h'.nodes)
  {
    var n := |h.nodes|;
    var start := h.nodes + [node];
    var (arr, i) := SiftUp(start, n, node);
    assert start[n := node] == start;
    SiftUpMultiset(start, n, node, h.nodes);
    InsertOrder(h.nodes, node);
    MinHeap(arr[i := node], h.capacity)
  }

  lemma {:induction false} SiftUpMultiset(arr: seq<Tree>, i: nat, node: Tree, a0: seq<Tree>)
    requires i < |arr|
    requires multiset(arr[i := node]) == multiset(a0) + multiset{node}
    ensures multiset(SiftUp(arr, i, node).0[SiftUp(arr, i, node).1 := node]) == multiset(a0) + multiset{node}
    decreases i
  {
    if i > 0 && node.freq < arr[Parent(i)].freq {
      var p := Parent(i);
      var next := arr[i := arr[p]];
      assert next[p := node] == Swap(arr[i := node], i, p);
      SiftUpMultiset(next, p, node, a0);
    }
  }

  /** The heap-order invariant of the sift-up loop, stated over the array
      with `node` written into the current slot `i`: every edge is in order
      except the one into `i`, and the parent of `i` is no heavier than the
      children of `i`. */
  lemma {:induction false} SiftUpOrder(arr: seq<Tree>, i: nat, node: Tree)
    requires i < |arr|
    requires EdgesOkExcept(arr[i := node], i)
    requires i > 0 ==>
      forall c :: 0 < c < |arr| && Parent(c) == i ==> arr[Parent(i)].freq <= arr[c].freq
    ensures IsHeap(SiftUp(arr, i, node).0[SiftUp(arr, i, node).1 := node])
    decreases i
  {
    var b := arr[i := node];
    if i > 0 && node.freq < arr[Parent(i)].freq {
      var p := Parent(i);
      var next := arr[i := arr[p]];
      var b' := next[p := node];
      forall c | 0 < c < |arr| && c != p
        ensures EdgeOk(b', c)
      {
        if c == i {
        } else if Parent(c) == i {
          assert EdgeOk(b, c);
        } else if Parent(c) == p {
          assert EdgeOk(b, c);
        } else {
          assert EdgeOk(b, c);
        }
      }
      if p > 0 {
        forall c | 0 < c < |arr| && Parent(c) == p
          ensures next[Parent(p)].freq <= next[c].freq
        {
          assert EdgeOk(b, p);
          if c != i {
            assert EdgeOk(b, c);
          }
        }
      }
      SiftUpOrder(next, p, node);
    } else {
      forall c | 0 < c < |arr|
        ensures EdgeOk(b, c)
      {
        if c == i {
          assert i > 0;
        }
      }
    }
  }

  lemma InsertOrder(a: seq<Tree>, node: Tree)
    ensures IsHeap(a) ==>
      IsHeap(SiftUp(a + [node], |a|, node).0[SiftUp(a + [node], |a|, node).1 := node])
  {
    var start := a + [node];
    var n := |a|;
    if IsHeap(a) {
      assert start[n := node] == start;
      forall c | 0 < c < |start| && c != n
        ensures EdgeOk(start, c)
      {
        assert EdgeOk(a, c);
      }
      SiftUpOrder(start, n, node);
    }
  }

  /** `InsertMinHeap` moves `node` up past exactly those ancestors of the new
      slot that are strictly heavier than it: each of them drops one level
      along the path, the node comes to rest below the first ancestor that is
      no heavier, and every other entry stays where it was. */
  lemma InsertMinHeapRises(h: MinHeap, node: Tree)
    requires |h.nodes| < h.capacity
    ensures var n := |h.nodes|; var a := InsertMinHeap(h, node).nodes;
      exists pos: nat ::
        && pos <= n && InSubtree(pos, n) && a[pos] == node
        && (pos > 0 ==> h.nodes[Parent(pos)].freq <= node.freq)
        && (forall j :: pos < j <= n && InSubtree(j, n) ==>
              a[j] == h.nodes[Parent(j)] && node.freq < h.nodes[Parent(j)].freq)
        && (forall j :: 0 <= j < n && !(pos <= j && InSubtree(j, n)) ==> a[j] == h.nodes[j])
  {
    var n := |h.nodes|;
    var start := h.nodes + [node];
    var (arr, pos) := SiftUp(start, n, node);
    SiftUpShape(start, n, node, h.nodes);
    var a := InsertMinHeap(h, node).nodes;
    assert a == arr[pos := node];
    NodePlacedAtStop(h.nodes, node, arr, pos, a);
  }

  /** Writing `node` into the slot where the sift-up loop stopped. */
  lemma NodePlacedAtStop(a0: seq<Tree>, node: Tree, arr: seq<Tree>, pos: nat, a: seq<Tree>)
    requires |arr| == |a0| + 1 && pos <= |a0| && InSubtree(pos, |a0|)
    requires pos > 0 ==> a0[Parent(pos)].freq <= node.freq
    requires forall j :: pos < j <= |a0| && InSubtree(j, |a0|) ==>
      arr[j] == a0[Parent(j)] && node.freq < a0[Parent(j)].freq
    requires forall j :: 0 <= j < |a0| && !(pos < j && InSubtree(j, |a0|)) ==> arr[j] == a0[j]
    requires a == arr[pos := node]
    ensures var n := |a0|;
      && pos <= n && InSubtree(pos, n) && a[pos] == node
      && (pos > 0 ==> a0[Parent(pos)].freq <= node.freq)
      && (forall j :: pos < j <= n && InSubtree(j, n) ==>
            a[j] == a0[Parent(j)] && node.freq < a0[Parent(j)].freq)
      && (forall j :: 0 <= j < n && !(pos <= j && InSubtree(j, n)) ==> a[j] == a0[j])
  {
  }

  /** The shape invariant of the sift-up loop started at slot `n`: `i` is an
      ancestor of `n`, the slots strictly between `i` and `n` on that path hold
      their old parents (each strictly heavier than `node`), all other slots
      below `n` are untouched. */
  lemma {:induction false} SiftUpShape(arr: seq<Tree>, i: nat, node: Tree, a0: seq<Tree>)
    requires |arr| == |a0| + 1 && i <= |a0|
    requires InSubtree(i, |a0|)
    requires forall j :: i < j <= |a0| && InSubtree(j, |a0|) ==>
      arr[j] == a0[Parent(j)] && node.freq < a0[Parent(j)].freq
    requires forall j :: 0 <= j < |a0| && !(i < j && InSubtree(j, |a0|)) ==> arr[j] == a0[j]
    ensures var (r, p) := SiftUp(arr, i, node);
      && InSubtree(p, |a0|)
      && (p > 0 ==> a0[Parent(p)].freq <= node.freq)
      && (forall j :: p < j <= |a0| && InSubtree(j, |a0|) ==>
            r[j] == a0[Parent(j)] && node.freq < a0[Parent(j)].freq)
      && (forall j :: 0 <= j < |a0| && !(p < j && InSubtree(j, |a0|)) ==> r[j] == a0[j])
    decreases i
  {
    var n := |a0|;
    if i > 0 && node.freq < arr[Parent(i)].freq {
      var p := Parent(i);
      var next := arr[i := arr[p]];
      assert arr[p] == a0[p];
      assert InSubtree(p, n) by {
        InSubtreeTrans(p, i, n);
      }
      forall j | p < j <= n && InSubtree(j, n)
        ensures next[j] == a0[Parent(j)] && node.freq < a0[Parent(j)].freq
      {
        if j < i {
          AncestorChain(i, j, n);
          assert false;
        }
      }
      forall j | 0 <= j < n && !(p < j && InSubtree(j, n))
        ensures next[j] == a0[j]
      {
      }
      SiftUpShape(next, p, node, a0);
    } else {
      if i > 0 {
        assert arr[Parent(i)] == a0[Parent(i)];
      }
    }
  }

  /** C's `/` truncates toward zero; Dafny's rounds down. */
  function TruncDiv2(x: int): (q: int)
    ensures x >= 0 ==> 0 <= x - 2 * q <= 1
    ensures x < 0 ==> -1 <= x - 2 * q <= 0
  {
    if x >= 0 then x / 2 else -((-x) / 2)
  }

  /** The `for` loop of `buildMinHeap`: heapify positions `i`, `i - 1`, ..., 0.
      Its invariant: every edge whose parent is past `i` is already in order. */
  function HeapifyDownFrom(a: seq<Tree>, i: int): (r: seq<Tree>)
    requires -1 <= i < |a|
    requires forall c :: 0 < c < |a| && Parent(c) > i ==> EdgeOk(a, c)
    ensures |r| == |a|
    ensures multiset(r) == multiset(a)
    ensures IsHeap(r)
    decreases i + 1
  {
    if i < 0 then a
    else
      var b := HeapifyMin(a, i);
      HeapifyDownStep(a, i);
      HeapifyDownFrom(b, i - 1)
  }

  lemma HeapifyDownStep(a: seq<Tree>, i: nat)
    requires i < |a|
    requires forall c :: 0 < c < |a| && Parent(c) > i ==> EdgeOk(a, c)
    ensures forall c :: 0 < c < |a| && Parent(c) >= i ==> EdgeOk(HeapifyMin(a, i), c)
  {
    var b := HeapifyMin(a, i);
    forall c | 0 < c < |a| && InSubtree(i, Parent(c)) && Parent(c) != i
      ensures EdgeOk(a, c)
    {
      InSubtreeLe(i, Parent(c));
    }
    HeapifyMinMakesHeap(a, i);
    forall c | 0 < c < |a| && Parent(c) >= i
      ensures EdgeOk(b, c)
    {
      if !InSubtree(i, Parent(c)) {
        assert !InSubtree(i, c);
        assert EdgeOk(a, c);
      }
    }
  }

  /** `buildMinHeap`: heapify every internal position from the last one down
      to the root. The start index is `(n - 1) / 2` with `n = size - 1`,
      computed in C's truncating division, so a one-node heap heapifies
      position 0 once and an empty heap does nothing. */
  function BuildMinHeap(h: MinHeap): (h': MinHeap)
    ensures h'.capacity == h.capacity
    ensures |h'.nodes| == |h.nodes|
    ensures multiset(h'.nodes) == multiset(h.nodes)
    ensures IsHeap(h'.nodes)
  {
    var n: int := |h.nodes| - 1;
    var start := TruncDiv2(n - 1);
    MinHeap(HeapifyDownFrom(h.nodes, start), h.capacity)
  }

  /** The array `constructMinHeap` fills: one fresh node per input pair. */
  function InitialLeaves(data: seq<Symbol>, freq: seq<nat>): seq<Tree>
    requires |data| == |freq|
  {
    seq(|data|, i requires 0 <= i < |data| => NewNode(data[i], freq[i]))
  }

  /** `constructMinHeap`: a heap with capacity `size` holding one leaf per
      input `(data, freq)` pair. */
  function ConstructMinHeap(data: seq<Symbol>, freq: seq<nat>): (h: MinHeap)
    requires |data| == |freq|
    ensures h.capacity == |data| && |h.nodes| == |data|
    ensures IsHeap(h.nodes)
    ensures multiset(h.nodes) == multiset(InitialLeaves(data, freq))
    ensures forall t :: t in h.nodes ==> IsLeaf(t)
  {
    var h := BuildMinHeap(MinHeap(InitialLeaves(data, freq), |data|));
    assert forall t :: t in h.nodes ==> IsLeaf(t) by {
      forall t | t in h.nodes
        ensures IsLeaf(t)
      {
        assert t in multiset(InitialLeaves(data, freq));
      }
    }
    h
  }
}
