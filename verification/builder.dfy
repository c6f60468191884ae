/** `buildHuffmanTree`: greedy construction of the Huffman tree over the
    min-heap. */
module Builder {
  import opened Trees
  import opened HeapOrder
  import opened MinHeaps

  /** The internal node a merge creates: `newNode` with the sum of the two
      frequencies, `left` and `right` as its children. */
  function Join(left: Tree, right: Tree): Tree
  {
    Node(left.freq + right.freq, left, right)
  }

  /** `after` is `before` with the two nodes `l` and `r` replaced by their
      join: `l` is no heavier than any node of `before`, and `r` is no
      heavier than any node that remains once `l` is taken out. */
  predicate JoinsTwoLightest(before: seq<Tree>, after: seq<Tree>, l: Tree, r: Tree)
  {
    && l in multiset(before)
    && r in multiset(before) - multiset{l}
    && (forall t :: t in multiset(before) ==> l.freq <= t.freq)
    && (forall t :: t in multiset(before) - multiset{l} ==> r.freq <= t.freq)
    && multiset(after) + multiset{l, r} == multiset(before) + multiset{Join(l, r)}
  }

  /** One turn of the `while` loop: extract the two lightest nodes (the first
      becomes the left child, the second the right child), merge them under a
      node carrying the sum of their frequencies, insert that node back. */
  function Merge(h: MinHeap): (h': MinHeap)
    requires 2 <= |h.nodes| <= h.capacity
    ensures h'.capacity == h.capacity
    ensures |h'.nodes| == |h.nodes| - 1
    ensures IsHeap(h.nodes) ==> IsHeap(h'.nodes)
  {
    var (left, h1) := ExtractMin(h);
    var (right, h2) := ExtractMin(h1);
    InsertMinHeap(h2, Join(left, right))
  }

  /** On a heap, a turn is greedy: it replaces the lightest node and the
      lightest of the rest by their join, the lightest as the left child. */
  lemma MergeJoinsTwoLightest(h: MinHeap)
    requires 2 <= |h.nodes| <= h.capacity
    requires IsHeap(h.nodes)
    ensures exists l, r :: JoinsTwoLightest(h.nodes, Merge(h).nodes, l, r)
  {
    var (left, h1) := ExtractMin(h);
    var (right, h2) := ExtractMin(h1);
    var h3 := InsertMinHeap(h2, Join(left, right));
    assert h3 == Merge(h);
    MergePicksLightest(h.nodes, h1.nodes, h2.nodes, h3.nodes, left, right);
  }

  /** The two extractions of a turn take the lightest node and then the
      lightest of the rest; the insertion adds their join. */
  lemma MergePicksLightest(s0: seq<Tree>, s1: seq<Tree>, s2: seq<Tree>, s3: seq<Tree>, left: Tree, right: Tree)
    requires multiset(s1) + multiset{left} == multiset(s0)
    requires multiset(s2) + multiset{right} == multiset(s1)
    requires multiset(s3) == multiset(s2) + multiset{Join(left, right)}
    requires forall i :: 0 <= i < |s0| ==> left.freq <= s0[i].freq
    requires forall i :: 0 <= i < |s1| ==> right.freq <= s1[i].freq
    ensures JoinsTwoLightest(s0, s3, left, right)
  {
    NoHeavierThanAll(s0, left);
    NoHeavierThanAll(s1, right);
    TwoTakenOneAdded(multiset(s0), multiset(s1), multiset(s2), multiset(s3), left, right, Join(left, right));
  }

  /** Taking `left` and then `right` out of `m0` and adding `top`. */
  lemma TwoTakenOneAdded(m0: multiset<Tree>, m1: multiset<Tree>, m2: multiset<Tree>, m3: multiset<Tree>,
                         left: Tree, right: Tree, top: Tree)
    requires m1 + multiset{left} == m0
    requires m2 + multiset{right} == m1
    requires m3 == m2 + multiset{top}
    ensures left in m0 && m0 - multiset{left} == m1 && right in m1
    ensures m3 + multiset{left, right} == m0 + multiset{top}
  {
    assert multiset{left, right} == multiset{left} + multiset{right};
  }

  /** A node no heavier than any slot is no heavier than any member. */
  lemma NoHeavierThanAll(s: seq<Tree>, x: Tree)
    requires forall i :: 0 <= i < |s| ==> x.freq <= s[i].freq
    ensures forall t :: t in multiset(s) ==> x.freq <= t.freq
  {
    forall t | t in multiset(s)
      ensures x.freq <= t.freq
    {
      var i :| 0 <= i < |s| && s[i] == t;
    }
  }

  /** Every node held by the heap is a well-formed subtree. */
  predicate AllWellFormed(ts: seq<Tree>)
  {
    forall t :: t in ts ==> WellFormed(t)
  }

  /** A merge keeps every held subtree well formed, and the leaves of the
      forest and its total frequency are unchanged. */
  lemma MergeKeepsForest(h: MinHeap)
    requires 2 <= |h.nodes| <= h.capacity
    requires IsHeap(h.nodes) && AllWellFormed(h.nodes)
    ensures AllWellFormed(Merge(h).nodes)
    ensures multiset(Flatten(Merge(h).nodes)) == multiset(Flatten(h.nodes))
    ensures SumFreq(Merge(h).nodes) == SumFreq(h.nodes)
  {
    var (left, h1) := ExtractMin(h);
    var (right, h2) := ExtractMin(h1);
    var top := Join(left, right);
    var h3 := InsertMinHeap(h2, top);
    assert h3 == Merge(h);
    assert right in multiset(h.nodes) by {
      assert right in multiset(h1.nodes);
    }
    assert left.freq <= right.freq;
    MergeStepForest(h.nodes, h1.nodes, h2.nodes, h3.nodes, left, right);
  }

  /** The forest before and after one merge, as multisets of subtrees. */
  lemma MergeStepForest(s0: seq<Tree>, s1: seq<Tree>, s2: seq<Tree>, s3: seq<Tree>, left: Tree, right: Tree)
    requires multiset(s1) + multiset{left} == multiset(s0)
    requires multiset(s2) + multiset{right} == multiset(s1)
    requires multiset(s3) == multiset(s2) + multiset{Join(left, right)}
    requires AllWellFormed(s0) && left.freq <= right.freq
    ensures AllWellFormed(s3)
    ensures multiset(Flatten(s3)) == multiset(Flatten(s0))
    ensures SumFreq(s3) == SumFreq(s0)
  {
    MergedWellFormed(s0, s1, s2, s3, left, right);
    var top := Join(left, right);
    TwoTakenOneAdded(multiset(s0), multiset(s1), multiset(s2), multiset(s3), left, right, top);
    assert multiset(s0 + [top]) == multiset(s0) + multiset{top};
    assert multiset(s3 + [left, right]) == multiset(s3) + multiset{left, right};
    ForestAfterMerge(s0, s3, left, right);
  }

  lemma MergedWellFormed(s0: seq<Tree>, s1: seq<Tree>, s2: seq<Tree>, s3: seq<Tree>, left: Tree, right: Tree)
    requires multiset(s1) + multiset{left} == multiset(s0)
    requires multiset(s2) + multiset{right} == multiset(s1)
    requires multiset(s3) == multiset(s2) + multiset{Join(left, right)}
    requires AllWellFormed(s0) && left.freq <= right.freq
    ensures AllWellFormed(s3)
  {
    assert left in multiset(s0);
    assert right in multiset(s1);
    assert right in multiset(s0);
    assert WellFormed(Join(left, right));
    WellFormedAfterInsert(s0, s2, s3, Join(left, right));
  }

  lemma WellFormedAfterInsert(s0: seq<Tree>, s2: seq<Tree>, s3: seq<Tree>, top: Tree)
    requires multiset(s2) <= multiset(s0)
    requires multiset(s3) == multiset(s2) + multiset{top}
    requires AllWellFormed(s0) && WellFormed(top)
    ensures AllWellFormed(s3)
  {
    forall t | t in s3
      ensures WellFormed(t)
    {
      assert t in multiset(s3);
      if t != top {
        assert t in multiset(s2);
        assert t in multiset(s0);
        assert t in s0;
      }
    }
  }

  /** Replacing `left` and `right` by their merge in a forest keeps its leaves
      and its total frequency. */
  lemma ForestAfterMerge(s0: seq<Tree>, s3: seq<Tree>, left: Tree, right: Tree)
    requires multiset(s0 + [Join(left, right)]) == multiset(s3 + [left, right])
    ensures multiset(Flatten(s3)) == multiset(Flatten(s0))
    ensures SumFreq(s3) == SumFreq(s0)
  {
    LeavesAfterMerge(s0, s3, left, right);
    FreqAfterMerge(s0, s3, left, right);
  }

  lemma LeavesAfterMerge(s0: seq<Tree>, s3: seq<Tree>, left: Tree, right: Tree)
    requires multiset(s0 + [Join(left, right)]) == multiset(s3 + [left, right])
    ensures multiset(Flatten(s3)) == multiset(Flatten(s0))
  {
    FlattenPerm(s0 + [Join(left, right)], s3 + [left, right]);
    FlattenSnoc(s0, Join(left, right));
    FlattenSnoc2(s3, left, right);
    assert LeavesOf(Join(left, right)) == LeavesOf(left) + LeavesOf(right);
    CancelPair(multiset(Flatten(s0)), multiset(Flatten(s3)), multiset(LeavesOf(left)), multiset(LeavesOf(right)));
  }

  lemma CancelPair(a: multiset<Tree>, b: multiset<Tree>, l: multiset<Tree>, r: multiset<Tree>)
    requires a + (l + r) == b + l + r
    ensures a == b
  {
    assert b + l + r == b + (l + r);
    Cancel(a, b, l + r);
  }

  lemma FreqAfterMerge(s0: seq<Tree>, s3: seq<Tree>, left: Tree, right: Tree)
    requires multiset(s0 + [Join(left, right)]) == multiset(s3 + [left, right])
    ensures SumFreq(s3) == SumFreq(s0)
  {
    var top := Join(left, right);
    SumFreqPerm(s0 + [top], s3 + [left, right]);
    SumFreqAppend(s0, [top]);
    SumFreqSnoc2(s3, left, right);
  }

  /** The `while (!isSize(minHeap, 1))` loop: merge until one node remains.
      Each turn shrinks the heap by one, so it runs `|h.nodes| - 1` times; the
      heap never holds more than it did at the start, so it stays within
      its capacity. */
  function MergeLoop(h: MinHeap): (h': MinHeap)
    requires 1 <= |h.nodes| <= h.capacity
    requires IsHeap(h.nodes) && AllWellFormed(h.nodes)
    ensures IsSize(h', 1) && h'.capacity == h.capacity
    ensures WellFormed(h'.nodes[0])
    ensures multiset(LeavesOf(h'.nodes[0])) == multiset(Flatten(h.nodes))
    ensures h'.nodes[0].freq == SumFreq(h.nodes)
    decreases |h.nodes|
  {
    if IsSize(h, 1) then
      assert Flatten(h.nodes) == LeavesOf(h.nodes[0]) + Flatten([]);
      h
    else
      MergeKeepsForest(h);
      MergeLoop(Merge(h))
  }

  /** `buildHuffmanTree`: build the heap of leaves, merge until one node
      remains, extract it. The source needs at least one symbol: with none,
      the loop extracts from an empty heap. */
  function BuildHuffmanTree(data: seq<Symbol>, freq: seq<nat>): (root: Tree)
    requires |data| == |freq| && |data| >= 1
    ensures WellFormed(root)
    ensures multiset(LeavesOf(root)) == multiset(InitialLeaves(data, freq))
    ensures root.freq == Sum(freq)
    ensures InternalCount(root) == |data| - 1
  {
    var h := ConstructMinHeap(data, freq);
    var last := MergeLoop(h);
    var (root, _) := ExtractMin(last);
    BuildHuffmanTreeFacts(data, freq, h.nodes, root);
    root
  }

  lemma BuildHuffmanTreeFacts(data: seq<Symbol>, freq: seq<nat>, start: seq<Tree>, root: Tree)
    requires |data| == |freq|
    requires multiset(start) == multiset(InitialLeaves(data, freq))
    requires multiset(LeavesOf(root)) == multiset(Flatten(start))
    requires root.freq == SumFreq(start)
    ensures multiset(LeavesOf(root)) == multiset(InitialLeaves(data, freq))
    ensures root.freq == Sum(freq)
    ensures InternalCount(root) == |data| - 1
  {
    var init := InitialLeaves(data, freq);
    FlattenPerm(start, init);
    FlattenOfLeaves(init);
    SumFreqPerm(start, init);
    InitialLeavesSum(data, freq);
    assert |LeavesOf(root)| == |multiset(LeavesOf(root))| == |multiset(init)| == |data|;
  }

  lemma {:induction false} InitialLeavesSum(data: seq<Symbol>, freq: seq<nat>)
    requires |data| == |freq|
    ensures SumFreq(InitialLeaves(data, freq)) == Sum(freq)
    decreases |data|
  {
    if |data| > 0 {
      InitialLeavesSum(data[1..], freq[1..]);
      assert InitialLeaves(data, freq)[1..] == InitialLeaves(data[1..], freq[1..]);
    }
  }
}
