/** The commented-out driver in `main`: symbols a to f with frequencies 5, 9,
    12, 13, 16 and 45, followed through every heap operation the builder
    performs, down to the printed codes. */
module DriverExample {
  import opened Trees
  import opened HeapOrder
  import opened MinHeaps
  import opened Builder
  import opened Codes

  const A: Tree := Leaf('a', 5)
  const B: Tree := Leaf('b', 9)
  const C: Tree := Leaf('c', 12)
  const D: Tree := Leaf('d', 13)
  const E: Tree := Leaf('e', 16)
  const F: Tree := Leaf('f', 45)
  const N14: Tree := Node(14, A, B)
  const N25: Tree := Node(25, C, D)
  const N30: Tree := Node(30, N14, E)
  const N55: Tree := Node(55, N25, N30)
  const N100: Tree := Node(100, F, N55)

  const Data: seq<Symbol> := ['a', 'b', 'c', 'd', 'e', 'f']
  const Freq: seq<nat> := [5, 9, 12, 13, 16, 45]

  /** The input is already in heap order, so `buildMinHeap` moves nothing. */
  lemma InitialHeap()
    ensures ConstructMinHeap(Data, Freq) == MinHeap([A, B, C, D, E, F], 6)
  {
    InitialLeavesExample();
    HeapifyAlreadyInOrder();
    assert TruncDiv2(6 - 1 - 1) == 2;
  }

  lemma InitialLeavesExample()
    ensures InitialLeaves(Data, Freq) == [A, B, C, D, E, F]
  {
  }

  lemma HeapifyAlreadyInOrder()
    ensures HeapifyMin([A, B, C, D, E, F], 2) == [A, B, C, D, E, F]
    ensures HeapifyMin([A, B, C, D, E, F], 1) == [A, B, C, D, E, F]
    ensures HeapifyMin([A, B, C, D, E, F], 0) == [A, B, C, D, E, F]
  {
    var a := [A, B, C, D, E, F];
    assert Smallest(a, 2) == 2;
    assert Smallest(a, 1) == 1;
    assert Smallest(a, 0) == 0;
    HeapifyStops(a, 2);
    HeapifyStops(a, 1);
    HeapifyStops(a, 0);
  }

  // Single steps of the heap operations, stated once for any arguments so
  // that the concrete trace below only has to evaluate `Smallest`, `Swap`
  // and the sift-up comparison on literal arrays.

  lemma HeapifyStops(a: seq<Tree>, i: nat)
    requires Smallest(a, i) == i
    ensures HeapifyMin(a, i) == a
  {
  }

  lemma HeapifySwaps(a: seq<Tree>, i: nat, s: nat)
    requires Smallest(a, i) == s && s != i
    ensures HeapifyMin(a, i) == HeapifyMin(Swap(a, i, s), s)
  {
  }

  lemma ExtractIs(a: seq<Tree>, cap: nat, moved: seq<Tree>, r: seq<Tree>)
    requires |a| > 0 && MoveLastToRoot(a) == moved && HeapifyMin(moved, 0) == r
    ensures ExtractMin(MinHeap(a, cap)) == (a[0], MinHeap(r, cap))
  {
  }

  lemma InsertStays(a: seq<Tree>, cap: nat, node: Tree)
    requires |a| < cap
    requires |a| == 0 || !(node.freq < a[Parent(|a|)].freq)
    ensures InsertMinHeap(MinHeap(a, cap), node) == MinHeap(a + [node], cap)
  {
    var start := a + [node];
    assert SiftUp(start, |a|, node) == (start, |a|);
    assert start[|a| := node] == start;
  }

  lemma MergeIs(h: MinHeap, left: Tree, h1: MinHeap, right: Tree, h2: MinHeap, h3: MinHeap)
    requires 2 <= |h.nodes| <= h.capacity
    requires ExtractMin(h) == (left, h1) && ExtractMin(h1) == (right, h2)
    requires InsertMinHeap(h2, Join(left, right)) == h3
    ensures Merge(h) == h3
  {
    var r1 := ExtractMin(h);
    var r2 := ExtractMin(r1.1);
    assert r1.0 == left && r1.1 == h1;
    assert r2.0 == right && r2.1 == h2;
  }

  lemma LoopStep(h: MinHeap, h': MinHeap)
    requires 2 <= |h.nodes| <= h.capacity
    requires IsHeap(h.nodes) && AllWellFormed(h.nodes)
    requires Merge(h) == h'
    ensures 1 <= |h'.nodes| <= h'.capacity
    ensures IsHeap(h'.nodes) && AllWellFormed(h'.nodes)
    ensures MergeLoop(h) == MergeLoop(h')
  {
    MergeKeepsForest(h);
  }

  // The ten extractions. Each moves the last entry to the root and sifts it
  // down; every literal fact sits in a lemma of its own so that each proof
  // evaluates one operation on one array.

  lemma Move1()
    ensures MoveLastToRoot([A, B, C, D, E, F]) == [F, B, C, D, E]
  {
  }

  lemma Sink1a()
    ensures HeapifyMin([F, B, C, D, E], 0) == HeapifyMin([B, F, C, D, E], 1)
  {
    assert Smallest([F, B, C, D, E], 0) == 1;
    assert Swap([F, B, C, D, E], 0, 1) == [B, F, C, D, E] by {
      assert [F, B, C, D, E][0 := B][1 := F] == [B, F, C, D, E];
    }
    HeapifySwaps([F, B, C, D, E], 0, 1);
  }

  lemma Sink1b()
    ensures HeapifyMin([B, F, C, D, E], 1) == HeapifyMin([B, D, C, F, E], 3)
  {
    assert Smallest([B, F, C, D, E], 1) == 3;
    assert Swap([B, F, C, D, E], 1, 3) == [B, D, C, F, E] by {
      assert [B, F, C, D, E][1 := D][3 := F] == [B, D, C, F, E];
    }
    HeapifySwaps([B, F, C, D, E], 1, 3);
  }

  lemma Rest1()
    ensures HeapifyMin([B, D, C, F, E], 3) == [B, D, C, F, E]
  {
    assert Smallest([B, D, C, F, E], 3) == 3;
    HeapifyStops([B, D, C, F, E], 3);
  }

  lemma Extract1()
    ensures ExtractMin(MinHeap([A, B, C, D, E, F], 6)) == (A, MinHeap([B, D, C, F, E], 6))
  {
    Move1();
    Sink1a();
    Sink1b();
    Rest1();
    ExtractIs([A, B, C, D, E, F], 6, [F, B, C, D, E], [B, D, C, F, E]);
  }

  lemma Move2()
    ensures MoveLastToRoot([B, D, C, F, E]) == [E, D, C, F]
  {
  }

  lemma Sink2a()
    ensures HeapifyMin([E, D, C, F], 0) == HeapifyMin([C, D, E, F], 2)
  {
    assert Smallest([E, D, C, F], 0) == 2;
    assert Swap([E, D, C, F], 0, 2) == [C, D, E, F] by {
      assert [E, D, C, F][0 := C][2 := E] == [C, D, E, F];
    }
    HeapifySwaps([E, D, C, F], 0, 2);
  }

  lemma Rest2()
    ensures HeapifyMin([C, D, E, F], 2) == [C, D, E, F]
  {
    assert Smallest([C, D, E, F], 2) == 2;
    HeapifyStops([C, D, E, F], 2);
  }

  lemma Extract2()
    ensures ExtractMin(MinHeap([B, D, C, F, E], 6)) == (B, MinHeap([C, D, E, F], 6))
  {
    Move2();
    Sink2a();
    Rest2();
    ExtractIs([B, D, C, F, E], 6, [E, D, C, F], [C, D, E, F]);
  }

  lemma Move3()
    ensures MoveLastToRoot([C, D, E, F, N14]) == [N14, D, E, F]
  {
  }

  lemma Sink3a()
    ensures HeapifyMin([N14, D, E, F], 0) == HeapifyMin([D, N14, E, F], 1)
  {
    assert Smallest([N14, D, E, F], 0) == 1;
    assert Swap([N14, D, E, F], 0, 1) == [D, N14, E, F] by {
      assert [N14, D, E, F][0 := D][1 := N14] == [D, N14, E, F];
    }
    HeapifySwaps([N14, D, E, F], 0, 1);
  }

  lemma Rest3()
    ensures HeapifyMin([D, N14, E, F], 1) == [D, N14, E, F]
  {
    assert Smallest([D, N14, E, F], 1) == 1;
    HeapifyStops([D, N14, E, F], 1);
  }

  lemma Extract3()
    ensures ExtractMin(MinHeap([C, D, E, F, N14], 6)) == (C, MinHeap([D, N14, E, F], 6))
  {
    Move3();
    Sink3a();
    Rest3();
    ExtractIs([C, D, E, F, N14], 6, [N14, D, E, F], [D, N14, E, F]);
  }

  lemma Move4()
    ensures MoveLastToRoot([D, N14, E, F]) == [F, N14, E]
  {
  }

  lemma Sink4a()
    ensures HeapifyMin([F, N14, E], 0) == HeapifyMin([N14, F, E], 1)
  {
    assert Smallest([F, N14, E], 0) == 1;
    assert Swap([F, N14, E], 0, 1) == [N14, F, E] by {
      assert [F, N14, E][0 := N14][1 := F] == [N14, F, E];
    }
    HeapifySwaps([F, N14, E], 0, 1);
  }

  lemma Rest4()
    ensures HeapifyMin([N14, F, E], 1) == [N14, F, E]
  {
    assert Smallest([N14, F, E], 1) == 1;
    HeapifyStops([N14, F, E], 1);
  }

  lemma Extract4()
    ensures ExtractMin(MinHeap([D, N14, E, F], 6)) == (D, MinHeap([N14, F, E], 6))
  {
    Move4();
    Sink4a();
    Rest4();
    ExtractIs([D, N14, E, F], 6, [F, N14, E], [N14, F, E]);
  }

  lemma Move5()
    ensures MoveLastToRoot([N14, N25, E, F]) == [F, N25, E]
  {
  }

  lemma Sink5a()
    ensures HeapifyMin([F, N25, E], 0) == HeapifyMin([E, N25, F], 2)
  {
    assert Smallest([F, N25, E], 0) == 2;
    assert Swap([F, N25, E], 0, 2) == [E, N25, F] by {
      assert [F, N25, E][0 := E][2 := F] == [E, N25, F];
    }
    HeapifySwaps([F, N25, E], 0, 2);
  }

  lemma Rest5()
    ensures HeapifyMin([E, N25, F], 2) == [E, N25, F]
  {
    assert Smallest([E, N25, F], 2) == 2;
    HeapifyStops([E, N25, F], 2);
  }

  lemma Extract5()
    ensures ExtractMin(MinHeap([N14, N25, E, F], 6)) == (N14, MinHeap([E, N25, F], 6))
  {
    Move5();
    Sink5a();
    Rest5();
    ExtractIs([N14, N25, E, F], 6, [F, N25, E], [E, N25, F]);
  }

  lemma Move6()
    ensures MoveLastToRoot([E, N25, F]) == [F, N25]
  {
  }

  lemma Sink6a()
    ensures HeapifyMin([F, N25], 0) == HeapifyMin([N25, F], 1)
  {
    assert Smallest([F, N25], 0) == 1;
    assert Swap([F, N25], 0, 1) == [N25, F] by {
      assert [F, N25][0 := N25][1 := F] == [N25, F];
    }
    HeapifySwaps([F, N25], 0, 1);
  }

  lemma Rest6()
    ensures HeapifyMin([N25, F], 1) == [N25, F]
  {
    assert Smallest([N25, F], 1) == 1;
    HeapifyStops([N25, F], 1);
  }

  lemma Extract6()
    ensures ExtractMin(MinHeap([E, N25, F], 6)) == (E, MinHeap([N25, F], 6))
  {
    Move6();
    Sink6a();
    Rest6();
    ExtractIs([E, N25, F], 6, [F, N25], [N25, F]);
  }

  lemma Move7()
    ensures MoveLastToRoot([N25, F, N30]) == [N30, F]
  {
  }

  lemma Rest7()
    ensures HeapifyMin([N30, F], 0) == [N30, F]
  {
    assert Smallest([N30, F], 0) == 0;
    HeapifyStops([N30, F], 0);
  }

  lemma Extract7()
    ensures ExtractMin(MinHeap([N25, F, N30], 6)) == (N25, MinHeap([N30, F], 6))
  {
    Move7();
    Rest7();
    ExtractIs([N25, F, N30], 6, [N30, F], [N30, F]);
  }

  lemma Move8()
    ensures MoveLastToRoot([N30, F]) == [F]
  {
  }

  lemma Rest8()
    ensures HeapifyMin([F], 0) == [F]
  {
    assert Smallest([F], 0) == 0;
    HeapifyStops([F], 0);
  }

  lemma Extract8()
    ensures ExtractMin(MinHeap([N30, F], 6)) == (N30, MinHeap([F], 6))
  {
    Move8();
    Rest8();
    ExtractIs([N30, F], 6, [F], [F]);
  }

  lemma Move9()
    ensures MoveLastToRoot([F, N55]) == [N55]
  {
  }

  lemma Rest9()
    ensures HeapifyMin([N55], 0) == [N55]
  {
    assert Smallest([N55], 0) == 0;
    HeapifyStops([N55], 0);
  }

  lemma Extract9()
    ensures ExtractMin(MinHeap([F, N55], 6)) == (F, MinHeap([N55], 6))
  {
    Move9();
    Rest9();
    ExtractIs([F, N55], 6, [N55], [N55]);
  }

  lemma Move10()
    ensures MoveLastToRoot([N55]) == []
  {
  }

  lemma Rest10()
    ensures HeapifyMin([], 0) == []
  {
    assert Smallest([], 0) == 0;
    HeapifyStops([], 0);
  }

  lemma Extract10()
    ensures ExtractMin(MinHeap([N55], 6)) == (N55, MinHeap([], 6))
  {
    Move10();
    Rest10();
    ExtractIs([N55], 6, [], []);
  }

  /** `a` and `b` merge into the node of weight 14, which stays at the
      bottom: its parent `d` is lighter. */
  lemma Insert1()
    ensures InsertMinHeap(MinHeap([C, D, E, F], 6), N14) == MinHeap([C, D, E, F, N14], 6)
  {
    assert Parent(4) == 1;
    InsertStays([C, D, E, F], 6, N14);
  }

  lemma Merge1()
    ensures Merge(MinHeap([A, B, C, D, E, F], 6)) == MinHeap([C, D, E, F, N14], 6)
  {
    Extract1();
    Extract2();
    Insert1();
    assert Join(A, B) == N14;
    MergeIs(MinHeap([A, B, C, D, E, F], 6), A, MinHeap([B, D, C, F, E], 6),
      B, MinHeap([C, D, E, F], 6), MinHeap([C, D, E, F, N14], 6));
  }

  /** `c` and `d` merge into the node of weight 25, which rises past `f`
      (45) and stops below the node of weight 14. */
  lemma Insert2()
    ensures InsertMinHeap(MinHeap([N14, F, E], 6), N25) == MinHeap([N14, N25, E, F], 6)
  {
    assert [N14, F, E] + [N25] == [N14, F, E, N25];
    assert [N14, F, E, N25][3 := F] == [N14, F, E, F];
    assert SiftUp([N14, F, E, F], 1, N25) == ([N14, F, E, F], 1);
    assert SiftUp([N14, F, E, N25], 3, N25) == ([N14, F, E, F], 1);
    assert [N14, F, E, F][1 := N25] == [N14, N25, E, F];
  }

  lemma Merge2()
    ensures Merge(MinHeap([C, D, E, F, N14], 6)) == MinHeap([N14, N25, E, F], 6)
  {
    Extract3();
    Extract4();
    Insert2();
    assert Join(C, D) == N25;
    MergeIs(MinHeap([C, D, E, F, N14], 6), C, MinHeap([D, N14, E, F], 6),
      D, MinHeap([N14, F, E], 6), MinHeap([N14, N25, E, F], 6));
  }

  /** The node of weight 14 and `e` merge into the node of weight 30, which
      stays below the node of weight 25. */
  lemma Insert3()
    ensures InsertMinHeap(MinHeap([N25, F], 6), N30) == MinHeap([N25, F, N30], 6)
  {
    assert Parent(2) == 0;
    InsertStays([N25, F], 6, N30);
  }

  lemma Merge3()
    ensures Merge(MinHeap([N14, N25, E, F], 6)) == MinHeap([N25, F, N30], 6)
  {
    Extract5();
    Extract6();
    Insert3();
    assert Join(N14, E) == N30;
    MergeIs(MinHeap([N14, N25, E, F], 6), N14, MinHeap([E, N25, F], 6),
      E, MinHeap([N25, F], 6), MinHeap([N25, F, N30], 6));
  }

  /** The nodes of weight 25 and 30 merge into the node of weight 55, which
      stays below `f`. */
  lemma Insert4()
    ensures InsertMinHeap(MinHeap([F], 6), N55) == MinHeap([F, N55], 6)
  {
    assert Parent(1) == 0;
    InsertStays([F], 6, N55);
  }

  lemma Merge4()
    ensures Merge(MinHeap([N25, F, N30], 6)) == MinHeap([F, N55], 6)
  {
    Extract7();
    Extract8();
    Insert4();
    assert Join(N25, N30) == N55;
    MergeIs(MinHeap([N25, F, N30], 6), N25, MinHeap([N30, F], 6),
      N30, MinHeap([F], 6), MinHeap([F, N55], 6));
  }

  /** `f` and the node of weight 55 merge into the root. */
  lemma Merge5()
    ensures Merge(MinHeap([F, N55], 6)) == MinHeap([N100], 6)
  {
    Extract9();
    Extract10();
    InsertStays([], 6, N100);
    assert Join(F, N55) == N100;
    MergeIs(MinHeap([F, N55], 6), F, MinHeap([N55], 6),
      N55, MinHeap([], 6), MinHeap([N100], 6));
  }

  lemma MergedNodesWellFormed()
    ensures WellFormed(N14) && WellFormed(N25) && WellFormed(N30)
    ensures WellFormed(N55) && WellFormed(N100)
  {
    assert WellFormed(N14) && WellFormed(N25);
    assert WellFormed(N30);
    assert WellFormed(N55);
  }

  lemma StartIsForest()
    ensures IsHeap([A, B, C, D, E, F]) && AllWellFormed([A, B, C, D, E, F])
  {
  }

  /** Five merges turn the six leaves into the single tree `N100`. */
  lemma ExampleLoop()
    ensures MergeLoop(MinHeap([A, B, C, D, E, F], 6)) == MinHeap([N100], 6)
  {
    StartIsForest();
    Merge1();
    LoopStep(MinHeap([A, B, C, D, E, F], 6), MinHeap([C, D, E, F, N14], 6));
    Merge2();
    LoopStep(MinHeap([C, D, E, F, N14], 6), MinHeap([N14, N25, E, F], 6));
    Merge3();
    LoopStep(MinHeap([N14, N25, E, F], 6), MinHeap([N25, F, N30], 6));
    Merge4();
    LoopStep(MinHeap([N25, F, N30], 6), MinHeap([F, N55], 6));
    Merge5();
    LoopStep(MinHeap([F, N55], 6), MinHeap([N100], 6));
  }

  lemma ExampleTree()
    ensures BuildHuffmanTree(Data, Freq) == N100
  {
    InitialHeap();
    ExampleLoop();
    assert MoveLastToRoot([N100]) == [];
  }

  /** The driver's codes: f = 0, c = 100, d = 101, a = 1100, b = 1101,
      e = 111, printed in that order, for a weighted code length of 224 bits. */
  lemma DriverCodes()
    ensures HuffmanCodes(Data, Freq) == [
      CodeEntry('f', [0]), CodeEntry('c', [1, 0, 0]), CodeEntry('d', [1, 0, 1]),
      CodeEntry('a', [1, 1, 0, 0]), CodeEntry('b', [1, 1, 0, 1]), CodeEntry('e', [1, 1, 1])]
    ensures WeightedLength(LeavesOf(BuildHuffmanTree(Data, Freq)), HuffmanCodes(Data, Freq)) == 224
  {
    ExampleTree();
    CodesOfBuiltTree(Data, Freq, N100);
    ExampleLeaves();
    ExamplePrint();
    ExampleWeight();
  }

  lemma CodesOfBuiltTree(data: seq<Symbol>, freq: seq<nat>, root: Tree)
    requires |data| == |freq| && |data| >= 1
    requires BuildHuffmanTree(data, freq) == root
    ensures HuffmanCodes(data, freq) == HuffmanPrint(root, [])
  {
  }

  lemma ExampleWeight()
    ensures WeightedLength([F, C, D, A, B, E], [
      CodeEntry('f', [0]), CodeEntry('c', [1, 0, 0]), CodeEntry('d', [1, 0, 1]),
      CodeEntry('a', [1, 1, 0, 0]), CodeEntry('b', [1, 1, 0, 1]), CodeEntry('e', [1, 1, 1])]) == 224
  {
    var leaves := [F, C, D, A, B, E];
    var codes := [
      CodeEntry('f', [0]), CodeEntry('c', [1, 0, 0]), CodeEntry('d', [1, 0, 1]),
      CodeEntry('a', [1, 1, 0, 0]), CodeEntry('b', [1, 1, 0, 1]), CodeEntry('e', [1, 1, 1])];
    assert WeightedLength(leaves[6..], codes[6..]) == 0;
    assert WeightedLength(leaves[5..], codes[5..]) == 48;
    assert WeightedLength(leaves[4..], codes[4..]) == 84;
    assert WeightedLength(leaves[3..], codes[3..]) == 104;
    assert WeightedLength(leaves[2..], codes[2..]) == 143;
    assert WeightedLength(leaves[1..], codes[1..]) == 179;
  }

  lemma ExampleLeaves()
    ensures LeavesOf(N100) == [F, C, D, A, B, E]
  {
    assert LeavesOf(N14) == [A, B];
    assert LeavesOf(N25) == [C, D];
    assert LeavesOf(N30) == [A, B, E];
    assert LeavesOf(N55) == [C, D, A, B, E];
  }

  lemma PrintN14()
    ensures HuffmanPrint(N14, [1, 1, 0]) == [CodeEntry('a', [1, 1, 0, 0]), CodeEntry('b', [1, 1, 0, 1])]
  {
    assert [1, 1, 0] + [0] == [1, 1, 0, 0];
    assert [1, 1, 0] + [1] == [1, 1, 0, 1];
  }

  lemma PrintN30()
    ensures HuffmanPrint(N30, [1, 1]) == [CodeEntry('a', [1, 1, 0, 0]), CodeEntry('b', [1, 1, 0, 1]), CodeEntry('e', [1, 1, 1])]
  {
    PrintN14();
    assert [1, 1] + [0] == [1, 1, 0];
    assert [1, 1] + [1] == [1, 1, 1];
  }

  lemma PrintN25()
    ensures HuffmanPrint(N25, [1, 0]) == [CodeEntry('c', [1, 0, 0]), CodeEntry('d', [1, 0, 1])]
  {
    assert [1, 0] + [0] == [1, 0, 0];
    assert [1, 0] + [1] == [1, 0, 1];
  }

  lemma PrintN55()
    ensures HuffmanPrint(N55, [1]) == [
      CodeEntry('c', [1, 0, 0]), CodeEntry('d', [1, 0, 1]),
      CodeEntry('a', [1, 1, 0, 0]), CodeEntry('b', [1, 1, 0, 1]), CodeEntry('e', [1, 1, 1])]
  {
    PrintN25();
    PrintN30();
    assert [1] + [0] == [1, 0];
    assert [1] + [1] == [1, 1];
  }

  lemma ExamplePrint()
    ensures HuffmanPrint(N100, []) == [
      CodeEntry('f', [0]), CodeEntry('c', [1, 0, 0]), CodeEntry('d', [1, 0, 1]),
      CodeEntry('a', [1, 1, 0, 0]), CodeEntry('b', [1, 1, 0, 1]), CodeEntry('e', [1, 1, 1])]
  {
    PrintN55();
    assert [] + [0] == [0];
    assert [] + [1] == [1];
  }
}
