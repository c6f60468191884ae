/** Code derivation: `huffmanPrint` walks the tree depth first, recording 0
    for every step to a left child and 1 for every step to a right child, and
    emits the recorded path at each leaf. Here the emitted lines are returned
    as a sequence of `(symbol, code)` entries in the order they are printed. */
module Codes {
  import opened Trees
  import opened Builder
  import opened SymbolCounts
  import MinHeaps

  /** The source keeps the path in an `int` array holding only 0 and 1. */
  type Bit = b: int | 0 <= b <= 1

  /** The size of the path buffer `arr` in `HuffmanCodes`. */
  const MAX_TREE_HT: nat := 100

  /** One printed line: a symbol and its code. */
  datatype CodeEntry = CodeEntry(symbol: Symbol, code: seq<Bit>)

  datatype Option<T> = None | Some(value: T)

  /** `huffmanPrint(root, arr, top)` with `arr[0..top)` given as `path`. */
  function HuffmanPrint(t: Tree, path: seq<Bit>): (codes: seq<CodeEntry>)
    ensures |codes| == |LeavesOf(t)|
    ensures forall i :: 0 <= i < |codes| ==> codes[i].symbol == LeavesOf(t)[i].data
    ensures forall i :: 0 <= i < |codes| ==> path <= codes[i].code
    ensures forall i :: 0 <= i < |codes| ==> |codes[i].code| <= |path| + InternalCount(t)
  {
    match t
    case Leaf(d, _) => [CodeEntry(d, path)]
    case Node(_, l, r) => HuffmanPrint(l, path + [0]) + HuffmanPrint(r, path + [1])
  }

  /** The node reached by following `code` down from `t` (0 = left,
      1 = right); `None` when the code asks to descend below a leaf. */
  function Descend(t: Tree, code: seq<Bit>): Option<Tree>
    decreases |code|
  {
    if |code| == 0 then Some(t)
    else match t
      case Leaf(_, _) => None
      case Node(_, l, r) => Descend(if code[0] == 0 then l else r, code[1..])
  }

  /** Code `a` branches off to the left of code `b`: they agree up to some
      position where `a` goes left and `b` goes right. */
  predicate BranchesLeftOf(a: seq<Bit>, b: seq<Bit>)
  {
    exists k :: 0 <= k < |a| && k < |b| && a[..k] == b[..k] && a[k] == 0 && b[k] == 1
  }

  /** Neither code is a prefix of the other. */
  predicate PrefixFree(codes: seq<CodeEntry>)
  {
    forall i, j :: 0 <= i < |codes| && 0 <= j < |codes| && i != j ==> !(codes[i].code <= codes[j].code)
  }

  /** Each emitted code is the root-to-leaf path of the leaf it is printed
      for: following it from the root reaches exactly that leaf. */
  lemma {:induction false} CodesFollowPaths(t: Tree, path: seq<Bit>)
    ensures forall i :: 0 <= i < |HuffmanPrint(t, path)| ==>
      && |path| <= |HuffmanPrint(t, path)[i].code|
      && Descend(t, HuffmanPrint(t, path)[i].code[|path|..]) == Some(LeavesOf(t)[i])
  {
    var codes := HuffmanPrint(t, path);
    match t
    case Leaf(_, _) =>
    case Node(_, l, r) =>
      var left := HuffmanPrint(l, path + [0]);
      var right := HuffmanPrint(r, path + [1]);
      CodesFollowPaths(l, path + [0]);
      CodesFollowPaths(r, path + [1]);
      forall i | 0 <= i < |codes|
        ensures |path| <= |codes[i].code|
        ensures Descend(t, codes[i].code[|path|..]) == Some(LeavesOf(t)[i])
      {
        var c := codes[i].code;
        if i < |left| {
          assert c == left[i].code;
          assert path + [0] <= c;
          assert c[|path|..][1..] == c[|path| + 1..];
          assert c[|path|..][0] == 0;
        } else {
          assert c == right[i - |left|].code;
          assert path + [1] <= c;
          assert c[|path|..][1..] == c[|path| + 1..];
          assert c[|path|..][0] == 1;
        }
      }
  }

  /** Codes are emitted in left-first depth-first order: every code printed
      earlier branches off to the left of every code printed later. */
  lemma {:induction false} CodesInDepthFirstOrder(t: Tree, path: seq<Bit>)
    ensures forall i, j :: 0 <= i < j < |HuffmanPrint(t, path)| ==>
      BranchesLeftOf(HuffmanPrint(t, path)[i].code, HuffmanPrint(t, path)[j].code)
  {
    var codes := HuffmanPrint(t, path);
    match t
    case Leaf(_, _) =>
    case Node(_, l, r) =>
      var left := HuffmanPrint(l, path + [0]);
      var right := HuffmanPrint(r, path + [1]);
      CodesInDepthFirstOrder(l, path + [0]);
      CodesInDepthFirstOrder(r, path + [1]);
      forall i, j | 0 <= i < j < |codes|
        ensures BranchesLeftOf(codes[i].code, codes[j].code)
      {
        if j < |left| {
          assert codes[i] == left[i] && codes[j] == left[j];
        } else if |left| <= i {
          assert codes[i] == right[i - |left|] && codes[j] == right[j - |left|];
        } else {
          var a := codes[i].code;
          var b := codes[j].code;
          assert a == left[i].code && b == right[j - |left|].code;
          assert path + [0] <= a && path + [1] <= b;
          var k := |path|;
          assert a[..k] == path == b[..k];
          assert a[k] == 0 && b[k] == 1;
        }
      }
  }

  /** Branching apart rules out being a prefix, in either direction. */
  lemma BranchingIsNotPrefix(a: seq<Bit>, b: seq<Bit>)
    requires BranchesLeftOf(a, b)
    ensures !(a <= b) && !(b <= a)
  {
    var k :| 0 <= k < |a| && k < |b| && a[..k] == b[..k] && a[k] == 0 && b[k] == 1;
  }

  /** The codes of any tree are pairwise prefix-free. */
  lemma {:induction false} CodesArePrefixFree(t: Tree, path: seq<Bit>)
    ensures PrefixFree(HuffmanPrint(t, path))
  {
    var codes := HuffmanPrint(t, path);
    CodesInDepthFirstOrder(t, path);
    forall i, j | 0 <= i < |codes| && 0 <= j < |codes| && i != j
      ensures !(codes[i].code <= codes[j].code)
    {
      if i < j {
        BranchingIsNotPrefix(codes[i].code, codes[j].code);
      } else {
        BranchingIsNotPrefix(codes[j].code, codes[i].code);
      }
    }
  }

  /** The printed symbols, in print order. */
  function CodeSymbols(codes: seq<CodeEntry>): seq<Symbol>
  {
    seq(|codes|, i requires 0 <= i < |codes| => codes[i].symbol)
  }

  /** `HuffmanCodes`: build the tree and list every symbol's code. Each
      input pair gets exactly one code, the codes are prefix-free, and no code
      is longer than `size - 1`, so for at most `MAX_TREE_HT` symbols the
      path buffer is never overrun. A one-symbol alphabet gets the empty
      code. */
  function HuffmanCodes(data: seq<Symbol>, freq: seq<nat>): (codes: seq<CodeEntry>)
    requires |data| == |freq| && |data| >= 1
    ensures |codes| == |data|
    ensures forall i :: 0 <= i < |codes| ==> codes[i].symbol in data
    ensures forall j :: 0 <= j < |data| ==> exists i :: 0 <= i < |codes| && codes[i].symbol == data[j]
    ensures PrefixFree(codes)
    ensures forall i :: 0 <= i < |codes| ==> |codes[i].code| <= |data| - 1
    ensures |data| <= MAX_TREE_HT ==> forall i :: 0 <= i < |codes| ==> |codes[i].code| < MAX_TREE_HT
    ensures |data| == 1 ==> codes == [CodeEntry(data[0], [])]
    ensures multiset(CodeSymbols(codes)) == multiset(data)
  {
    var codes := HuffmanPrint(BuildHuffmanTree(data, freq), []);
    HuffmanCodesFacts(data, freq, codes);
    codes
  }

  lemma HuffmanCodesFacts(data: seq<Symbol>, freq: seq<nat>, codes: seq<CodeEntry>)
    requires |data| == |freq| && |data| >= 1
    requires codes == HuffmanPrint(BuildHuffmanTree(data, freq), [])
    ensures |codes| == |data|
    ensures forall i :: 0 <= i < |codes| ==> codes[i].symbol in data
    ensures forall j :: 0 <= j < |data| ==> exists i :: 0 <= i < |codes| && codes[i].symbol == data[j]
    ensures PrefixFree(codes)
    ensures forall i :: 0 <= i < |codes| ==> |codes[i].code| <= |data| - 1
    ensures |data| <= MAX_TREE_HT ==> forall i :: 0 <= i < |codes| ==> |codes[i].code| < MAX_TREE_HT
    ensures |data| == 1 ==> codes == [CodeEntry(data[0], [])]
    ensures multiset(CodeSymbols(codes)) == multiset(data)
  {
    var root := BuildHuffmanTree(data, freq);
    CodesArePrefixFree(root, []);
    HuffmanCodesCoverInput(data, freq, root, codes);
    CodeSymbolsAreInput(data, freq, root, codes);
  }

  /** Each input pair contributes exactly one printed symbol: the printed
      symbols are the input symbols, counted with repetition. */
  lemma CodeSymbolsAreInput(data: seq<Symbol>, freq: seq<nat>, root: Tree, codes: seq<CodeEntry>)
    requires |data| == |freq|
    requires multiset(LeavesOf(root)) == multiset(MinHeaps.InitialLeaves(data, freq))
    requires codes == HuffmanPrint(root, [])
    ensures multiset(CodeSymbols(codes)) == multiset(data)
  {
    PrintedSymbolsAreLeafSymbols(root, codes);
    LeafSymbolsPerm(LeavesOf(root), MinHeaps.InitialLeaves(data, freq));
    InitialLeafSymbols(data, freq);
  }

  lemma PrintedSymbolsAreLeafSymbols(root: Tree, codes: seq<CodeEntry>)
    requires codes == HuffmanPrint(root, [])
    ensures CodeSymbols(codes) == LeafSymbols(LeavesOf(root))
  {
    LeafSymbolsOfLeaves(LeavesOf(root));
  }

  lemma InitialLeafSymbols(data: seq<Symbol>, freq: seq<nat>)
    requires |data| == |freq|
    ensures LeafSymbols(MinHeaps.InitialLeaves(data, freq)) == data
  {
    LeafSymbolsOfLeaves(MinHeaps.InitialLeaves(data, freq));
  }

  lemma HuffmanCodesCoverInput(data: seq<Symbol>, freq: seq<nat>, root: Tree, codes: seq<CodeEntry>)
    requires |data| == |freq|
    requires multiset(LeavesOf(root)) == multiset(MinHeaps.InitialLeaves(data, freq))
    requires codes == HuffmanPrint(root, [])
    ensures forall i :: 0 <= i < |codes| ==> codes[i].symbol in data
    ensures forall j :: 0 <= j < |data| ==> exists i :: 0 <= i < |codes| && codes[i].symbol == data[j]
    ensures |data| == 1 ==> codes == [CodeEntry(data[0], [])]
  {
    forall i | 0 <= i < |codes|
      ensures codes[i].symbol in data
    {
      CodeSymbolFromInput(data, freq, LeavesOf(root), i);
    }
    forall j | 0 <= j < |data|
      ensures exists i :: 0 <= i < |codes| && codes[i].symbol == data[j]
    {
      var i := InputSymbolCoded(data, freq, LeavesOf(root), j);
      assert codes[i].symbol == data[j];
    }
    if |data| == 1 {
      SingleSymbolTree(data, freq, root);
    }
  }

  lemma CodeSymbolFromInput(data: seq<Symbol>, freq: seq<nat>, leaves: seq<Tree>, i: nat)
    requires |data| == |freq|
    requires multiset(leaves) == multiset(MinHeaps.InitialLeaves(data, freq))
    requires i < |leaves|
    ensures leaves[i].Leaf? && leaves[i].data in data
  {
    var init := MinHeaps.InitialLeaves(data, freq);
    assert leaves[i] in multiset(init);
    var j :| 0 <= j < |init| && init[j] == leaves[i];
  }

  lemma InputSymbolCoded(data: seq<Symbol>, freq: seq<nat>, leaves: seq<Tree>, j: nat) returns (i: nat)
    requires |data| == |freq|
    requires multiset(leaves) == multiset(MinHeaps.InitialLeaves(data, freq))
    requires j < |data|
    ensures i < |leaves| && leaves[i] == Leaf(data[j], freq[j])
  {
    var init := MinHeaps.InitialLeaves(data, freq);
    assert init[j] in multiset(leaves);
    i :| 0 <= i < |leaves| && leaves[i] == init[j];
  }

  lemma SingleSymbolTree(data: seq<Symbol>, freq: seq<nat>, root: Tree)
    requires |data| == |freq| == 1
    requires multiset(LeavesOf(root)) == multiset(MinHeaps.InitialLeaves(data, freq))
    ensures HuffmanPrint(root, []) == [CodeEntry(data[0], [])]
  {
    var leaves := LeavesOf(root);
    var init := MinHeaps.InitialLeaves(data, freq);
    assert |leaves| == |multiset(leaves)| == |multiset(init)| == 1;
    assert root.Leaf?;
    assert leaves == [root];
    assert root in multiset(init);
    assert init == [Leaf(data[0], freq[0])];
  }

  /** Total number of bits the codes spend on the input: each leaf's
      frequency times the length of its code. */
  function WeightedLength(leaves: seq<Tree>, codes: seq<CodeEntry>): nat
    requires |leaves| == |codes|
  {
    if |leaves| == 0 then 0
    else leaves[0].freq * |codes[0].code| + WeightedLength(leaves[1..], codes[1..])
  }
}
