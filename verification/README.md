# Huffman tree builder, modelled in Dafny

This project models the Huffman coding core of `Compression/Compression.cpp`. That core has three parts:

- an array-backed binary min-heap of tree nodes (`HeapifyMin`, `extractMin`, `InsertMinHeap`, `buildMinHeap`, `constructMinHeap`);
- the greedy tree builder `buildHuffmanTree`, which repeatedly extracts the two lightest nodes, joins them under a new node and inserts that node again;
- the code walk `huffmanPrint`/`HuffmanCodes`, which prints, for every leaf, the path of 0s (left) and 1s (right) leading to it.

Everything is modelled as pure functions over immutable values:

- The heap is `MinHeap(nodes, capacity)`. The source's `size` is the length of `nodes`; the slots of the C array past `size` are never read before they are written, so they are not kept.
- The `while` loops of `InsertMinHeap` and `buildHuffmanTree` and the `for` loop of `buildMinHeap` become recursive functions. Their invariants are the contracts of those functions and of the lemmas about them.
- `huffmanPrint` returns the printed lines as a sequence of `(symbol, code)` entries, in print order.

Modules, one per file:

- `Trees` (`trees.dfy`): the node datatype and facts about leaves and frequencies.
- `SymbolCounts` (`symbol_counts.dfy`): the symbols a sequence of trees carries, counted with repetition.
- `HeapOrder` (`heap_order.dfy`): heap index arithmetic and the heap-order predicates.
- `MinHeaps` (`min_heap.dfy`): the heap operations.
- `Builder` (`builder.dfy`): `buildHuffmanTree`.
- `Codes` (`codes.dfy`): `huffmanPrint` and `HuffmanCodes`.
- `DriverExample` (`example.dfy`): the commented-out driver in `main`, with symbols a–f and frequencies 5, 9, 12, 13, 16, 45. It follows every heap operation of the build down to the printed codes.

The small helpers of the source map one to one:

- `newNode` is `Trees.NewNode`, a fresh leaf.
- `isLeaf` is `Trees.IsLeaf`.
- `isSize` is `MinHeaps.IsSize`.
- The internal node a merge creates (`newNode('$', …)` with both children set) is `Builder.Join`.

The comparisons are modelled exactly as the source writes them, and they make the result deterministic:

- `HeapifyMin` lets a child take over only when it is strictly lighter, so equal frequencies never swap and the left child wins a tie.
- `InsertMinHeap` moves a node up only past strictly heavier parents.
- The first node extracted becomes the left child.

## Model

| member | source | states |
|---|---|---|
| Trees.LeavesOf | Compression/Compression.cpp:193-197 | The leaves the code walk prints at, left subtree first: every one satisfies `isLeaf`, and a tree has exactly one more of them than internal nodes. |
| Trees.RootFreqIsLeafTotal | Compression/Compression.cpp:166-169 | In a tree where every internal node carries the sum of its children's frequencies, the root's frequency is the total of the leaves' frequencies. |
| HeapOrder.HeapRootIsMin | Compression/Compression.cpp:94-96 | In heap order, the root is no heavier than any entry. |
| MinHeaps.Swap | Compression/Compression.cpp:56-61 | The two slots trade contents, every other slot is unchanged, and the multiset of entries is the same. |
| MinHeaps.Smallest | Compression/Compression.cpp:66-77 | The index picked is the parent or one of its children. A child is picked only if strictly lighter than the parent. The parent stays exactly when neither child is strictly lighter. The pick is no heavier than either child. The right child is picked only if strictly lighter than the left. |
| MinHeaps.HeapifyMin | Compression/Compression.cpp:64-83 | Sifting down keeps the length and the multiset of entries, and changes no slot outside the subtree of `index`. |
| MinHeaps.HeapifyMinRestoresOrder | Compression/Compression.cpp:78-82 | Suppose the subtree of `root` is in order except for the edges leaving `index`, and the parent of `index` is no heavier than `index`'s children. Then after sifting down from `index`, the whole subtree of `root` is in heap order. |
| MinHeaps.HeapifyMinMakesHeap | Compression/Compression.cpp:64-83 | If both child subtrees of `index` are heaps, sifting down makes the subtree of `index` a heap. |
| MinHeaps.MoveLastToRoot | Compression/Compression.cpp:96-98 | Slot 0 takes the last entry and every other slot keeps its entry. The size drops by one, and exactly the old root leaves the multiset. |
| MinHeaps.ExtractMin | Compression/Compression.cpp:94-101 | On a non-empty heap, extraction returns the old root, which is no heavier than any entry. It decrements the size and keeps the capacity. The remaining multiset plus the returned node is the old multiset. Heap order is preserved. |
| MinHeaps.SiftUp | Compression/Compression.cpp:108-112 | The loop keeps the length and stops at an ancestor of the slot it starts from. It stops either at the root or below a parent no heavier than the node. |
| MinHeaps.SiftUpOrder | Compression/Compression.cpp:106-113 | Invariant of the sift-up loop: suppose every edge is in order except the one into the current slot, and the slot's parent is no heavier than the slot's children. Then writing the node where the loop stops gives a heap. |
| MinHeaps.SiftUpShape | Compression/Compression.cpp:107-112 | The loop stops at an ancestor of the new slot whose parent is no heavier than the node. Every slot passed on the way holds its old parent, which is strictly heavier than the node. All other slots are unchanged. |
| MinHeaps.InsertMinHeap | Compression/Compression.cpp:104-114 | Insertion needs a free slot. It grows the size by one, keeps the capacity, adds exactly the new node to the multiset and preserves heap order. |
| MinHeaps.InsertMinHeapRises | Compression/Compression.cpp:104-114 | The inserted node ends on the path from the new slot to the root, below the first ancestor that is no heavier than it. Exactly the strictly heavier ancestors move one level down along that path. Every other entry stays in place. |
| MinHeaps.TruncDiv2 | Compression/Compression.cpp:119-121 | Halving as C's `/` does it. For non-negative `x` the remainder `x - 2q` is 0 or 1; for negative `x` it is 0 or -1. So the result is truncated toward zero, and the one-node heap's start index `(0 - 1) / 2` is 0, not -1. |
| MinHeaps.HeapifyDownFrom | Compression/Compression.cpp:120-122 | The `for` loop from `i` down to 0 keeps the multiset and ends in heap order, given that every edge whose parent is past `i` is already in order. |
| MinHeaps.BuildMinHeap | Compression/Compression.cpp:117-123 | Any array becomes a heap of the same size, capacity and multiset, including sizes 0 and 1. |
| MinHeaps.ConstructMinHeap | Compression/Compression.cpp:140-148 | The heap has capacity and size `size`, is in heap order, holds only leaves, and holds exactly one leaf per input `(data, freq)` pair. |
| Builder.Merge | Compression/Compression.cpp:160-171 | One loop turn needs at least two nodes. It shrinks the heap by one, keeps the capacity and preserves heap order. |
| Builder.MergeJoinsTwoLightest | Compression/Compression.cpp:162-170 | On a heap, a turn replaces two nodes `l` and `r` by their join, with `l` as the left child. `l` is no heavier than any node, and `r` is no heavier than any node left once `l` is taken out. |
| Builder.MergeKeepsForest | Compression/Compression.cpp:163-170 | A turn keeps every held subtree well formed: each internal node is the sum of its children, and its left child is no heavier than its right. The turn also keeps the multiset of leaves below the held nodes and their total frequency. |
| Builder.MergeLoop | Compression/Compression.cpp:160-171 | Starting from at least one node, the loop ends with exactly one node without exceeding the capacity. That node is well formed, carries exactly the leaves of the starting heap, and carries their total frequency. |
| Builder.BuildHuffmanTree | Compression/Compression.cpp:152-175 | For at least one symbol, the returned tree is well formed. Its leaves are exactly the input `(data, freq)` pairs. Its root frequency is the sum of the input frequencies. It has `size - 1` internal nodes, one per merge. |
| Codes.HuffmanPrint | Compression/Compression.cpp:179-198 | One line is printed per leaf, in left-to-right leaf order. Each printed code extends the current path by at most the number of internal nodes. |
| Codes.CodesFollowPaths | Compression/Compression.cpp:181-191 | Following a printed code from the root, 0 to the left and 1 to the right, reaches exactly the leaf it was printed for. |
| Codes.CodesInDepthFirstOrder | Compression/Compression.cpp:179-198 | Of any two printed codes, the earlier one branches off to the left of the later one. |
| Codes.CodesArePrefixFree | Compression/Compression.cpp:179-198 | No printed code is a prefix of another. |
| Codes.HuffmanCodes | Compression/Compression.cpp:202-210 | Every input symbol receives a code, and every code belongs to an input symbol. The printed symbols are exactly the input symbols, counted with repetition, so each input pair gets one code. The codes are prefix-free. No code is longer than `size - 1`, so for at most `MAX_TREE_HT` symbols the path buffer is never overrun. A single symbol receives the empty code. |
| DriverExample.ExampleTree | Compression/Compression.cpp:242-245 | For the driver's input the builder returns the tree `f` / ((`c`, `d`), ((`a`, `b`), `e`)), following the tie-breaking of the heap. |
| DriverExample.DriverCodes | Compression/Compression.cpp:242-245 | For the driver's input the codes are f = 0, c = 100, d = 101, a = 1100, b = 1101 and e = 111, in that order. Their weighted length is 224 bits. |

## Left out

- The file and stream I/O (`ReadBytes`, `readFileBytes` and the read loop in `main`, Compression/Compression.cpp:212-257) is not computation and is not modelled.
- The `printf` output of `printArr` and `huffmanPrint` is replaced by the returned list of `(symbol, code)` entries.
- Memory management is not modelled: `malloc` in `newNode` and `newMinHeap`, the missing frees, and pointer aliasing. Trees are immutable values, and `newMinHeap` is folded into `ConstructMinHeap` as the capacity.
- The placeholder character `'$'` stored in internal nodes is never read, so internal nodes carry no symbol.
- Builder.BuildHuffmanTree: frequencies are unbounded naturals. The source's `unsigned` sums can wrap around, and its `int` input frequencies could be negative; neither is modelled.
- Builder.BuildHuffmanTree requires at least one symbol. With none, the source extracts from an empty heap, which is undefined behaviour.
- MinHeaps.ExtractMin requires a non-empty heap and MinHeaps.InsertMinHeap requires a free slot. The source reads or writes out of bounds otherwise. The builder is proved never to violate either requirement.
- Codes.HuffmanCodes does not model overrunning the 100-slot path buffer for trees deeper than `MAX_TREE_HT`. Instead it proves that code lengths stay below `size`.
- A node with exactly one child cannot be built by the source, and the tree datatype excludes it.
- Packing codes into bits, encoding and decoding, and a serialised code table do not exist in the source and are not modelled.
- Optimality of the code is not modelled. The driver example's weighted length of 224 bits is checked concretely.
