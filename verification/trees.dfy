/** Nodes of the Huffman tree (`struct MinHeapNode`) and the structural facts
    about them that the builder and the code walk rely on. */
module Trees {

  /** A symbol of the alphabet; the source keeps it in a C `char` and never
      does arithmetic on it. */
  type Symbol = char

  /** A `Leaf` is a node whose two child pointers are null; a `Node` is the
      internal node a merge creates, which owns both of its children. The
      source stores the placeholder character '$' in internal nodes; it is
      never read, so `Node` carries no symbol. */
  datatype Tree =
    | Leaf(data: Symbol, freq: nat)
    | Node(freq: nat, left: Tree, right: Tree)

  /** `newNode`: a fresh node with both children null. */
  function NewNode(data: Symbol, freq: nat): Tree
  {
    Leaf(data, freq)
  }

  /** `isLeaf`: neither child pointer is set. */
  predicate IsLeaf(t: Tree)
  {
    t.Leaf?
  }

  /** Number of internal nodes, i.e. of merges that produced `t`. */
  function InternalCount(t: Tree): nat
  {
    match t
    case Leaf(_, _) => 0
    case Node(_, l, r) => 1 + InternalCount(l) + InternalCount(r)
  }

  /** The leaves of `t`, left subtree first. A tree in which every internal
      node has two children has exactly one more leaf than internal nodes. */
  function LeavesOf(t: Tree): (leaves: seq<Tree>)
    ensures |leaves| == InternalCount(t) + 1
    ensures forall i :: 0 <= i < |leaves| ==> IsLeaf(leaves[i])
  {
    match t
    case Leaf(_, _) => [t]
    case Node(_, l, r) => LeavesOf(l) + LeavesOf(r)
  }

  /** Every internal node carries the sum of its children's frequencies, and
      its left child (extracted first) is no heavier than its right child. */
  predicate WellFormed(t: Tree)
  {
    match t
    case Leaf(_, _) => true
    case Node(f, l, r) =>
      && f == l.freq + r.freq
      && l.freq <= r.freq
      && WellFormed(l)
      && WellFormed(r)
  }

  /** Sum of a sequence of input frequencies. */
  function Sum(freq: seq<nat>): nat
  {
    if |freq| == 0 then 0 else freq[0] + Sum(freq[1..])
  }

  /** Sum of the frequencies stored at the roots of `ts`. */
  function SumFreq(ts: seq<Tree>): nat
  {
    if |ts| == 0 then 0 else ts[0].freq + SumFreq(ts[1..])
  }

  /** All leaves of a forest, tree by tree. */
  function Flatten(ts: seq<Tree>): seq<Tree>
  {
    if |ts| == 0 then [] else LeavesOf(ts[0]) + Flatten(ts[1..])
  }

  lemma {:induction false} SumFreqAppend(a: seq<Tree>, b: seq<Tree>)
    ensures SumFreq(a + b) == SumFreq(a) + SumFreq(b)
    decreases |a|
  {
    if |a| == 0 {
      assert a + b == b;
    } else {
      assert (a + b)[1..] == a[1..] + b;
      SumFreqAppend(a[1..], b);
    }
  }

  lemma {:induction false} FlattenAppend(a: seq<Tree>, b: seq<Tree>)
    ensures Flatten(a + b) == Flatten(a) + Flatten(b)
    decreases |a|
  {
    if |a| == 0 {
      assert a + b == b;
    } else {
      assert (a + b)[1..] == a[1..] + b;
      FlattenAppend(a[1..], b);
    }
  }

  lemma FlattenSnoc(s: seq<Tree>, t: Tree)
    ensures multiset(Flatten(s + [t])) == multiset(Flatten(s)) + multiset(LeavesOf(t))
  {
    FlattenAppend(s, [t]);
  }

  lemma FlattenSnoc2(s: seq<Tree>, l: Tree, r: Tree)
    ensures multiset(Flatten(s + [l, r])) == multiset(Flatten(s)) + multiset(LeavesOf(l)) + multiset(LeavesOf(r))
  {
    assert s + [l, r] == (s + [l]) + [r];
    FlattenSnoc(s + [l], r);
    FlattenSnoc(s, l);
  }

  lemma SumFreqSnoc2(s: seq<Tree>, l: Tree, r: Tree)
    ensures SumFreq(s + [l, r]) == SumFreq(s) + l.freq + r.freq
  {
    assert s + [l, r] == (s + [l]) + [r];
    SumFreqAppend(s + [l], [r]);
    SumFreqAppend(s, [l]);
  }

  lemma Cancel<T>(a: multiset<T>, b: multiset<T>, m: multiset<T>)
    requires a + m == b + m
    ensures a == b
  {
    assert a == a + m - m;
    assert b == b + m - m;
  }

  /** In a well-formed tree the root frequency is the total of its leaves'. */
  lemma {:induction false} RootFreqIsLeafTotal(t: Tree)
    requires WellFormed(t)
    ensures t.freq == SumFreq(LeavesOf(t))
  {
    match t
    case Leaf(_, _) =>
    case Node(_, l, r) =>
      RootFreqIsLeafTotal(l);
      RootFreqIsLeafTotal(r);
      SumFreqAppend(LeavesOf(l), LeavesOf(r));
  }

  /** A forest of bare leaves flattens to itself. */
  lemma {:induction false} FlattenOfLeaves(ts: seq<Tree>)
    requires forall i :: 0 <= i < |ts| ==> IsLeaf(ts[i])
    ensures Flatten(ts) == ts
    decreases |ts|
  {
    if |ts| > 0 {
      FlattenOfLeaves(ts[1..]);
    }
  }

  /** Removing the first element of `s1` from a permutation `s2` of it. */
  lemma PermSplit(s1: seq<Tree>, s2: seq<Tree>) returns (k: nat)
    requires multiset(s1) == multiset(s2)
    requires |s1| > 0
    ensures k < |s2| && s2[k] == s1[0]
    ensures s2 == s2[..k] + [s2[k]] + s2[k + 1..]
    ensures multiset(s1[1..]) == multiset(s2[..k] + s2[k + 1..])
  {
    assert s1[0] in multiset(s2);
    k :| 0 <= k < |s2| && s2[k] == s1[0];
    assert s2 == s2[..k] + [s2[k]] + s2[k + 1..];
    assert s1 == [s1[0]] + s1[1..];
    calc {
      multiset(s1[1..]) + multiset{s1[0]};
      multiset(s1);
      multiset(s2[..k]) + multiset{s2[k]} + multiset(s2[k + 1..]);
      multiset(s2[..k] + s2[k + 1..]) + multiset{s1[0]};
    }
    assert multiset(s1[1..]) == multiset(s1[1..]) + multiset{s1[0]} - multiset{s1[0]};
    assert multiset(s2[..k] + s2[k + 1..])
        == multiset(s2[..k] + s2[k + 1..]) + multiset{s1[0]} - multiset{s1[0]};
  }

  /** The leaves of a forest do not depend on the order of its trees. */
  lemma {:induction false} FlattenPerm(s1: seq<Tree>, s2: seq<Tree>)
    requires multiset(s1) == multiset(s2)
    ensures multiset(Flatten(s1)) == multiset(Flatten(s2))
    decreases |s1|
  {
    if |s1| == 0 {
      assert |s2| == |multiset(s2)| == 0;
    } else {
      var k := PermSplit(s1, s2);
      FlattenPerm(s1[1..], s2[..k] + s2[k + 1..]);
      FlattenSplit(s2, k);
    }
  }

  /** Taking the tree at position `k` out of a forest. */
  lemma {:induction false} FlattenSplit(s: seq<Tree>, k: nat)
    requires k < |s|
    ensures multiset(Flatten(s)) == multiset(LeavesOf(s[k])) + multiset(Flatten(s[..k] + s[k + 1..]))
    decreases k
  {
    var rest := s[..k] + s[k + 1..];
    if k == 0 {
      assert rest == s[1..];
    } else {
      FlattenSplit(s[1..], k - 1);
      assert rest[0] == s[0];
      assert rest[1..] == s[1..][..k - 1] + s[1..][k..];
    }
  }

  /** Nor does their total frequency. */
  lemma {:induction false} SumFreqPerm(s1: seq<Tree>, s2: seq<Tree>)
    requires multiset(s1) == multiset(s2)
    ensures SumFreq(s1) == SumFreq(s2)
    decreases |s1|
  {
    if |s1| == 0 {
      assert |s2| == |multiset(s2)| == 0;
    } else {
      var k := PermSplit(s1, s2);
      SumFreqPerm(s1[1..], s2[..k] + s2[k + 1..]);
      SumFreqSplit(s2, k);
    }
  }

  lemma {:induction false} SumFreqSplit(s: seq<Tree>, k: nat)
    requires k < |s|
    ensures SumFreq(s) == s[k].freq + SumFreq(s[..k] + s[k + 1..])
    decreases k
  {
    var rest := s[..k] + s[k + 1..];
    if k == 0 {
      assert rest == s[1..];
    } else {
      SumFreqSplit(s[1..], k - 1);
      assert rest[0] == s[0];
      assert rest[1..] == s[1..][..k - 1] + s[1..][k..];
    }
  }
}
