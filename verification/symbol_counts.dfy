/** The symbols carried by a sequence of trees, counted with repetition:
    the bridge between the input `data` array and the printed codes. */
module SymbolCounts {
  import opened Trees

  /** The symbol of `t` when it is a leaf; internal nodes carry none. */
  function SymbolsOf(t: Tree): seq<Symbol>
  {
    if t.Leaf? then [t.data] else []
  }

  /** The symbols of the leaves among `ts`, in order. */
  function LeafSymbols(ts: seq<Tree>): seq<Symbol>
  {
    if |ts| == 0 then [] else SymbolsOf(ts[0]) + LeafSymbols(ts[1..])
  }

  /** A sequence of leaves has one symbol per entry. */
  lemma {:induction false} LeafSymbolsOfLeaves(ts: seq<Tree>)
    requires forall i :: 0 <= i < |ts| ==> IsLeaf(ts[i])
    ensures |LeafSymbols(ts)| == |ts|
    ensures forall i :: 0 <= i < |ts| ==> ts[i].Leaf? && LeafSymbols(ts)[i] == ts[i].data
    decreases |ts|
  {
    if |ts| > 0 {
      LeafSymbolsOfLeaves(ts[1..]);
      assert SymbolsOf(ts[0]) == [ts[0].data];
    }
  }

  /** The symbols of a sequence of trees do not depend on its order. */
  lemma {:induction false} LeafSymbolsPerm(s1: seq<Tree>, s2: seq<Tree>)
    requires multiset(s1) == multiset(s2)
    ensures multiset(LeafSymbols(s1)) == multiset(LeafSymbols(s2))
    decreases |s1|
  {
    if |s1| == 0 {
      assert |s2| == |multiset(s2)| == 0;
    } else {
      var k := PermSplit(s1, s2);
      LeafSymbolsPerm(s1[1..], s2[..k] + s2[k + 1..]);
      LeafSymbolsSplit(s2, k);
    }
  }

  /** Taking the tree at position `k` out of a sequence. */
  lemma {:induction false} LeafSymbolsSplit(s: seq<Tree>, k: nat)
    requires k < |s|
    ensures multiset(LeafSymbols(s)) == multiset(SymbolsOf(s[k])) + multiset(LeafSymbols(s[..k] + s[k + 1..]))
    decreases k
  {
    var rest := s[..k] + s[k + 1..];
    if k == 0 {
      assert rest == s[1..];
    } else {
      LeafSymbolsSplit(s[1..], k - 1);
      assert rest[0] == s[0];
      assert rest[1..] == s[1..][..k - 1] + s[1..][k..];
    }
  }
}
