/**
 * The node of the C++ prefix tree (trie.cpp, class TrieNode) and the shape a tree of such
 * nodes has: one sparse child map per node, keyed by raw characters, an end-of-word flag and
 * an insertion counter. The shape is stated over explicit ghost values, as for the Java tree:
 * `P` maps each path of the tree to its node, `N` is the set of nodes and `F` maps each stored
 * key to its insertion count.
 */
module CppTrieNode {
  import opened WordCounts

  class TrieNode {
    var children: map<char, TrieNode>
    var isEndOfWord: bool
    var frequency: int
    /** The characters on the way from the root to this node. */
    ghost const path: string

    /** `TrieNode()`: no children, not a word end, counter zero. */
    constructor (ghost path: string)
      ensures this.path == path && children == map[] && !isEndOfWord && frequency == 0
    {
      this.path := path;
      children := map[];
      isEndOfWord := false;
      frequency := 0;
    }
  }

  /** Each path's node lies in `N` and knows its own path, so distinct paths have distinct nodes. */
  ghost predicate Owned(root: TrieNode, P: map<string, TrieNode>, N: set<TrieNode>)
  {
    && "" in P && P[""] == root
    && forall p {:trigger P[p]} | p in P :: P[p] in N && P[p].path == p
  }

  /** The entry of `n`'s child map for `c`, or null when it has none. */
  ghost function ChildOf(n: TrieNode, c: char): TrieNode?
    reads n`children
  {
    if c in n.children then n.children[c] else null
  }

  /** The node of `p + [c]`, or null when that path is absent. */
  ghost function Child(P: map<string, TrieNode>, p: string, c: char): TrieNode?
  {
    if p + [c] in P then P[p + [c]] else null
  }

  /** The child map of the node at every path `p` holds exactly the nodes of the paths `p + [c]`. */
  ghost predicate Linked(P: map<string, TrieNode>, N: set<TrieNode>)
    reads N`children
  {
    forall p, c {:trigger ChildOf(P[p], c)} | p in P && P[p] in N :: ChildOf(P[p], c) == Child(P, p, c)
  }

  /** Every node's end-of-word flag and counter agree with the counts `F`. */
  ghost predicate Marked(P: map<string, TrieNode>, F: map<string, nat>, N: set<TrieNode>)
    reads N`isEndOfWord, N`frequency
  {
    forall p {:trigger P[p]} | p in P && P[p] in N :: P[p].isEndOfWord == (p in F) && P[p].frequency == Count(F, p)
  }

  /** The whole shape of a tree holding the counts `F`. */
  ghost predicate Shape(root: TrieNode, P: map<string, TrieNode>, N: set<TrieNode>, F: map<string, nat>)
    reads N
  {
    && Owned(root, P, N)
    && Linked(P, N)
    && Closed(P)
    && Marked(P, F, N)
    && F.Keys <= P.Keys
    && Positive(F)
  }

  /** `Shape`, folded: proofs open it with `Unseal` and close it with `Seal`. */
  ghost predicate Sealed(root: TrieNode, P: map<string, TrieNode>, N: set<TrieNode>, F: map<string, nat>)
    reads N
  {
    forall k: nat {:trigger Hook(k)} :: Hook(k) ==> Shape(root, P, N, F)
  }

  lemma Unseal(root: TrieNode, P: map<string, TrieNode>, N: set<TrieNode>, F: map<string, nat>)
    requires Sealed(root, P, N, F)
    ensures Shape(root, P, N, F)
  {
    assert Hook(0);
  }

  lemma Seal(root: TrieNode, P: map<string, TrieNode>, N: set<TrieNode>, F: map<string, nat>)
    requires Shape(root, P, N, F)
    ensures Sealed(root, P, N, F)
  {
  }

  /** A tree grown by a fresh, unmarked node, already entered in its parent's map, has the whole shape again. */
  lemma Grow(root: TrieNode, P: map<string, TrieNode>, N: set<TrieNode>, F: map<string, nat>,
             key: string, c: char, node: TrieNode)
    requires Owned(root, P, N) && Closed(P) && Marked(P, F, N) && F.Keys <= P.Keys && Positive(F)
    requires key in P && key + [c] !in P
    requires node.path == key + [c] && !node.isEndOfWord && node.frequency == 0
    requires Linked(P[key + [c] := node], N + {node})
    ensures Sealed(root, P[key + [c] := node], N + {node}, F)
  {
    var q := key + [c];
    GrowClosed(P, key, c, node);
    assert q !in F;
    Seal(root, P[q := node], N + {node}, F);
  }

  /**
   * The map write `children[ch] = new TrieNode()`: the fresh node becomes the child of `key`
   * for `c`, and every child map reads as the new paths `P[key + [c] := node]` say.
   */
  method Hang(root: TrieNode, ghost P: map<string, TrieNode>, ghost N: set<TrieNode>,
              parent: TrieNode, ghost key: string, c: char, node: TrieNode)
    requires Owned(root, P, N) && Linked(P, N) && Closed(P)
    requires key in P && P[key] == parent && key + [c] !in P
    requires node !in N && node.children == map[]
    modifies parent`children
    ensures parent.children == old(parent.children)[c := node]
    ensures Linked(P[key + [c] := node], N + {node})
  {
    parent.children := parent.children[c := node];
    ghost var q := key + [c];
    ghost var P' := P[q := node];
    forall p, d | p in P' && P'[p] in N + {node} ensures ChildOf(P'[p], d) == Child(P', p, d) {
      if p == q {
        assert Parent(q + [d]) == q;
      } else if p != key {
        assert P[p].path == p;
        assert old(ChildOf(P[p], d)) == Child(P, p, d);
        assert p + [d] != q by {
          if |p| == |key| {
            assert (p + [d])[..|p|] == p;
            assert q[..|key|] == key;
          }
        }
      } else if d != c {
        assert old(ChildOf(P[p], d)) == Child(P, p, d);
        assert (p + [d])[|p|] != q[|key|];
      }
    }
  }

  /** The marks of the nodes in `M` agree with `F`. */
  ghost predicate MarkedOn(P: map<string, TrieNode>, F: map<string, nat>, M: set<TrieNode>)
    reads M`isEndOfWord, M`frequency
  {
    forall p {:trigger P[p]} | p in P && P[p] in M :: P[p].isEndOfWord == (p in F) && P[p].frequency == Count(F, p)
  }

  /**
   * Before the node of `key` is marked, every other node already agrees with `AddKey(F, key)`,
   * because adding `key` changes the count of no other path.
   */
  lemma MarkedElsewhere(P: map<string, TrieNode>, F: map<string, nat>, N: set<TrieNode>, key: string, current: TrieNode)
    requires Marked(P, F, N) && key in P && P[key] == current
    requires forall p | p in P :: P[p].path == p
    ensures MarkedOn(P, AddKey(F, key), N - {current})
    ensures current in N ==> current.isEndOfWord == (key in F) && current.frequency == Count(F, key)
  {
    AddKeyCounts(F, key);
    forall p | p in P && P[p] in N - {current}
      ensures P[p].isEndOfWord == (p in AddKey(F, key)) && P[p].frequency == Count(AddKey(F, key), p)
    {
      assert P[p].path == p;
    }
  }

  /** Once the node of `key` also agrees with `F`, all nodes do. */
  lemma Remarked(P: map<string, TrieNode>, F: map<string, nat>, N: set<TrieNode>, key: string, current: TrieNode)
    requires MarkedOn(P, F, N - {current}) && key in P && P[key] == current
    requires forall p | p in P :: P[p].path == p
    requires current.isEndOfWord == (key in F) && current.frequency == Count(F, key)
    ensures Marked(P, F, N)
  {
    forall p | p in P && P[p] in N
      ensures P[p].isEndOfWord == (p in F) && P[p].frequency == Count(F, p)
    {
      if p != key {
        assert P[p].path == p;
        assert P[p] in N - {current};
      }
    }
  }
}
