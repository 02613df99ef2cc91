/**
 * The nodes of the Java prefix dictionary (trie_autocorrect.java, class TrieNode) and the
 * shape a tree of them keeps: every node has 26 child slots for 'a'..'z', an end-of-word
 * flag and an insertion counter, and sits at the path of letters that leads to it.
 */
module JavaTrieNode {
  import opened Text
  import opened WordCounts

  /** The letter stored in child slot `i`. */
  function Letter(i: int): (c: char)
    requires 0 <= i < 26
    ensures IsLower(c)
  {
    ('a' as int + i) as char
  }

  /** The child slot of a lower-case letter; `Letter` and `Slot` are inverse. */
  function Slot(c: char): (i: int)
    requires IsLower(c)
    ensures 0 <= i < 26 && Letter(i) == c
  {
    c as int - 'a' as int
  }

  class TrieNode {
    const children: array<TrieNode?>
    var isEndOfWord: bool
    var frequency: int
    /** The path from the root to this node; it tells nodes apart in proofs. */
    ghost const path: string

    constructor (ghost path: string)
      ensures this.path == path
      ensures fresh(children) && children.Length == 26
      ensures forall i | 0 <= i < 26 :: children[i] == null
      ensures !isEndOfWord && frequency == 0
    {
      children := new TrieNode?[26](_ => null);
      this.path := path;
      isEndOfWord := false;
      frequency := 0;
    }

    method SetEndOfWord(endOfWord: bool)
      modifies this
      ensures isEndOfWord == endOfWord && frequency == old(frequency)
    {
      isEndOfWord := endOfWord;
    }

    method SetFrequency(frequency: int)
      modifies this
      ensures this.frequency == frequency && isEndOfWord == old(isEndOfWord)
    {
      this.frequency := frequency;
    }

    method IncrementFrequency()
      modifies this
      ensures frequency == old(frequency) + 1 && isEndOfWord == old(isEndOfWord)
    {
      frequency := frequency + 1;
    }
  }

  /**
   * Each node's ownership: it sits at its own path, its 26-slot array belongs to that path
   * alone, and both lie in the footprint sets `N` and `A`.
   */
  ghost predicate Owned(root: TrieNode, P: map<string, TrieNode>, O: map<array<TrieNode?>, string>,
                        N: set<TrieNode>, A: set<array<TrieNode?>>)
  {
    && "" in P && P[""] == root
    && (forall p {:trigger P[p]} | p in P ::
          && P[p] in N && P[p].children in A && P[p].children.Length == 26
          && P[p].path == p
          && P[p].children in O && O[P[p].children] == p)
  }

  /** The node of `p + [Letter(i)]`, or null when that path is absent. */
  ghost function Child(P: map<string, TrieNode>, p: string, i: int): TrieNode?
    requires 0 <= i < 26
  {
    if p + [Letter(i)] in P then P[p + [Letter(i)]] else null
  }

  /** Slot `i` of the node at every path `p` holds the node of `p + [Letter(i)]`. */
  ghost predicate Linked(P: map<string, TrieNode>, A: set<array<TrieNode?>>)
    reads A
  {
    forall p, i {:trigger P[p].children[i]} | p in P && P[p].children in A && 0 <= i < 26 && i < P[p].children.Length ::
      P[p].children[i] == Child(P, p, i)
  }

  /** Every node's end-of-word flag and counter agree with the counts `F`. */
  ghost predicate Marked(P: map<string, TrieNode>, F: map<string, nat>, N: set<TrieNode>)
    reads N
  {
    forall p {:trigger P[p]} | p in P && P[p] in N :: P[p].isEndOfWord == (p in F) && P[p].frequency == Count(F, p)
  }

  /** The whole shape of a tree holding the counts `F`. */
  ghost predicate Shape(root: TrieNode, P: map<string, TrieNode>, O: map<array<TrieNode?>, string>,
                        N: set<TrieNode>, A: set<array<TrieNode?>>, F: map<string, nat>)
    reads N, A
  {
    && Owned(root, P, O, N, A)
    && Linked(P, A)
    && Closed(P)
    && Marked(P, F, N)
    && F.Keys <= P.Keys
    && Positive(F)
  }

  /** `Shape`, folded: proofs open it with `Unseal` and close it with `Seal`. */
  ghost predicate Sealed(root: TrieNode, P: map<string, TrieNode>, O: map<array<TrieNode?>, string>,
                         N: set<TrieNode>, A: set<array<TrieNode?>>, F: map<string, nat>)
    reads N, A
  {
    forall k: nat {:trigger Hook(k)} :: Hook(k) ==> Shape(root, P, O, N, A, F)
  }

  lemma Unseal(root: TrieNode, P: map<string, TrieNode>, O: map<array<TrieNode?>, string>,
               N: set<TrieNode>, A: set<array<TrieNode?>>, F: map<string, nat>)
    requires Sealed(root, P, O, N, A, F)
    ensures Shape(root, P, O, N, A, F)
  {
    assert Hook(0);
  }

  lemma Seal(root: TrieNode, P: map<string, TrieNode>, O: map<array<TrieNode?>, string>,
             N: set<TrieNode>, A: set<array<TrieNode?>>, F: map<string, nat>)
    requires Shape(root, P, O, N, A, F)
    ensures Sealed(root, P, O, N, A, F)
  {
  }

  /** Growing the tree by a fresh node at a fresh path keeps every node's ownership. */
  lemma GrowOwned(root: TrieNode, P: map<string, TrieNode>, O: map<array<TrieNode?>, string>,
                  N: set<TrieNode>, A: set<array<TrieNode?>>, q: string, node: TrieNode)
    requires Owned(root, P, O, N, A) && q != "" && q !in P
    requires node.path == q && node.children.Length == 26 && node.children !in O
    ensures Owned(root, P[q := node], O[node.children := q], N + {node}, A + {node.children})
  {
    var P', O' := P[q := node], O[node.children := q];
    forall p | p in P' ensures P'[p].children in O' && O'[P'[p].children] == p {
      if p != q {
        assert P[p].children in O;
      }
    }
  }

  /** A fresh, unmarked node at a path that is not a stored key keeps the marks right. */
  lemma GrowMarked(P: map<string, TrieNode>, F: map<string, nat>, N: set<TrieNode>, q: string, node: TrieNode)
    requires Marked(P, F, N) && F.Keys <= P.Keys && q !in P
    requires forall p | p in P :: P[p] in N
    requires !node.isEndOfWord && node.frequency == 0
    ensures Marked(P[q := node], F, N + {node})
  {
    assert q !in F;
  }

  /** A tree grown by a fresh, unmarked node, already hung in its slot, has the whole shape again. */
  lemma Grow(root: TrieNode, P: map<string, TrieNode>, O: map<array<TrieNode?>, string>,
             N: set<TrieNode>, A: set<array<TrieNode?>>, F: map<string, nat>, key: string, c: char, node: TrieNode)
    requires Owned(root, P, O, N, A) && Closed(P) && Marked(P, F, N) && F.Keys <= P.Keys && Positive(F)
    requires key in P && key + [c] !in P
    requires node.path == key + [c] && node.children.Length == 26 && node.children !in O
    requires !node.isEndOfWord && node.frequency == 0
    requires Linked(P[key + [c] := node], A + {node.children})
    ensures Sealed(root, P[key + [c] := node], O[node.children := key + [c]], N + {node}, A + {node.children}, F)
  {
    var q := key + [c];
    GrowOwned(root, P, O, N, A, q, node);
    GrowClosed(P, key, c, node);
    GrowMarked(P, F, N, q, node);
    Seal(root, P[q := node], O[node.children := q], N + {node}, A + {node.children}, F);
  }

  /**
   * The slot write `children[index] = new TrieNode()`: the fresh node becomes the child of
   * `key` for `c`, and every slot reads as the new paths `P[key + [c] := node]` say.
   */
  method Hang(root: TrieNode, ghost P: map<string, TrieNode>, ghost O: map<array<TrieNode?>, string>,
              ghost N: set<TrieNode>, ghost A: set<array<TrieNode?>>,
              parent: TrieNode, ghost key: string, c: char, node: TrieNode)
    requires Owned(root, P, O, N, A) && Linked(P, A) && Closed(P)
    requires key in P && P[key] == parent && IsLower(c) && key + [c] !in P
    requires node.children.Length == 26 && node.children !in A
    requires forall i | 0 <= i < 26 :: node.children[i] == null
    modifies parent.children
    ensures Linked(P[key + [c] := node], A + {node.children})
  {
    parent.children[Slot(c)] := node;
    ghost var q := key + [c];
    ghost var P' := P[q := node];
    forall p, i | p in P' && P'[p].children in A + {node.children} && 0 <= i < 26 && i < P'[p].children.Length
      ensures P'[p].children[i] == Child(P', p, i)
    {
      if p == q {
        assert Parent(q + [Letter(i)]) == q;
      } else if p != key {
        assert O[P[p].children] == p;
        assert old(P[p].children[i]) == Child(P, p, i);
        assert p + [Letter(i)] != q by {
          if |p| == |key| {
            assert (p + [Letter(i)])[..|p|] == p;
            assert q[..|key|] == key;
          }
        }
      } else if i != Slot(c) {
        assert old(P[p].children[i]) == Child(P, p, i);
        assert (p + [Letter(i)])[|p|] != q[|key|];
      }
    }
  }

  /** The marks of the nodes in `M` agree with `F`. */
  ghost predicate MarkedOn(P: map<string, TrieNode>, F: map<string, nat>, M: set<TrieNode>)
    reads M
  {
    forall p {:trigger P[p]} | p in P && P[p] in M :: P[p].isEndOfWord == (p in F) && P[p].frequency == Count(F, p)
  }

  /**
   * Before the node of `key` is marked, every other node already agrees with `AddKey(F, key)`,
   * because adding `key` changes the count of no other path.
   */
  lemma MarkedElsewhere(P: map<string, TrieNode>, F: map<string, nat>, N: set<TrieNode>, key: string, current: TrieNode)
    requires Marked(P, F, N) && key in P && P[key] == current
    requires forall p | p in P :: P[p].path == p
    ensures MarkedOn(P, AddKey(F, key), N - {current})
    ensures current in N ==> current.isEndOfWord == (key in F) && current.frequency == Count(F, key)
  {
    AddKeyCounts(F, key);
    forall p | p in P && P[p] in N - {current}
      ensures P[p].isEndOfWord == (p in AddKey(F, key)) && P[p].frequency == Count(AddKey(F, key), p)
    {
      assert P[p].path == p;
    }
  }

  /** Once the node of `key` also agrees with `F`, all nodes do. */
  lemma Remarked(P: map<string, TrieNode>, F: map<string, nat>, N: set<TrieNode>, key: string, current: TrieNode)
    requires MarkedOn(P, F, N - {current}) && key in P && P[key] == current
    requires forall p | p in P :: P[p].path == p
    requires current.isEndOfWord == (key in F) && current.frequency == Count(F, key)
    ensures Marked(P, F, N)
  {
    forall p | p in P && P[p] in N
      ensures P[p].isEndOfWord == (p in F) && P[p].frequency == Count(F, p)
    {
      if p != key {
        assert P[p].path == p;
        assert P[p] in N - {current};
      }
    }
  }
}
