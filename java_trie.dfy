/**
 * The Java prefix dictionary (trie_autocorrect.java, class Trie). Words are lower-cased and
 * stripped of non-letters before they touch the tree.
 */
module JavaTrie {
  import opened Text
  import opened WordCounts
  import opened JavaTrieNode

  /** The dictionary after `insert(word)`: an empty word changes nothing, any other adds one to its key. */
  function AddWord(F: map<string, nat>, word: string): (r: map<string, nat>)
    ensures word == "" ==> r == F
    ensures word != "" ==> Count(r, Normalize(word)) == Count(F, Normalize(word)) + 1
    ensures forall k | k != Normalize(word) :: Count(r, k) == Count(F, k)
  {
    if word == "" then F else AddKey(F, Normalize(word))
  }

  /** `search`'s answer on the abstract dictionary. */
  predicate Contains(F: map<string, nat>, word: string)
  {
    word != "" && Normalize(word) in F
  }

  /**
   * `startsWith`'s answer on the abstract dictionary: the prefix is non-empty and its key
   * begins some stored key. A prefix without letters has the empty key, which begins every key
   * and is the root's path even when nothing is stored.
   */
  ghost predicate HasPrefix(F: map<string, nat>, prefix: string)
  {
    prefix != "" && Normalize(prefix) in Closure(F.Keys)
  }

  /** `insert` stores nothing but keys. */
  lemma AddWordKeys(F: map<string, nat>, word: string)
    requires forall k | k in F :: IsKey(k)
    ensures forall k | k in AddWord(F, word) :: IsKey(k)
  {
    if word != "" {
      AddKeyCounts(F, Normalize(word));
    }
  }

  /** After `insert(w)` with `w` non-empty, `search` finds `w` and every word with the same key. */
  lemma InsertThenSearch(F: map<string, nat>, w: string, v: string)
    requires w != "" && v != "" && Normalize(v) == Normalize(w)
    ensures Contains(AddWord(F, w), v) && HasPrefix(AddWord(F, w), v)
  {
    SearchThenStartsWith(AddWord(F, w), v);
  }

  /** Insert and lookup share the key: after `insert("a1B")`, `search("ab")` holds. */
  lemma InsertMixedThenSearch(F: map<string, nat>)
    ensures Contains(AddWord(F, "a1B"), "ab")
  {
    NormalizeExample();
    NormalizeIdempotent("a1B");
  }

  /** `insert` loses nothing: every word and every prefix found before is found after. */
  lemma InsertKeeps(F: map<string, nat>, w: string, v: string)
    ensures Contains(F, v) ==> Contains(AddWord(F, w), v)
    ensures HasPrefix(F, v) ==> HasPrefix(AddWord(F, w), v)
  {
    if w != "" {
      ClosureAdd(F.Keys, Normalize(w));
      AddKeyCounts(F, Normalize(w));
    }
  }

  /** A word that `search` finds is also a prefix that `startsWith` finds. */
  lemma SearchThenStartsWith(F: map<string, nat>, w: string)
    ensures Contains(F, w) ==> HasPrefix(F, w)
  {
    ClosureMember(F.Keys, Normalize(w));
  }

  class Trie {
    const root: TrieNode
    var wordCount: int

    /** Abstract view: each stored key with its insertion count. */
    ghost var Freq: map<string, nat>
    /** Each path present in the tree, with the node it leads to. */
    ghost var paths: map<string, TrieNode>
    /** The path each child array belongs to; it keeps the arrays pairwise distinct. */
    ghost var owner: map<array<TrieNode?>, string>
    /** The nodes and the child arrays of the tree. */
    ghost var Nodes: set<TrieNode>
    ghost var Arrays: set<array<TrieNode?>>

    /** The tree is well formed and its marks agree with `Freq`. */
    ghost predicate Shaped()
      reads this, Nodes, Arrays
    {
      Sealed(root, paths, owner, Nodes, Arrays, Freq) && wordCount == |Freq|
    }

    /**
     * Besides, the tree has no dead ends: its paths are exactly the prefixes of the stored keys,
     * which consist of lower-case letters only.
     */
    ghost predicate Valid()
      reads this, Nodes, Arrays
    {
      Shaped() && paths.Keys == Closure(Freq.Keys) && forall k | k in Freq :: IsKey(k)
    }

    constructor ()
      ensures Valid() && fresh(Nodes) && fresh(Arrays)
      ensures Freq == map[] && wordCount == 0
    {
      var r := new TrieNode("");
      root := r;
      wordCount := 0;
      Freq := map[];
      paths := map["" := r];
      owner := map[r.children := ""];
      Nodes, Arrays := {r}, {r.children};
      new;
      assert Linked(paths, Arrays) by {
        forall i | 0 <= i < 26 ensures Child(paths, "", i) == null {
          assert [Letter(i)] != "";
        }
      }
      assert Closure({}) == {""};
      Seal(root, paths, owner, Nodes, Arrays, Freq);
    }

    /**
     * `insert(word)`: walks the lower-cased word, skipping every character outside 'a'..'z',
     * creating missing nodes, then marks the last node and counts the insertion.
     */
    method Insert(word: string)
      requires Valid()
      modifies this, Nodes, Arrays
      ensures Valid()
      ensures (forall n | n in Nodes :: n in old(Nodes) || fresh(n)) && (forall a | a in Arrays :: a in old(Arrays) || fresh(a))
      ensures Freq == AddWord(old(Freq), word)
      ensures wordCount == old(wordCount) + (if word != "" && Normalize(word) !in old(Freq) then 1 else 0)
      ensures old(paths.Keys) <= paths.Keys
    {
      if word == "" {
        return;
      }
      var w := LowerStr(word);
      var current;
      ghost var key;
      current, key := Descend(w);
      PathsClosed();
      GrownPaths(old(paths.Keys), paths, key);
      Record(current, key);
      AddKeyCounts(old(Freq), key);
      ClosureAdd(old(Freq.Keys), key);
      AddWordKeys(old(Freq), word);
    }

    /**
     * The walk of `insert`: follows the letters of `w`, skipping every other character, and
     * hangs a new node wherever the child is missing; it ends at the node of `Letters(w)`,
     * and every path it adds is a prefix of that key.
     */
    method Descend(w: string) returns (current: TrieNode, ghost key: string)
      requires Shaped()
      modifies this`paths, this`owner, this`Nodes, this`Arrays, Arrays
      ensures Shaped() && key == Letters(w) && key in paths && paths[key] == current && current in Nodes
      ensures old(paths.Keys) <= paths.Keys && forall p | p in paths :: p in old(paths) || p <= key
      ensures (forall n | n in Nodes :: n in old(Nodes) || fresh(n)) && (forall a | a in Arrays :: a in old(Arrays) || fresh(a))
    {
      current := root;
      key := [];
      RootAt();
      for i := 0 to |w|
        invariant Shaped() && key in paths && paths[key] == current && current in Nodes && current.children in Arrays
        invariant key == Letters(w[..i])
        invariant old(paths.Keys) <= paths.Keys && forall p | p in paths :: p in old(paths) || p <= key
        invariant (forall n | n in Nodes :: n in old(Nodes) || fresh(n)) && (forall a | a in Arrays :: a in old(Arrays) || fresh(a))
      {
        var c := w[i];
        LettersSnoc(w, i);
        if c < 'a' || c > 'z' {
          continue;
        }
        current := Step(current, key, c);
        key := key + [c];
      }
      assert w[..|w|] == w;
    }

    /** One letter of the walk: follows the child for `c`, creating it when it is missing. */
    method Step(current: TrieNode, ghost key: string, c: char) returns (next: TrieNode)
      requires Shaped() && key in paths && paths[key] == current && IsLower(c)
      modifies this`paths, this`owner, this`Nodes, this`Arrays, current.children
      ensures Shaped() && key + [c] in paths && paths[key + [c]] == next && next in Nodes && next.children in Arrays
      ensures old(paths.Keys) <= paths.Keys && forall p | p in paths :: p in old(paths) || p == key + [c]
      ensures (forall n | n in Nodes :: n in old(Nodes) || fresh(n)) && (forall a | a in Arrays :: a in old(Arrays) || fresh(a))
    {
      var index := c as int - 'a' as int;
      assert Letter(index) == c;
      Unseal(root, paths, owner, Nodes, Arrays, Freq);
      if current.children[index] == null {
        next := AddChild(current, key, c);
      } else {
        assert current.children[index] == Child(paths, key, index);
        next := current.children[index];
      }
    }

    /**
     * The tail of `insert`: marks the node of `key` as a word end and counts the insertion,
     * keeping the tree's shape.
     */
    method Record(current: TrieNode, ghost key: string)
      requires Shaped() && key in paths && paths[key] == current
      modifies this`wordCount, this`Freq, current
      ensures Shaped()
      ensures Freq == AddKey(old(Freq), key)
      ensures wordCount == old(wordCount) + (if key in old(Freq) then 0 else 1)
    {
      Unseal(root, paths, owner, Nodes, Arrays, Freq);
      Tally(current, key);
      Seal(root, paths, owner, Nodes, Arrays, Freq);
    }

    /**
     * The bookkeeping that ends `insert`: the node of `key` now records one more insertion of
     * `key`, and the counts of every other path stay as they were.
     */
    method Tally(current: TrieNode, ghost key: string)
      requires Marked(paths, Freq, Nodes) && Freq.Keys <= paths.Keys && Positive(Freq) && wordCount == |Freq|
      requires key in paths && paths[key] == current && current in Nodes && current.path == key
      requires forall p | p in paths :: paths[p].path == p
      modifies this`wordCount, this`Freq, current
      ensures Marked(paths, Freq, Nodes) && Freq.Keys <= paths.Keys && Positive(Freq) && wordCount == |Freq|
      ensures Freq == AddKey(old(Freq), key)
      ensures wordCount == old(wordCount) + (if key in old(Freq) then 0 else 1)
    {
      ghost var F0, P, N := Freq, paths, Nodes;
      MarkedElsewhere(P, F0, N, key, current);
      AddKeyPositive(F0, P.Keys, key);
      MarkEnd(current);
      Freq := AddKey(F0, key);
      Remarked(P, Freq, N, key, current);
    }

    /**
     * The statements that end `insert`: a node reached for the first time becomes a word end
     * and adds one to `wordCount`; its counter goes up in every case.
     */
    method MarkEnd(current: TrieNode)
      modifies this`wordCount, current
      ensures current.isEndOfWord && current.frequency == old(current.frequency) + 1
      ensures wordCount == old(wordCount) + (if old(current.isEndOfWord) then 0 else 1)
    {
      if !current.isEndOfWord {
        current.SetEndOfWord(true);
        wordCount := wordCount + 1;
      }
      current.IncrementFrequency();
    }

    /** The root sits at the empty path. */
    lemma RootAt()
      requires Shaped()
      ensures "" in paths && paths[""] == root && root in Nodes && root.children in Arrays
    {
      Unseal(root, paths, owner, Nodes, Arrays, Freq);
    }

    /** The parent of every path of the tree is a path of the tree. */
    lemma PathsClosed()
      requires Shaped()
      ensures Closed(paths)
    {
      Unseal(root, paths, owner, Nodes, Arrays, Freq);
    }

    /** Records a new node at path `q` in the ghost view of the tree. */
    ghost method Register(node: TrieNode, q: string)
      modifies this`paths, this`owner, this`Nodes, this`Arrays
      ensures paths == old(paths)[q := node] && owner == old(owner)[node.children := q]
      ensures Nodes == old(Nodes) + {node} && Arrays == old(Arrays) + {node.children}
    {
      paths := paths[q := node];
      owner := owner[node.children := q];
      Nodes, Arrays := Nodes + {node}, Arrays + {node.children};
    }

    /** Hangs a fresh, unmarked node below the node of `key`, in the slot of `c`. */
    method AddChild(parent: TrieNode, ghost key: string, c: char) returns (node: TrieNode)
      requires Shaped() && key in paths && paths[key] == parent && IsLower(c)
      requires parent.children.Length == 26 && parent.children[Slot(c)] == null
      modifies this`paths, this`owner, this`Nodes, this`Arrays, parent.children
      ensures Shaped()
      ensures paths == old(paths)[key + [c] := node] && node == paths[key + [c]]
      ensures fresh(node) && fresh(node.children)
      ensures Nodes == old(Nodes) + {node} && Arrays == old(Arrays) + {node.children}
    {
      ghost var q := key + [c];
      ghost var P, O, N, A := paths, owner, Nodes, Arrays;
      Unseal(root, P, O, N, A, Freq);
      assert parent.children[Slot(c)] == Child(P, key, Slot(c));
      node := new TrieNode(q);
      Hang(root, P, O, N, A, parent, key, c, node);
      Register(node, q);
      Grow(root, P, O, N, A, Freq, key, c, node);
    }

    /** `searchNode(str)`: the node reached by the letters of `str`, or null if the walk falls off. */
    method SearchNode(str: string) returns (node: TrieNode?)
      requires Owned(root, paths, owner, Nodes, Arrays) && Linked(paths, Arrays) && Closed(paths)
      ensures (node != null) == (Letters(str) in paths)
      ensures node != null ==> node == paths[Letters(str)]
    {
      var current := root;
      for i := 0 to |str|
        invariant Letters(str[..i]) in paths && current == paths[Letters(str[..i])]
      {
        var c := str[i];
        LettersSnoc(str, i);
        if c < 'a' || c > 'z' {
          assert Letters(str[..i + 1]) == Letters(str[..i]);
          continue;
        }
        var index := c as int - 'a' as int;
        ghost var key := Letters(str[..i]);
        assert Letter(index) == c;
        assert current.children[index] == Child(paths, key, index);
        if current.children[index] == null {
          LettersPrefix(str, i + 1);
          MissingExtension(paths, key + [c], Letters(str));
          return null;
        }
        assert Letters(str[..i + 1]) == key + [c];
        current := current.children[index];
      }
      assert str[..|str|] == str;
      return current;
    }

    /** `search(word)`: true iff the word is non-empty and its key was inserted. */
    method Search(word: string) returns (found: bool)
      requires Valid()
      ensures found == Contains(Freq, word)
    {
      if word == "" {
        return false;
      }
      var w := LowerStr(word);
      Unseal(root, paths, owner, Nodes, Arrays, Freq);
      var node := SearchNode(w);
      found := node != null && node.isEndOfWord;
    }

    /** `startsWith(prefix)`: true iff the prefix is non-empty and its key is a path of the tree. */
    method StartsWith(prefix: string) returns (found: bool)
      requires Valid()
      ensures found == HasPrefix(Freq, prefix)
    {
      if prefix == "" {
        return false;
      }
      var p := LowerStr(prefix);
      Unseal(root, paths, owner, Nodes, Arrays, Freq);
      var node := SearchNode(p);
      found := node != null;
    }

    /** `getWordCount()`: the number of distinct keys stored. */
    function GetWordCount(): (r: int)
      reads this, Nodes, Arrays
      requires Valid()
      ensures r == |Freq|
    {
      wordCount
    }
  }
}
