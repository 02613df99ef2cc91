/**
 * The C++ prefix dictionary (trie.cpp, class Trie). Unlike the Java tree it takes every
 * character verbatim: no case folding and no filtering, and the empty word is a key that marks
 * the root itself.
 */
module CppTrie {
  import opened Text
  import opened Levenshtein
  import opened WordCounts
  import opened CppTrieNode
  import opened CppRanking

  /**
   * The words `dfsSearch` reports from the subtree of `prefix`: stored, non-empty, extending
   * `prefix` and within `maxDist` edits of `target`.
   */
  ghost function Within(F: map<string, nat>, prefix: string, target: string, maxDist: int): set<string>
  {
    set w | w in F && prefix <= w && w != "" && Lev(target, w) <= maxDist
  }

  /** The members of `W` that continue below `prefix` with a character of `D`. */
  ghost function Below(W: set<string>, prefix: string, D: set<char>): set<string>
  {
    set w | w in W && |prefix| < |w| && w[|prefix|] in D
  }

  /** The words below the child for `c` are the words below `prefix` that continue with `c`. */
  lemma WithinChild(F: map<string, nat>, prefix: string, c: char, target: string, maxDist: int)
    ensures Within(F, prefix + [c], target, maxDist) == Below(Within(F, prefix, target, maxDist), prefix, {c})
  {
    var q := prefix + [c];
    forall w | w in F ensures q <= w <==> prefix <= w && |prefix| < |w| && w[|prefix|] == c {
      if prefix <= w && |prefix| < |w| && w[|prefix|] == c {
        assert w[..|q|] == w[..|prefix|] + [w[|prefix|]];
      }
    }
  }

  /**
   * The words below `prefix` are `prefix` itself, when it qualifies, and the words below its
   * children `C`: every longer stored word passes through one of them.
   */
  lemma WithinSplit<T>(F: map<string, nat>, P: map<string, T>, prefix: string, C: set<char>, target: string, maxDist: int)
    requires Closed(P) && F.Keys <= P.Keys
    requires forall c | prefix + [c] in P :: c in C
    ensures var W := Within(F, prefix, target, maxDist);
      W == (if prefix in F && prefix != "" && Lev(target, prefix) <= maxDist then {prefix} else {}) + Below(W, prefix, C)
  {
    var W := Within(F, prefix, target, maxDist);
    forall w | w in W && w != prefix ensures |prefix| < |w| && w[|prefix|] in C {
      ClosedPrefix(P, w, |prefix| + 1);
      assert w[..|prefix| + 1] == prefix + [w[|prefix|]];
    }
  }

  /** One more character done: the words below the children done so far grow by those below it. */
  lemma BelowAdd(W: set<string>, prefix: string, D: set<char>, c: char)
    ensures Below(W, prefix, D + {c}) == Below(W, prefix, D) + Below(W, prefix, {c})
  {
  }

  /** One cell of the table from its three neighbours, written the way `minEditDistance` computes it. */
  lemma Cell(s: string, t: string, i: nat, j: nat, diag: int, up: int, left: int)
    requires 0 < i <= |s| && 0 < j <= |t|
    requires diag == Lev(s[..i - 1], t[..j - 1]) && up == Lev(s[..i - 1], t[..j]) && left == Lev(s[..i], t[..j - 1])
    ensures Lev(s[..i], t[..j]) == if s[i - 1] == t[j - 1] then diag else 1 + Min(up, Min(left, diag))
  {
    LevCell(s, t, i, j);
  }

  /** Words whose lengths differ by more than `k` are more than `k` edits apart. */
  lemma GapExceeds(s: string, t: string, k: int)
    requires Abs(|s| - |t|) > k
    ensures Lev(s, t) > k
  {
    LevBounds(s, t);
  }

  class Trie {
    const root: TrieNode
    var totalWords: int

    /** Abstract view: each stored word with its insertion count. */
    ghost var Freq: map<string, nat>
    /** Each path present in the tree, with the node it leads to. */
    ghost var paths: map<string, TrieNode>
    /** The nodes of the tree. */
    ghost var Nodes: set<TrieNode>

    /** The tree is well formed, its marks agree with `Freq` and `totalWords` counts the distinct words. */
    ghost predicate Shaped()
      reads this, Nodes
    {
      Sealed(root, paths, Nodes, Freq) && totalWords == |Freq|
    }

    /** Besides, the tree has no dead ends: its paths are exactly the prefixes of the stored words. */
    ghost predicate Valid()
      reads this, Nodes
    {
      Shaped() && paths.Keys == Closure(Freq.Keys)
    }

    /** `Trie()`: a lone root and no words. */
    constructor ()
      ensures Valid() && fresh(Nodes)
      ensures Freq == map[] && totalWords == 0
    {
      var r := new TrieNode("");
      root := r;
      totalWords := 0;
      Freq := map[];
      paths := map["" := r];
      Nodes := {r};
      new;
      assert Linked(paths, Nodes) by {
        forall c ensures Child(paths, "", c) == null {
          assert [c] != "";
        }
      }
      assert Closure({}) == {""};
      Seal(root, paths, Nodes, Freq);
    }

    /**
     * `insert(word)`: walks the characters of `word`, creating missing nodes, then marks the
     * last node and counts the insertion; a word seen for the first time adds one to `totalWords`.
     */
    method Insert(word: string)
      requires Valid()
      modifies this, Nodes
      ensures Valid()
      ensures forall n | n in Nodes :: n in old(Nodes) || fresh(n)
      ensures Freq == AddKey(old(Freq), word)
      ensures word in Freq && Freq[word] == Count(old(Freq), word) + 1 && old(Freq.Keys) <= Freq.Keys
      ensures totalWords == old(totalWords) + (if word in old(Freq) then 0 else 1)
      ensures old(paths.Keys) <= paths.Keys
    {
      var current := Descend(word);
      PathsClosed();
      GrownPaths(old(paths.Keys), paths, word);
      Record(current, word);
      AddKeyCounts(old(Freq), word);
      ClosureAdd(old(Freq.Keys), word);
    }

    /**
     * The walk of `insert`: follows the characters of `w` and enters a new node wherever the
     * child is missing; it ends at the node of `w`, and every path it adds is a prefix of `w`.
     */
    method Descend(w: string) returns (current: TrieNode)
      requires Shaped()
      modifies this`paths, this`Nodes, Nodes`children
      ensures Shaped() && w in paths && paths[w] == current && current in Nodes
      ensures old(paths.Keys) <= paths.Keys && forall p | p in paths :: p in old(paths) || p <= w
      ensures forall n | n in Nodes :: n in old(Nodes) || fresh(n)
    {
      current := root;
      RootAt();
      for i := 0 to |w|
        invariant Shaped() && w[..i] in paths && paths[w[..i]] == current && current in Nodes
        invariant old(paths.Keys) <= paths.Keys && forall p | p in paths :: p in old(paths) || p <= w[..i]
        invariant forall n | n in Nodes :: n in old(Nodes) || fresh(n)
      {
        assert w[..i + 1] == w[..i] + [w[i]];
        current := Step(current, w[..i], w[i]);
      }
      assert w[..|w|] == w;
    }

    /** One character of the walk: follows the child for `c`, creating it when it is missing. */
    method Step(current: TrieNode, ghost key: string, c: char) returns (next: TrieNode)
      requires Shaped() && key in paths && paths[key] == current
      modifies this`paths, this`Nodes, current`children
      ensures Shaped() && key + [c] in paths && paths[key + [c]] == next && next in Nodes
      ensures old(paths.Keys) <= paths.Keys && forall p | p in paths :: p in old(paths) || p == key + [c]
      ensures forall n | n in Nodes :: n in old(Nodes) || fresh(n)
    {
      Unseal(root, paths, Nodes, Freq);
      assert ChildOf(current, c) == Child(paths, key, c);
      if c !in current.children {
        AddChild(current, key, c);
      }
      next := current.children[c];
    }

    /** Enters a fresh, unmarked node in the child map of the node of `key`, under `c`. */
    method AddChild(parent: TrieNode, ghost key: string, c: char)
      requires Shaped() && key in paths && paths[key] == parent && c !in parent.children
      modifies this`paths, this`Nodes, parent`children
      ensures Shaped()
      ensures c in parent.children && paths == old(paths)[key + [c] := parent.children[c]]
      ensures fresh(parent.children[c]) && Nodes == old(Nodes) + {parent.children[c]}
    {
      ghost var q := key + [c];
      ghost var P, N := paths, Nodes;
      Unseal(root, P, N, Freq);
      assert ChildOf(parent, c) == Child(P, key, c);
      var node := new TrieNode(q);
      Hang(root, P, N, parent, key, c, node);
      Register(node, q);
      Grow(root, P, N, Freq, key, c, node);
    }

    /** Records a new node at path `q` in the ghost view of the tree. */
    ghost method Register(node: TrieNode, q: string)
      modifies this`paths, this`Nodes
      ensures paths == old(paths)[q := node] && Nodes == old(Nodes) + {node}
    {
      paths := paths[q := node];
      Nodes := Nodes + {node};
    }

    /**
     * The tail of `insert`: marks the node of `key` as a word end and counts the insertion,
     * keeping the tree's shape.
     */
    method Record(current: TrieNode, ghost key: string)
      requires Shaped() && key in paths && paths[key] == current
      modifies this`totalWords, this`Freq, current`isEndOfWord, current`frequency
      ensures Shaped()
      ensures Freq == AddKey(old(Freq), key)
      ensures totalWords == old(totalWords) + (if key in old(Freq) then 0 else 1)
    {
      Unseal(root, paths, Nodes, Freq);
      Tally(current, key);
      Seal(root, paths, Nodes, Freq);
    }

    /**
     * The bookkeeping that ends `insert`: the node of `key` now records one more insertion of
     * `key`, and the counts of every other path stay as they were.
     */
    method Tally(current: TrieNode, ghost key: string)
      requires Marked(paths, Freq, Nodes) && Freq.Keys <= paths.Keys && Positive(Freq) && totalWords == |Freq|
      requires key in paths && paths[key] == current && current in Nodes && current.path == key
      requires forall p | p in paths :: paths[p].path == p
      modifies this`totalWords, this`Freq, current`isEndOfWord, current`frequency
      ensures Marked(paths, Freq, Nodes) && Freq.Keys <= paths.Keys && Positive(Freq) && totalWords == |Freq|
      ensures Freq == AddKey(old(Freq), key)
      ensures totalWords == old(totalWords) + (if key in old(Freq) then 0 else 1)
    {
      ghost var F0, P, N := Freq, paths, Nodes;
      MarkedElsewhere(P, F0, N, key, current);
      AddKeyPositive(F0, P.Keys, key);
      MarkEnd(current);
      Freq := AddKey(F0, key);
      Remarked(P, Freq, N, key, current);
    }

    /**
     * The statements that end `insert`: a node reached for the first time adds one to
     * `totalWords`; in every case it becomes a word end and its counter goes up.
     */
    method MarkEnd(current: TrieNode)
      modifies this`totalWords, current`isEndOfWord, current`frequency
      ensures current.isEndOfWord && current.frequency == old(current.frequency) + 1
      ensures totalWords == old(totalWords) + (if old(current.isEndOfWord) then 0 else 1)
    {
      if !current.isEndOfWord {
        totalWords := totalWords + 1;
      }
      current.isEndOfWord := true;
      current.frequency := current.frequency + 1;
    }

    /** The root sits at the empty path. */
    lemma RootAt()
      requires Shaped()
      ensures "" in paths && paths[""] == root && root in Nodes
    {
      Unseal(root, paths, Nodes, Freq);
    }

    /** The links of the tree, without its marks: what a walk down the tree needs. */
    lemma Walkable()
      requires Shaped()
      ensures Owned(root, paths, Nodes) && Linked(paths, Nodes) && Closed(paths)
    {
      Unseal(root, paths, Nodes, Freq);
    }

    /** The node of each path is a word end exactly when the path is a stored word, and counts its insertions. */
    lemma MarkOf(key: string)
      requires Shaped() && key in paths
      ensures paths[key] in Nodes && paths[key].isEndOfWord == (key in Freq) && paths[key].frequency == Count(Freq, key)
    {
      Unseal(root, paths, Nodes, Freq);
    }

    /** The parent of every path of the tree is a path of the tree, and every stored word is a path. */
    lemma PathsClosed()
      requires Shaped()
      ensures Closed(paths) && Freq.Keys <= paths.Keys
    {
      Unseal(root, paths, Nodes, Freq);
    }

    /**
     * `search(word)`: true iff `word` was inserted; the walk answers false as soon as a
     * character has no child.
     */
    method Search(word: string) returns (found: bool)
      requires Valid()
      ensures found == (word in Freq)
    {
      Walkable();
      var current := root;
      for i := 0 to |word|
        invariant word[..i] in paths && current == paths[word[..i]]
      {
        var ch := word[i];
        assert word[..i + 1] == word[..i] + [ch];
        assert ChildOf(current, ch) == Child(paths, word[..i], ch);
        if ch !in current.children {
          MissingExtension(paths, word[..i + 1], word);
          return false;
        }
        current := current.children[ch];
      }
      assert word[..|word|] == word;
      MarkOf(word);
      return current.isEndOfWord;
    }

    /** The child map of the node of `key` has an entry for `c` exactly when `key + [c]` is a path, and that entry is its node. */
    lemma ChildrenOf(key: string)
      requires Shaped() && key in paths
      ensures forall c | key + [c] in paths :: c in paths[key].children
      ensures forall c | c in paths[key].children :: key + [c] in paths && paths[key].children[c] == paths[key + [c]]
    {
      Unseal(root, paths, Nodes, Freq);
      forall c | key + [c] in paths ensures c in paths[key].children {
        assert ChildOf(paths[key], c) == Child(paths, key, c);
      }
      forall c | c in paths[key].children ensures key + [c] in paths && paths[key].children[c] == paths[key + [c]] {
        assert ChildOf(paths[key], c) == Child(paths, key, c);
      }
    }

    /**
     * `minEditDistance(word1, word2, maxDist)`: the Levenshtein distance when it is at most
     * `maxDist`, and otherwise a value above `maxDist`: `maxDist + 1` when the lengths already
     * differ by more, or a whole row of the table exceeds it; the exact distance when no row
     * minimum gave the excess away.
     */
    method MinEditDistance(word1: string, word2: string, maxDist: int) returns (r: int)
      ensures r == Lev(word1, word2) || (r == maxDist + 1 && Lev(word1, word2) > maxDist)
      ensures Abs(|word1| - |word2|) > maxDist ==> r == maxDist + 1
    {
      var m, n := |word1|, |word2|;
      if Abs(m - n) > maxDist {
        GapExceeds(word1, word2, maxDist);
        return maxDist + 1;
      }
      var row0, row1 := new int[n + 1], new int[n + 1];
      var dp := new array<int>[2] [row0, row1];
      for j := 0 to n + 1
        invariant dp[0] == row0 && dp[1] == row1
        invariant forall k | 0 <= k < j :: row0[k] == Lev(word1[..0], word2[..k])
      {
        LevBorder(word1, word2, 0, j);
        dp[0][j] := j;
      }
      ghost var last := row0;
      for i := 1 to m + 1
        invariant dp[0] == row0 && dp[1] == row1 && last == dp[(i - 1) % 2]
        invariant forall k | 0 <= k <= n :: last[k] == Lev(word1[..i - 1], word2[..k])
      {
        var curr := i % 2;
        var prev := 1 - curr;
        var minVal := NextRow(word1, word2, i, dp[curr], dp[prev]);
        last := dp[curr];
        if minVal > maxDist {
          RowAtLeastPropagates(word1, word2, i, maxDist + 1);
          return maxDist + 1;
        }
      }
      assert word1[..m] == word1 && word2[..n] == word2;
      return dp[m % 2][n];
    }

    /**
     * The rest of the outer loop's body in `minEditDistance`: row `i` of the table into
     * `dp[curr]` (`curr` is the source's `i&1`), from row `i - 1` in `dp[prev]`, and the row's
     * minimum.
     */
    method NextRow(s: string, t: string, i: int, curr: array<int>, prev: array<int>) returns (minVal: int)
      requires 0 < i <= |s| && curr != prev && curr.Length == prev.Length == |t| + 1
      requires forall k | 0 <= k <= |t| :: prev[k] == Lev(s[..i - 1], t[..k])
      modifies curr
      ensures forall k | 0 <= k <= |t| :: curr[k] == Lev(s[..i], t[..k])
      ensures RowAtLeast(s, t, i, minVal)
      ensures exists k | 0 <= k <= |t| :: minVal == Lev(s[..i], t[..k])
    {
      curr[0] := i;
      LevBorder(s, t, i, 0);
      minVal := i;
      ghost var at := 0;
      for j := 1 to |t| + 1
        invariant forall k | 0 <= k < j :: curr[k] == Lev(s[..i], t[..k])
        invariant forall k | 0 <= k < j :: minVal <= curr[k]
        invariant 0 <= at < j && minVal == curr[at]
      {
        Cell(s, t, i, j, prev[j - 1], prev[j], curr[j - 1]);
        if s[i - 1] == t[j - 1] {
          curr[j] := prev[j - 1];
        } else {
          curr[j] := 1 + Min(prev[j], Min(curr[j - 1], prev[j - 1]));
        }
        if curr[j] < minVal {
          at := j;
        }
        minVal := Min(minVal, curr[j]);
      }
    }

    /**
     * `dfsSearch(node, currentWord, target, maxDist, results, seen)`: visits the subtree of
     * `currentWord`, in whatever order its child map yields, and reports each stored,
     * non-empty word within `maxDist` of `target` that is not yet in `seen`, once, with its
     * count. `results` and `seen` are passed by reference in the source; here they go in and
     * come back out.
     */
    method DfsSearch(node: TrieNode, currentWord: string, target: string, maxDist: int,
                     results0: seq<Candidate>, seen0: set<string>)
      returns (results: seq<Candidate>, seen: set<string>)
      requires Shaped() && currentWord in paths && paths[currentWord] == node
      ensures results0 <= results
      ensures seen == seen0 + Within(Freq, currentWord, target, maxDist)
      ensures var added := results[|results0|..];
        Keys(added) == seen - seen0 && NoRepeats(added) && Tagged(added, Freq)
      decreases Ext(paths.Keys, currentWord)
    {
      results, seen := CheckWord(node, currentWord, target, maxDist, results0, seen0);
      ghost var W := Within(Freq, currentWord, target, maxDist);
      ChildrenOf(currentWord);
      PathsClosed();
      WithinSplit(Freq, paths, currentWord, node.children.Keys, target, maxDist);
      ghost var results1, seen1 := results, seen;
      var pending := node.children.Keys;
      ghost var done: set<char> := {};
      while pending != {}
        invariant pending !! done && pending + done == node.children.Keys
        invariant results1 <= results
        invariant seen == seen1 + Below(W, currentWord, done)
        invariant var added := results[|results1|..];
          Keys(added) == seen - seen1 && NoRepeats(added) && Tagged(added, Freq)
        decreases pending
      {
        var ch :| ch in pending;
        ExtShrinks(paths.Keys, currentWord, ch);
        WithinChild(Freq, currentWord, ch, target, maxDist);
        BelowAdd(W, currentWord, done, ch);
        ghost var r, s := results, seen;
        results, seen := DfsSearch(node.children[ch], currentWord + [ch], target, maxDist, results, seen);
        Appended(results1, r, results, seen1, s, seen, Freq);
        pending, done := pending - {ch}, done + {ch};
      }
      Appended(results0, results1, results, seen0, seen1, seen, Freq);
    }

    /**
     * The terminal check that opens `dfsSearch`: a word end at a non-empty path, not yet
     * seen and within `maxDist` of `target`, is reported with its count and marked as seen.
     */
    method CheckWord(node: TrieNode, currentWord: string, target: string, maxDist: int,
                     results0: seq<Candidate>, seen0: set<string>)
      returns (results: seq<Candidate>, seen: set<string>)
      requires Shaped() && currentWord in paths && paths[currentWord] == node
      ensures results0 <= results
      ensures seen == seen0 + (if currentWord in Freq && currentWord != "" && Lev(target, currentWord) <= maxDist then {currentWord} else {})
      ensures var added := results[|results0|..];
        Keys(added) == seen - seen0 && NoRepeats(added) && Tagged(added, Freq)
    {
      results, seen := results0, seen0;
      MarkOf(currentWord);
      assert results[|results0|..] == [];
      if node.isEndOfWord && |currentWord| > 0 {
        if currentWord !in seen {
          var dist := MinEditDistance(target, currentWord, maxDist);
          if dist <= maxDist {
            results := results + [(currentWord, node.frequency)];
            seen := seen + {currentWord};
            ghost var added := results[|results0|..];
            assert added == [(currentWord, node.frequency)];
            assert Keys(added) == {currentWord} by {
              assert added[0].0 == currentWord;
            }
          }
        }
      }
    }

    /**
     * `autoCorrect(word, maxDist)`: the word itself when it is stored; otherwise the five most
     * frequent stored words within `maxDist` edits (all of them when there are fewer), most
     * frequent first.
     */
    method AutoCorrect(word: string, maxDist: int := 2) returns (suggestions: seq<string>)
      requires Valid()
      ensures word in Freq ==> suggestions == [word]
      ensures word !in Freq ==> Suggests(Freq, Within(Freq, "", word, maxDist), suggestions)
    {
      var hit := Search(word);
      if hit {
        return [word];
      }
      RootAt();
      var results, seen := DfsSearch(root, "", word, maxDist, [], {});
      assert results[0..] == results;
      var sorted := FreqSort(results);
      FreqSortSorts(results);
      assert |sorted| == |multiset(sorted)| == |results|;
      suggestions := FirstWords(sorted);
      TopByFreq(Freq, Within(Freq, "", word, maxDist), results, sorted, suggestions);
    }

    /** The closing loop of `autoCorrect`: the words of the first `min(5, |results|)` candidates. */
    method FirstWords(results: seq<Candidate>) returns (suggestions: seq<string>)
      ensures |suggestions| == Min(LIMIT, |results|)
      ensures forall k | 0 <= k < |suggestions| :: suggestions[k] == results[k].0
    {
      suggestions := [];
      var limit := Min(LIMIT, |results|);
      for i := 0 to limit
        invariant |suggestions| == i && forall k | 0 <= k < i :: suggestions[k] == results[k].0
      {
        suggestions := suggestions + [results[i].0];
      }
    }

    /** `getWordCount()`: the number of distinct words stored. */
    function GetWordCount(): (r: int)
      reads this, Nodes
      requires Valid()
      ensures r == |Freq|
    {
      totalWords
    }
  }
}
