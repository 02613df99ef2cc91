/**
 * The Java suggestion engine (trie_autocorrect.java, class AutoCorrect): a dictionary trie,
 * and for a misspelt query the dictionary words within edit distance 2, collected by a
 * pruned depth-first walk, ranked by distance and frequency, and cut to the requested count.
 */
module JavaAutoCorrect {
  import opened Text
  import opened Levenshtein
  import opened WordCounts
  import opened JavaTrieNode
  import opened JavaTrie
  import opened JavaRanking

  /** `MAX_EDIT_DISTANCE`: the largest edit distance a suggestion may have. */
  const MAX_EDIT_DISTANCE := 2

  /** A value of Java's 32-bit `int`. */
  predicate IsInt32(x: int)
  {
    -0x8000_0000 <= x < 0x8000_0000
  }

  /** Java `int` arithmetic: the exact result wrapped to 32 bits, two's complement. */
  function Wrap32(x: int): (r: int)
    ensures IsInt32(r)
    ensures (x - r) % 0x1_0000_0000 == 0
    ensures IsInt32(x) ==> r == x
  {
    (x + 0x8000_0000) % 0x1_0000_0000 - 0x8000_0000
  }

  /** `maxSuggestions*10`, the candidate count at which the walk stops descending; the product wraps. */
  function Cap(maxSuggestions: int): (r: int)
    requires IsInt32(maxSuggestions)
    ensures IsInt32(r)
    ensures -0x0CCC_CCCC <= maxSuggestions <= 0x0CCC_CCCC ==> r == maxSuggestions * 10
  {
    Wrap32(maxSuggestions * 10)
  }

  /**
   * The list `collectAllWords` leaves behind after visiting the node at `path` of a tree with
   * paths `K` and counts `F`, starting from the list `acc`: a stored word at distance at most 2
   * from `target` is appended, and unless the list has reached `cap` the children follow in
   * slot order.
   */
  ghost function Visit(K: set<string>, F: map<string, nat>, path: string, target: string,
                       acc: seq<SuggestionResult>, cap: int): seq<SuggestionResult>
    requires path in K
    decreases Ext(K, path), 1, 0
  {
    var here :=
      if path in F && Lev(path, target) <= MAX_EDIT_DISTANCE
      then acc + [SuggestionResult(path, Lev(path, target), F[path])]
      else acc;
    if |here| >= cap then here else VisitChildren(K, F, path, target, here, cap, 0)
  }

  /** The loop over the child slots `i`, `i + 1`, ..., 25 of the node at `path`. */
  ghost function VisitChildren(K: set<string>, F: map<string, nat>, path: string, target: string,
                               acc: seq<SuggestionResult>, cap: int, i: nat): seq<SuggestionResult>
    requires path in K && i <= 26
    decreases Ext(K, path), 0, 26 - i
  {
    if i == 26 then acc
    else
      var child := path + [Letter(i)];
      var next :=
        if child in K then ExtShrinks(K, path, Letter(i)); Visit(K, F, child, target, acc, cap)
        else acc;
      VisitChildren(K, F, path, target, next, cap, i + 1)
  }

  /** `x` is a stored word within the distance bound, with its true distance and count. */
  ghost predicate Found(F: map<string, nat>, target: string, x: SuggestionResult)
  {
    x.word in F && x.distance == Lev(x.word, target) && x.distance <= MAX_EDIT_DISTANCE && x.frequency == F[x.word]
  }

  /** The words strictly increase in lexicographic order. */
  predicate LexChain(s: seq<SuggestionResult>)
  {
    forall i, j | 0 <= i < j < |s| :: LexLess(s[i].word, s[j].word)
  }

  lemma LexChainJoin(a: seq<SuggestionResult>, b: seq<SuggestionResult>)
    requires LexChain(a) && LexChain(b)
    requires forall x, y | x in a && y in b :: LexLess(x.word, y.word)
    ensures LexChain(a + b)
  {
    var s := a + b;
    forall i, j | 0 <= i < j < |s| ensures LexLess(s[i].word, s[j].word) {
      if j < |a| {
        assert s[i] == a[i] && s[j] == a[j];
      } else if i >= |a| {
        assert s[i] == b[i - |a|] && s[j] == b[j - |a|];
      } else {
        assert s[i] == a[i] && s[j] == b[j - |a|];
      }
    }
  }

  /** A word below the child for `c` continues `path` with `c`. */
  lemma ExtendsChild(path: string, c: char, w: string)
    requires path + [c] <= w
    ensures path <= w && |path| < |w| && w[|path|] == c
  {
    assert w[..|path| + 1] == path + [c];
    assert w[..|path|] == (path + [c])[..|path|] == path;
  }

  /** The walk from `path` only appends, and only found words below `path`. */
  lemma {:induction false} VisitFinds(K: set<string>, F: map<string, nat>, path: string, target: string,
                                       acc: seq<SuggestionResult>, cap: int)
    requires path in K
    ensures var r := Visit(K, F, path, target, acc, cap);
      acc <= r && forall x | x in r[|acc|..] :: path <= x.word && Found(F, target, x)
    decreases Ext(K, path), 1, 0
  {
    var here :=
      if path in F && Lev(path, target) <= MAX_EDIT_DISTANCE
      then acc + [SuggestionResult(path, Lev(path, target), F[path])]
      else acc;
    if |here| < cap {
      VisitChildrenFind(K, F, path, target, here, cap, 0);
      var r := VisitChildren(K, F, path, target, here, cap, 0);
      assert r[|acc|..] == here[|acc|..] + r[|here|..];
    }
  }

  /** The same for the children in slots `i` and later: their words continue `path` with a letter from slot `i` on. */
  lemma {:induction false} VisitChildrenFind(K: set<string>, F: map<string, nat>, path: string, target: string,
                                              acc: seq<SuggestionResult>, cap: int, i: nat)
    requires path in K && i <= 26
    ensures var r := VisitChildren(K, F, path, target, acc, cap, i);
      && acc <= r
      && (forall x | x in r[|acc|..] ::
            path <= x.word && |path| < |x.word| && 'a' as int + i <= x.word[|path|] as int && Found(F, target, x))
    decreases Ext(K, path), 0, 26 - i
  {
    if i < 26 {
      var c := Letter(i);
      var child := path + [c];
      var next := if child in K then Visit(K, F, child, target, acc, cap) else acc;
      if child in K {
        ExtShrinks(K, path, c);
        VisitFinds(K, F, child, target, acc, cap);
        forall x | x in next[|acc|..] ensures path <= x.word && |path| < |x.word| && x.word[|path|] == c {
          ExtendsChild(path, c, x.word);
        }
      }
      VisitChildrenFind(K, F, path, target, next, cap, i + 1);
      var r := VisitChildren(K, F, path, target, next, cap, i + 1);
      assert r[|acc|..] == next[|acc|..] + r[|next|..];
    }
  }

  /** Some candidate of `s` carries the word `w`. */
  ghost predicate Lists(s: seq<SuggestionResult>, w: string)
  {
    exists x | x in s :: x.word == w
  }

  /** A word listed in either part of a list is listed in the whole. */
  lemma ListsJoin(a: seq<SuggestionResult>, b: seq<SuggestionResult>, w: string)
    requires Lists(a, w) || Lists(b, w)
    ensures Lists(a + b, w)
  {
    var x :| (x in a || x in b) && x.word == w;
    assert x in a + b;
  }

  /** The walk only appends to the list it is given. */
  lemma {:induction false} VisitGrows(K: set<string>, F: map<string, nat>, path: string, target: string,
                                       acc: seq<SuggestionResult>, cap: int)
    requires path in K
    ensures acc <= Visit(K, F, path, target, acc, cap)
    decreases Ext(K, path), 1, 0
  {
    var here :=
      if path in F && Lev(path, target) <= MAX_EDIT_DISTANCE
      then acc + [SuggestionResult(path, Lev(path, target), F[path])]
      else acc;
    if |here| < cap {
      VisitChildrenGrows(K, F, path, target, here, cap, 0);
    }
  }

  lemma {:induction false} VisitChildrenGrows(K: set<string>, F: map<string, nat>, path: string, target: string,
                                               acc: seq<SuggestionResult>, cap: int, i: nat)
    requires path in K && i <= 26
    ensures acc <= VisitChildren(K, F, path, target, acc, cap, i)
    decreases Ext(K, path), 0, 26 - i
  {
    if i < 26 {
      var child := path + [Letter(i)];
      var next := if child in K then Visit(K, F, child, target, acc, cap) else acc;
      if child in K {
        ExtShrinks(K, path, Letter(i));
        VisitGrows(K, F, child, target, acc, cap);
      }
      VisitChildrenGrows(K, F, path, target, next, cap, i + 1);
    }
  }

  /**
   * Conversely, a walk from `path` that ends below the cut-off has appended every stored word
   * below `path` within the distance bound: no subtree was skipped.
   */
  lemma {:induction false} VisitComplete(K: set<string>, F: map<string, nat>, path: string, target: string,
                                          acc: seq<SuggestionResult>, cap: int)
    requires path in K
    requires forall w, k | w in F && 0 <= k <= |w| :: w[..k] in K
    requires forall w | w in F :: IsKey(w)
    requires |Visit(K, F, path, target, acc, cap)| < cap
    ensures var r := Visit(K, F, path, target, acc, cap);
      acc <= r && forall w | w in F && path <= w && Lev(w, target) <= MAX_EDIT_DISTANCE :: Lists(r[|acc|..], w)
    decreases Ext(K, path), 1, 0
  {
    var here :=
      if path in F && Lev(path, target) <= MAX_EDIT_DISTANCE
      then acc + [SuggestionResult(path, Lev(path, target), F[path])]
      else acc;
    VisitGrows(K, F, path, target, acc, cap);
    VisitChildrenGrows(K, F, path, target, here, cap, 0);
    VisitChildrenComplete(K, F, path, target, here, cap, 0);
    var r := VisitChildren(K, F, path, target, here, cap, 0);
    assert r[|acc|..] == here[|acc|..] + r[|here|..];
    forall w | w in F && path <= w && Lev(w, target) <= MAX_EDIT_DISTANCE
      ensures Lists(r[|acc|..], w)
    {
      if w == path {
        assert here[|acc|..][0].word == w;
      } else {
        assert IsLower(w[|path|]);
      }
      ListsJoin(here[|acc|..], r[|here|..], w);
    }
  }

  /** The same for the children in slots `i` and later, for the words that continue `path` with a letter from slot `i` on. */
  lemma {:induction false} VisitChildrenComplete(K: set<string>, F: map<string, nat>, path: string, target: string,
                                                  acc: seq<SuggestionResult>, cap: int, i: nat)
    requires path in K && i <= 26
    requires forall w, k | w in F && 0 <= k <= |w| :: w[..k] in K
    requires forall w | w in F :: IsKey(w)
    requires |VisitChildren(K, F, path, target, acc, cap, i)| < cap
    ensures var r := VisitChildren(K, F, path, target, acc, cap, i);
      acc <= r && forall w | w in F && path <= w && |path| < |w| && 'a' as int + i <= w[|path|] as int && Lev(w, target) <= MAX_EDIT_DISTANCE ::
        Lists(r[|acc|..], w)
    decreases Ext(K, path), 0, 26 - i
  {
    VisitChildrenGrows(K, F, path, target, acc, cap, i);
    if i == 26 {
      forall w | w in F && path <= w && |path| < |w| ensures w[|path|] as int < 'a' as int + i {
        assert IsLower(w[|path|]);
      }
    } else {
      var c := Letter(i);
      var child := path + [c];
      var next := if child in K then Visit(K, F, child, target, acc, cap) else acc;
      VisitChildrenGrows(K, F, path, target, next, cap, i + 1);
      if child in K {
        ExtShrinks(K, path, c);
        VisitGrows(K, F, child, target, acc, cap);
        VisitComplete(K, F, child, target, acc, cap);
      }
      VisitChildrenComplete(K, F, path, target, next, cap, i + 1);
      var r := VisitChildren(K, F, path, target, next, cap, i + 1);
      assert r[|acc|..] == next[|acc|..] + r[|next|..];
      forall w | w in F && path <= w && |path| < |w| && 'a' as int + i <= w[|path|] as int && Lev(w, target) <= MAX_EDIT_DISTANCE
        ensures Lists(r[|acc|..], w)
      {
        if w[|path|] == c {
          assert w[..|path| + 1] == child;
        }
        ListsJoin(next[|acc|..], r[|next|..], w);
      }
    }
  }

  /** The words the walk from `path` appends come in strictly increasing lexicographic order. */
  lemma {:induction false} VisitOrdered(K: set<string>, F: map<string, nat>, path: string, target: string,
                                         acc: seq<SuggestionResult>, cap: int)
    requires path in K
    ensures var r := Visit(K, F, path, target, acc, cap);
      acc <= r && LexChain(r[|acc|..])
    decreases Ext(K, path), 1, 0
  {
    var here :=
      if path in F && Lev(path, target) <= MAX_EDIT_DISTANCE
      then acc + [SuggestionResult(path, Lev(path, target), F[path])]
      else acc;
    var own := here[|acc|..];
    assert forall x | x in own :: x.word == path;
    if |here| < cap {
      VisitChildrenOrdered(K, F, path, target, here, cap, 0);
      VisitChildrenFind(K, F, path, target, here, cap, 0);
      var r := VisitChildren(K, F, path, target, here, cap, 0);
      var below := r[|here|..];
      assert r[|acc|..] == own + below;
      forall x, y | x in own && y in below ensures LexLess(x.word, y.word) {
        LexLessDiverge(path, x.word, y.word);
      }
      LexChainJoin(own, below);
    }
  }

  /** The same for the children in slots `i` and later; a child's words precede those of later children. */
  lemma {:induction false} VisitChildrenOrdered(K: set<string>, F: map<string, nat>, path: string, target: string,
                                                 acc: seq<SuggestionResult>, cap: int, i: nat)
    requires path in K && i <= 26
    ensures var r := VisitChildren(K, F, path, target, acc, cap, i);
      acc <= r && LexChain(r[|acc|..])
    decreases Ext(K, path), 0, 26 - i
  {
    if i < 26 {
      var c := Letter(i);
      var child := path + [c];
      var next := if child in K then Visit(K, F, child, target, acc, cap) else acc;
      if child in K {
        ExtShrinks(K, path, c);
        VisitOrdered(K, F, child, target, acc, cap);
        VisitFinds(K, F, child, target, acc, cap);
      }
      VisitChildrenOrdered(K, F, path, target, next, cap, i + 1);
      VisitChildrenFind(K, F, path, target, next, cap, i + 1);
      var r := VisitChildren(K, F, path, target, next, cap, i + 1);
      var first, rest := next[|acc|..], r[|next|..];
      assert r[|acc|..] == first + rest;
      forall x, y | x in first && y in rest ensures LexLess(x.word, y.word) {
        ExtendsChild(path, c, x.word);
        LexLessDiverge(path, x.word, y.word);
      }
      LexChainJoin(first, rest);
    }
  }

  /** Once the list has reached the cap, a node adds at most its own word and its children are skipped. */
  lemma PruneStops(K: set<string>, F: map<string, nat>, path: string, target: string,
                   acc: seq<SuggestionResult>, cap: int)
    requires path in K && |acc| >= cap
    ensures var r := Visit(K, F, path, target, acc, cap);
      r == acc || r == acc + [SuggestionResult(path, Lev(path, target), Count(F, path))]
  {
  }

  /** The words of a list of candidates. */
  function Words(s: seq<SuggestionResult>): (r: seq<string>)
    ensures |r| == |s| && forall i | 0 <= i < |s| :: r[i] == s[i].word
  {
    seq(|s|, i requires 0 <= i < |s| => s[i].word)
  }

  /**
   * `getSuggestions(word, maxSuggestions)` on the abstract dictionary `F`: nothing for an
   * empty query; the lower-cased query alone when it is a dictionary word; otherwise the
   * first `maxSuggestions` (none when that is not positive) of the ranked candidates.
   */
  ghost function Suggestions(F: map<string, nat>, word: string, maxSuggestions: int): seq<string>
    requires IsInt32(maxSuggestions)
  {
    if word == "" then []
    else
      var w := LowerStr(word);
      if Contains(F, w) then [w]
      else
        var ranked := RankSort(Visit(Closure(F.Keys), F, "", w, [], Cap(maxSuggestions)));
        Words(ranked[..Max(0, Min(maxSuggestions, |ranked|))])
  }

  /** `w` is offered before `v` for the query `t`: nearer, or as near and more frequent, or tied and lexicographically first. */
  ghost predicate Outranks(F: map<string, nat>, t: string, w: string, v: string)
  {
    || Lev(w, t) < Lev(v, t)
    || (Lev(w, t) == Lev(v, t) && Count(F, w) > Count(F, v))
    || (Lev(w, t) == Lev(v, t) && Count(F, w) == Count(F, v) && LexLess(w, v))
  }

  /**
   * For a non-empty query that is not a dictionary word: at most `max(0, maxSuggestions)`
   * suggestions, each a dictionary word within distance 2 of the lower-cased query, each
   * offered before every later one.
   */
  lemma SuggestionsSound(F: map<string, nat>, word: string, maxSuggestions: int)
    requires IsInt32(maxSuggestions) && word != "" && !Contains(F, LowerStr(word))
    ensures var r, t := Suggestions(F, word, maxSuggestions), LowerStr(word);
      && |r| <= Max(0, maxSuggestions)
      && (forall w | w in r :: w in F && Lev(w, t) <= MAX_EDIT_DISTANCE)
      && (forall a, b | 0 <= a < b < |r| :: Outranks(F, t, r[a], r[b]))
  {
    var t := LowerStr(word);
    var ranked := RankSort(Visit(Closure(F.Keys), F, "", t, [], Cap(maxSuggestions)));
    RankedCandidates(F, t, Cap(maxSuggestions));
    TakeOutranks(F, t, ranked, Max(0, Min(maxSuggestions, |ranked|)));
  }

  /**
   * For a non-empty query that is not a dictionary word, when the walk stays below its
   * cut-off: a dictionary word within distance 2 of the lower-cased query is missing from the
   * suggestions only when they are `max(0, maxSuggestions)` words, each offered before it.
   */
  lemma SuggestionsComplete(F: map<string, nat>, word: string, maxSuggestions: int)
    requires IsInt32(maxSuggestions) && word != "" && !Contains(F, LowerStr(word))
    requires forall k | k in F :: IsKey(k)
    requires |Visit(Closure(F.Keys), F, "", LowerStr(word), [], Cap(maxSuggestions))| < Cap(maxSuggestions)
    ensures var r, t := Suggestions(F, word, maxSuggestions), LowerStr(word);
      forall w | w in F && Lev(w, t) <= MAX_EDIT_DISTANCE && w !in r ::
        |r| == Max(0, maxSuggestions) && forall a | 0 <= a < |r| :: Outranks(F, t, r[a], w)
  {
    var t, cap, K := LowerStr(word), Cap(maxSuggestions), Closure(F.Keys);
    var found := Visit(K, F, "", t, [], cap);
    forall w, k | w in F && 0 <= k <= |w| ensures w[..k] in K {
      ClosureMember(F.Keys, w[..k]);
    }
    VisitComplete(K, F, "", t, [], cap);
    RankedCandidates(F, t, cap);
    RankSortSorts(found);
    assert found[0..] == found;
    var ranked := RankSort(found);
    var n := Max(0, Min(maxSuggestions, |ranked|));
    forall w | w in F && Lev(w, t) <= MAX_EDIT_DISTANCE && w !in Words(ranked[..n])
      ensures n == Max(0, maxSuggestions) && forall a | 0 <= a < n :: Outranks(F, t, Words(ranked[..n])[a], w)
    {
      ListsPermuted(found, ranked, w);
      TakeComplete(F, t, ranked, n, w);
    }
  }

  /** A word listed in a list is listed in every permutation of it. */
  lemma ListsPermuted(a: seq<SuggestionResult>, b: seq<SuggestionResult>, w: string)
    requires multiset(a) == multiset(b) && Lists(a, w)
    ensures Lists(b, w)
  {
    var x :| x in a && x.word == w;
    assert x in multiset(b);
  }

  /**
   * A found word of a ranked list that is not among the words of its first `n` candidates lies
   * further down, behind `n` candidates each offered before it.
   */
  lemma TakeComplete(F: map<string, nat>, t: string, ranked: seq<SuggestionResult>, n: nat, w: string)
    requires Ranked(ranked) && TiesLexOrdered(ranked) && n <= |ranked|
    requires forall k | 0 <= k < |ranked| :: Found(F, t, ranked[k])
    requires Lists(ranked, w) && w !in Words(ranked[..n])
    ensures n < |ranked| && forall a | 0 <= a < n :: Outranks(F, t, Words(ranked[..n])[a], w)
  {
    var r := Words(ranked[..n]);
    var j :| 0 <= j < |ranked| && ranked[j].word == w;
    forall k | 0 <= k < n ensures ranked[k].word != w {
      assert r[k] == ranked[k].word;
    }
    forall a | 0 <= a < n ensures Outranks(F, t, r[a], w) {
      assert r[a] == ranked[a].word;
      assert !Before(ranked[j], ranked[a]);
      assert Found(F, t, ranked[a]) && Found(F, t, ranked[j]);
    }
  }

  /** The ranked candidates of the walk from the root: found words, ranked, ties in lexicographic order. */
  lemma RankedCandidates(F: map<string, nat>, t: string, cap: int)
    ensures "" in Closure(F.Keys)
    ensures var ranked := RankSort(Visit(Closure(F.Keys), F, "", t, [], cap));
      && Ranked(ranked) && TiesLexOrdered(ranked)
      && forall k | 0 <= k < |ranked| :: Found(F, t, ranked[k])
  {
    var K := Closure(F.Keys);
    assert "" in K;
    var found := Visit(K, F, "", t, [], cap);
    VisitFinds(K, F, "", t, [], cap);
    VisitOrdered(K, F, "", t, [], cap);
    assert found[0..] == found;
    var ranked := RankSort(found);
    RankSortSorts(found);
    forall k | 0 <= k < |ranked| ensures Found(F, t, ranked[k]) {
      assert ranked[k] in multiset(ranked);
    }
  }

  /** The words of the first `n` ranked candidates are found words, each offered before every later one. */
  lemma TakeOutranks(F: map<string, nat>, t: string, ranked: seq<SuggestionResult>, n: nat)
    requires Ranked(ranked) && TiesLexOrdered(ranked) && n <= |ranked|
    requires forall k | 0 <= k < |ranked| :: Found(F, t, ranked[k])
    ensures var r := Words(ranked[..n]);
      && (forall w | w in r :: w in F && Lev(w, t) <= MAX_EDIT_DISTANCE)
      && (forall a, b | 0 <= a < b < |r| :: Outranks(F, t, r[a], r[b]))
  {
    var r := Words(ranked[..n]);
    forall w | w in r ensures w in F && Lev(w, t) <= MAX_EDIT_DISTANCE {
      var k :| 0 <= k < |r| && r[k] == w;
      assert Found(F, t, ranked[k]);
    }
    forall a, b | 0 <= a < b < |r| ensures Outranks(F, t, r[a], r[b]) {
      assert r[a] == ranked[a].word && r[b] == ranked[b].word;
      assert !Before(ranked[b], ranked[a]);
      assert Found(F, t, ranked[a]) && Found(F, t, ranked[b]);
    }
  }

  /** The counts after `insert` of each of `words` in turn. */
  function AddWords(F: map<string, nat>, words: seq<string>): map<string, nat>
  {
    if words == [] then F else AddWord(AddWords(F, words[..|words| - 1]), words[|words| - 1])
  }

  /** How many of `words` are non-empty with key `k`. */
  function Hits(words: seq<string>, k: string): nat
  {
    if words == [] then 0
    else Hits(words[..|words| - 1], k) + (if words[|words| - 1] != "" && Normalize(words[|words| - 1]) == k then 1 else 0)
  }

  /** Loading a word list adds to every key's count the number of list words with that key. */
  lemma {:induction false} AddWordsCount(F: map<string, nat>, words: seq<string>, k: string)
    ensures Count(AddWords(F, words), k) == Count(F, k) + Hits(words, k)
  {
    if words != [] {
      AddWordsCount(F, words[..|words| - 1], k);
    }
  }

  /** Inserting the same non-empty word `n` times gives its key a count of `n` more. */
  lemma RepeatCount(F: map<string, nat>, w: string, n: nat)
    requires w != ""
    ensures Count(AddWords(F, seq(n, _ => w)), Normalize(w)) == Count(F, Normalize(w)) + n
  {
    AddWordsCount(F, seq(n, _ => w), Normalize(w));
    RepeatHits(w, n);
  }

  lemma {:induction false} RepeatHits(w: string, n: nat)
    requires w != ""
    ensures Hits(seq(n, _ => w), Normalize(w)) == n
  {
    if n > 0 {
      assert seq(n, _ => w)[..n - 1] == seq(n - 1, _ => w);
      RepeatHits(w, n - 1);
    }
  }

  class AutoCorrect {
    const dictionary: Trie

    ghost predicate Valid()
      reads this, dictionary, dictionary.Nodes, dictionary.Arrays
    {
      dictionary.Valid()
    }

    /** The pieces of the tree's shape that the walk of `collectAllWords` reads. */
    ghost predicate Walkable()
      reads this, dictionary, dictionary.Nodes, dictionary.Arrays
    {
      var d := dictionary;
      Owned(d.root, d.paths, d.owner, d.Nodes, d.Arrays) && Linked(d.paths, d.Arrays) && Marked(d.paths, d.Freq, d.Nodes)
    }

    constructor ()
      ensures Valid() && fresh(dictionary) && fresh(dictionary.Nodes) && fresh(dictionary.Arrays)
      ensures dictionary.Freq == map[]
    {
      dictionary := new Trie();
    }

    /** `loadDictionary(words)`: inserts every word in turn. */
    method LoadDictionary(words: seq<string>)
      requires Valid()
      modifies dictionary, dictionary.Nodes, dictionary.Arrays
      ensures Valid() && dictionary.Freq == AddWords(old(dictionary.Freq), words)
    {
      for i := 0 to |words|
        invariant Valid() && dictionary.Freq == AddWords(old(dictionary.Freq), words[..i])
        invariant forall n | n in dictionary.Nodes :: n in old(dictionary.Nodes) || fresh(n)
        invariant forall a | a in dictionary.Arrays :: a in old(dictionary.Arrays) || fresh(a)
      {
        dictionary.Insert(words[i]);
        assert words[..i + 1][..i] == words[..i];
      }
      assert words[..|words|] == words;
    }

    /** `addWord(word)`: inserts one word. */
    method AddWord(word: string)
      requires Valid()
      modifies dictionary, dictionary.Nodes, dictionary.Arrays
      ensures Valid() && dictionary.Freq == JavaTrie.AddWord(old(dictionary.Freq), word)
    {
      dictionary.Insert(word);
    }

    /** `getSuggestions(word, maxSuggestions)`. */
    method GetSuggestions(word: string, maxSuggestions: int) returns (r: seq<string>)
      requires Valid() && IsInt32(maxSuggestions)
      ensures r == Suggestions(dictionary.Freq, word, maxSuggestions)
      ensures word == "" ==> r == []
      ensures word != "" && Contains(dictionary.Freq, LowerStr(word)) ==> r == [LowerStr(word)]
      ensures var F, t := dictionary.Freq, LowerStr(word);
        word != "" && !Contains(F, t) && |Visit(Closure(F.Keys), F, "", t, [], Cap(maxSuggestions))| < Cap(maxSuggestions) ==>
          forall w | w in F && Lev(w, t) <= MAX_EDIT_DISTANCE && w !in r ::
            |r| == Max(0, maxSuggestions) && forall a | 0 <= a < |r| :: Outranks(F, t, r[a], w)
    {
      if word == "" {
        return [];
      }
      var w := LowerStr(word);
      var hit := dictionary.Search(w);
      if hit {
        return [w];
      }
      if |Visit(Closure(dictionary.Freq.Keys), dictionary.Freq, "", w, [], Cap(maxSuggestions))| < Cap(maxSuggestions) {
        SuggestionsComplete(dictionary.Freq, word, maxSuggestions);
      }
      var suggestions := FindSuggestions(w, [], maxSuggestions);
      var ranked := RankSort(suggestions);
      r := FirstWords(ranked, maxSuggestions);
    }

    /** The closing loop of `getSuggestions`: the words of the first `min(maxSuggestions, |ranked|)` candidates. */
    method FirstWords(ranked: seq<SuggestionResult>, maxSuggestions: int) returns (r: seq<string>)
      ensures |r| == Max(0, Min(maxSuggestions, |ranked|))
      ensures forall k | 0 <= k < |r| :: r[k] == ranked[k].word
    {
      r := [];
      var i := 0;
      while i < Min(maxSuggestions, |ranked|)
        invariant 0 <= i <= Max(0, Min(maxSuggestions, |ranked|))
        invariant |r| == i && forall k | 0 <= k < i :: r[k] == ranked[k].word
      {
        r := r + [ranked[i].word];
        i := i + 1;
      }
    }

    /** `findSuggestions`: the walk from the root with the list `suggestions`. */
    method FindSuggestions(word: string, suggestions: seq<SuggestionResult>, maxSuggestions: int)
      returns (out: seq<SuggestionResult>)
      requires Valid() && IsInt32(maxSuggestions)
      ensures out == Visit(Closure(dictionary.Freq.Keys), dictionary.Freq, "", word, suggestions, Cap(maxSuggestions))
    {
      var d := dictionary;
      Unseal(d.root, d.paths, d.owner, d.Nodes, d.Arrays, d.Freq);
      out := CollectAllWords(d.root, "", word, suggestions, maxSuggestions);
    }

    /**
     * `collectAllWords(node, currentWord, target, suggestions, maxSuggestions)`: the list the
     * recursive walk leaves behind, as `Visit` describes it.
     */
    method CollectAllWords(node: TrieNode?, currentWord: string, target: string,
                           suggestions: seq<SuggestionResult>, maxSuggestions: int)
      returns (out: seq<SuggestionResult>)
      requires Walkable() && IsInt32(maxSuggestions)
      requires node != null ==> currentWord in dictionary.paths && dictionary.paths[currentWord] == node
      ensures node == null ==> out == suggestions
      ensures node != null ==>
        out == Visit(dictionary.paths.Keys, dictionary.Freq, currentWord, target, suggestions, Cap(maxSuggestions))
      decreases Ext(dictionary.paths.Keys, currentWord)
    {
      if node == null {
        return suggestions;
      }
      ghost var K, F, P := dictionary.paths.Keys, dictionary.Freq, dictionary.paths;
      assert P[currentWord].isEndOfWord == (currentWord in F) && P[currentWord].frequency == Count(F, currentWord);
      out := suggestions;
      if node.isEndOfWord {
        var distance := EditDistance(currentWord, target);
        if distance <= MAX_EDIT_DISTANCE {
          out := out + [SuggestionResult(currentWord, distance, node.frequency)];
        }
      }
      if |out| >= Cap(maxSuggestions) {
        return;
      }
      ghost var here := out;
      assert P[currentWord].children.Length == 26;
      for i := 0 to 26
        invariant VisitChildren(K, F, currentWord, target, out, Cap(maxSuggestions), i)
               == VisitChildren(K, F, currentWord, target, here, Cap(maxSuggestions), 0)
      {
        if node.children[i] != null {
          var c := ('a' as int + i) as char;
          assert c == Letter(i);
          assert node.children[i] == Child(P, currentWord, i);
          ExtShrinks(K, currentWord, c);
          out := CollectAllWords(node.children[i], currentWord + [c], target, out, maxSuggestions);
        }
      }
    }

    /** `editDistance(s1, s2)`: the two-row dynamic programme for the Levenshtein distance. */
    method EditDistance(s1: string, s2: string) returns (d: int)
      ensures d == Lev(s1, s2)
    {
      var m, n := |s1|, |s2|;
      if m == 0 {
        return n;
      }
      if n == 0 {
        return m;
      }
      var prev := new int[n + 1];
      var curr := new int[n + 1];
      for j := 0 to n + 1
        invariant forall k | 0 <= k < j :: prev[k] == Lev(s1[..0], s2[..k])
      {
        LevBorder(s1, s2, 0, j);
        prev[j] := j;
      }
      for i := 1 to m + 1
        invariant fresh(prev) && fresh(curr) && prev != curr && prev.Length == n + 1 && curr.Length == n + 1
        invariant forall k | 0 <= k <= n :: prev[k] == Lev(s1[..i - 1], s2[..k])
      {
        FillRow(s1, s2, i, prev, curr);
        prev, curr := curr, prev;
      }
      assert s1[..m] == s1 && s2[..n] == s2;
      return prev[n];
    }

    /** The body of the outer loop of `editDistance`: row `i` of the table into `curr`, from row `i - 1` in `prev`. */
    method FillRow(s1: string, s2: string, i: int, prev: array<int>, curr: array<int>)
      requires 0 < i <= |s1| && prev != curr && prev.Length == curr.Length == |s2| + 1
      requires forall k | 0 <= k <= |s2| :: prev[k] == Lev(s1[..i - 1], s2[..k])
      modifies curr
      ensures forall k | 0 <= k <= |s2| :: curr[k] == Lev(s1[..i], s2[..k])
    {
      var n := |s2|;
      curr[0] := i;
      LevBorder(s1, s2, i, 0);
      for j := 1 to n + 1
        invariant forall k | 0 <= k < j :: curr[k] == Lev(s1[..i], s2[..k])
      {
        LevCell(s1, s2, i, j);
        if s1[i - 1] == s2[j - 1] {
          curr[j] := prev[j - 1];
        } else {
          var insert := curr[j - 1] + 1;
          var delete := prev[j] + 1;
          var replace := prev[j - 1] + 1;
          curr[j] := Min(insert, Min(delete, replace));
        }
      }
    }
  }
}
