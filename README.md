# Trie-based spelling suggestions, modelled in Dafny

The repository holds two versions of one spelling-suggestion engine. Both keep a dictionary
in a prefix tree (trie) whose nodes carry an end-of-word flag and an insertion counter. For a
misspelt query, both walk the whole tree and collect the stored words within a small edit
distance, then rank them:

- `trie_autocorrect.java`: a tree with 26 child slots per node, fed with lower-cased
  words whose non-letters are skipped. `AutoCorrect` keeps the words within Levenshtein
  distance 2 of the lower-cased query. It stops descending once it holds
  `maxSuggestions * 10` candidates. It ranks by distance, then by frequency (a stable
  sort), and returns the first `maxSuggestions` words.
- `trie.cpp`: a tree with a sparse `unordered_map` of children per node. The tree
  takes characters verbatim, but `AutoCorrector` cleans every dictionary word and query
  down to its lower-case letters first. `autoCorrect` reports each stored word within
  `maxDist` edits of the query once. It computes the distance with a two-row table that
  gives up early when a whole row exceeds the bound. It sorts by frequency alone and
  returns the first five words.

The model keeps the source's classes as Dafny classes: nodes with mutable fields, a `Trie`
owning a root, and the engine owning a `Trie`. Each method carries the source's loops with
their invariants. Every tree is specified against two ghost values:

- `Freq`: each stored key with its insertion count;
- `paths`: each path of the tree with its node.

A sealed shape predicate ties the heap to those values. The abstract level (`Lev`,
`Normalize`, `AddKey`, `Closure`, the walk function `Visit`, the sorts) carries the lemmas
that state what the engines promise. Those promises include:

- a word is found after it is inserted, under its key;
- insertion counts;
- the dynamic programmes compute the Levenshtein distance;
- the early exit of `minEditDistance` is sound;
- the Java walk collects only words within distance 2, in lexicographic order. While it stays
  below its cut-off it collects every such word;
- the C++ walk collects each qualifying word exactly once, whatever order the child map
  yields;
- each ranking is a sorted permutation;
- the returned words are the best-ranked candidates. For Java this holds while the walk
  stays below the cut-off.

Modules: `Text` (character classes, ASCII folding, keys, lexicographic order),
`Levenshtein`, `WordCounts` (counts and path sets), `JavaTrieNode`, `JavaTrie`,
`JavaRanking`, `JavaAutoCorrect`, `CppTrieNode`, `CppTrie`, `CppRanking`,
`CppAutoCorrector`.

Behaviours of the code that the model keeps as written:

- Java `insert` of a non-empty word without letters (`"123"`) marks the root. From then on,
  `search("123")` is true.
- Java `getSuggestions` measures distances against the lower-cased query with its
  non-letters still in it. Only the dictionary lookup skips them.
- Against {`program` ×3, `problem` ×1}, the query `progrm` yields only `program`, because
  `problem` is 3 edits away, beyond the bound of 2.
- C++ `minEditDistance` returns `maxDist + 1` when the length gap or a whole row exceeds the
  bound. Otherwise it returns the last cell, which can itself exceed `maxDist` (`"ba"`
  against `"acd"` with bound 1: both row minima are 1, and the result is 3). Callers only
  compare the result with `maxDist`, so nothing is reported wrongly.
- `findSuggestions` (`trie_autocorrect.java:130`) names a field `root` that `AutoCorrect`
  does not declare. The model starts the walk at the root of the engine's dictionary, which
  is evidently the intent.

## Model

| member | source | states |
|---|---|---|
| Text.ToLower | trie_autocorrect.java:40 | a capital folds to its own lower-case letter, and every other character, digits, spaces and punctuation included, comes back unchanged; the result is a lower-case letter exactly when the input is a letter |
| Text.LowerStr | trie_autocorrect.java:111 | `toLowerCase`: same length, each character folded by `ToLower` |
| Text.LowerStrIdempotent | trie_autocorrect.java:63 | lower-casing an already lower-cased query (as `search` does after `getSuggestions`) changes nothing |
| Text.Letters | trie_autocorrect.java:42-46 | the characters the walk keeps form a key no longer than the word |
| Text.LettersSnoc | trie_autocorrect.java:42-46 | one more character extends the walked key by itself exactly when it lies in 'a'..'z' |
| Text.Normalize | trie_autocorrect.java:40-46 | the key of any word consists of lower-case letters only |
| Text.NormalizeSnoc | trie.cpp:151-155 | cleaning one more character appends its lower-case form exactly when it is a letter, so filter-then-lower (C++) equals lower-then-filter (Java) |
| Text.NormalizeIdempotent | trie_autocorrect.java:59-66 | a key is its own key: `search("ab")` after `insert("a1B")` looks up the stored key, and the C++ trie sees a cleaned query (trie.cpp:173-183) unchanged |
| Text.NormalizeLower | trie_autocorrect.java:63-64 | lower-casing before taking the key changes nothing |
| Text.NormalizeExample | trie_autocorrect.java:44-46 | the word "a1B" has the key "ab" |
| Text.LexLessDiverge | trie_autocorrect.java:145-149 | a node's own path precedes its extensions, and extensions are ordered by the next letter, which is the slot order of the walk |
| Levenshtein.LevBounds | trie_autocorrect.java:152-179 | the distance lies between the length gap and the longer length |
| Levenshtein.LevEmpty | trie_autocorrect.java:155-156 | the distance to or from the empty string is the other string's length |
| Levenshtein.LevSelf | trie_autocorrect.java:152-179 | a word is at distance 0 from itself |
| Levenshtein.LevSymmetric | trie.cpp:65 | the distance does not depend on argument order (Java measures word to query, C++ query to word) |
| Levenshtein.LevMatch | trie_autocorrect.java:165-166 | equal last characters cost nothing |
| Levenshtein.LevCell | trie_autocorrect.java:164-173 | each table cell follows from its three neighbours as the inner loop computes it |
| Levenshtein.NextRowCellAtLeast | trie.cpp:49-56 | a lower bound on a whole row bounds every cell of the next row |
| Levenshtein.RowAtLeastPropagates | trie.cpp:57 | a row whose minimum exceeds the bound proves the final distance exceeds it, so the early exit is sound |
| WordCounts.AddKeyCounts | trie.cpp:95-99 | an insertion adds its key, raises its count by one, grows the distinct-word count exactly when the key is new, and leaves every other count alone |
| WordCounts.ClosureMember | trie.cpp:87-94 | a string is a path of the tree exactly when it is empty or begins a stored key |
| WordCounts.ClosureAdd | trie.cpp:89-94 | inserting a key adds exactly its prefixes to the paths |
| WordCounts.GrowClosed | trie.cpp:90-92 | a new child below an existing path keeps every path's parent present |
| WordCounts.MissingExtension | trie.cpp:105-106 | once a prefix is missing, no word extending it is stored, so stopping early is sound |
| WordCounts.GrownPaths | trie.cpp:88-94 | a walk that only created prefixes of the key added exactly the key's prefixes |
| WordCounts.ExtShrinks | trie.cpp:72-74 | descending into a child strictly shrinks the set of paths below, so the recursion ends |
| WordCounts.AddKeyPositive | trie_autocorrect.java:53-57 | after an insertion every stored key has a positive count and a node |
| JavaTrieNode.Letter | trie_autocorrect.java:147 | slot `i` holds a lower-case letter |
| JavaTrieNode.Slot | trie_autocorrect.java:47 | the slot of a letter is in 0..25, and `Letter` maps it back to the letter |
| JavaTrieNode.TrieNode.constructor | trie_autocorrect.java:5-9 | a fresh node has 26 empty slots, no end mark and count 0 |
| JavaTrieNode.TrieNode.SetEndOfWord | trie_autocorrect.java:16-18 | sets the end mark and leaves the count alone |
| JavaTrieNode.TrieNode.SetFrequency | trie_autocorrect.java:22-24 | sets the count and leaves the end mark alone |
| JavaTrieNode.TrieNode.IncrementFrequency | trie_autocorrect.java:25-27 | adds one to the count and leaves the end mark alone |
| JavaTrieNode.GrowOwned | trie_autocorrect.java:48-50 | a fresh node at a fresh path keeps every node and slot array owned by exactly one path |
| JavaTrieNode.GrowMarked | trie_autocorrect.java:48-50 | a fresh, unmarked node keeps every mark in agreement with the counts |
| JavaTrieNode.Grow | trie_autocorrect.java:48-50 | a fresh node hung in its slot restores the whole tree shape |
| JavaTrieNode.Hang | trie_autocorrect.java:49 | the slot write makes the fresh node the child for its letter, and every slot then matches the grown path map |
| JavaTrieNode.MarkedElsewhere | trie_autocorrect.java:53-57 | before the last node is marked, every other node already agrees with the new counts |
| JavaTrieNode.Remarked | trie_autocorrect.java:53-57 | once the last node agrees too, the whole tree's marks agree with the new counts |
| JavaTrie.AddWord | trie_autocorrect.java:36-58 | an empty word changes nothing; any other word adds one to the count of its key and to no other count |
| JavaTrie.Contains | trie_autocorrect.java:59-66 | what `search` answers: the word is non-empty and its key is stored |
| JavaTrie.HasPrefix | trie_autocorrect.java:67-73 | what `startsWith` answers: the prefix is non-empty and its key is a path of the tree |
| JavaTrie.AddWordKeys | trie_autocorrect.java:40-46 | `insert` stores nothing but strings of lower-case letters |
| JavaTrie.InsertThenSearch | trie_autocorrect.java:36-73 | after inserting a non-empty word, `search` and `startsWith` hold for every non-empty word with the same key |
| JavaTrie.InsertMixedThenSearch | trie_autocorrect.java:42-46 | after inserting "a1B", `search("ab")` holds |
| JavaTrie.InsertKeeps | trie_autocorrect.java:36-73 | insertion loses no word and no prefix |
| JavaTrie.SearchThenStartsWith | trie_autocorrect.java:59-73 | every word `search` finds is a prefix `startsWith` finds |
| JavaTrie.Trie.constructor | trie_autocorrect.java:32-35 | a new trie holds no words and a count of 0 |
| JavaTrie.Trie.Insert | trie_autocorrect.java:36-58 | the counts become `AddWord` of the old counts; `wordCount` grows exactly when a new key is stored; no path is lost; the shape is kept, and every stored key stays a string of lower-case letters |
| JavaTrie.Trie.Descend | trie_autocorrect.java:40-52 | the walk ends at the node of the word's letters and adds only prefixes of that key |
| JavaTrie.Trie.Step | trie_autocorrect.java:47-51 | one letter of the walk reaches the child path, creating only that path |
| JavaTrie.Trie.AddChild | trie_autocorrect.java:48-50 | hangs a fresh node at the child path and keeps the shape |
| JavaTrie.Trie.Record | trie_autocorrect.java:53-57 | marking the last node adds one insertion of its key and counts a new key once |
| JavaTrie.Trie.Tally | trie_autocorrect.java:53-57 | the marks agree with the counts after one more insertion of the key |
| JavaTrie.Trie.MarkEnd | trie_autocorrect.java:53-57 | the node becomes a word end, its count goes up by one, and `wordCount` goes up exactly when it was not a word end |
| JavaTrie.Trie.RootAt | trie_autocorrect.java:33 | the root sits at the empty path |
| JavaTrie.Trie.SearchNode | trie_autocorrect.java:74-88 | returns a node exactly when the word's letters form a path, and then that path's node |
| JavaTrie.Trie.Search | trie_autocorrect.java:59-66 | true exactly when the word is non-empty and its key was inserted |
| JavaTrie.Trie.StartsWith | trie_autocorrect.java:67-73 | true exactly when the prefix is non-empty and its key is a path of the tree: empty, or the beginning of a stored key |
| JavaTrie.Trie.GetWordCount | trie_autocorrect.java:89-91 | the number of distinct stored keys |
| JavaRanking.Before | trie_autocorrect.java:117-122 | the comparator of `SuggestionResult`s (trie_autocorrect.java:180-189) puts `a` first: smaller distance, or equal distance and higher frequency |
| JavaRanking.InsertRanked | trie_autocorrect.java:117-122 | insertion into the candidate list adds exactly the new candidate |
| JavaRanking.RankSort | trie_autocorrect.java:117-122 | the sort is a permutation of the candidates |
| JavaRanking.InsertRankedRanked | trie_autocorrect.java:117-122 | inserting into a ranked list keeps it ranked by distance, then frequency |
| JavaRanking.InsertRankedTies | trie_autocorrect.java:117-122 | inserting behind equal candidates keeps ties in collection order |
| JavaRanking.RankSortSorts | trie_autocorrect.java:117-122 | the sort is a ranked permutation, and it is stable: candidates collected in lexicographic order keep that order among ties |
| JavaAutoCorrect.Wrap32 | trie_autocorrect.java:142 | Java `int` arithmetic: the result is a 32-bit value congruent to the exact one, and equal to it when it fits |
| JavaAutoCorrect.Cap | trie_autocorrect.java:142 | the cut-off `maxSuggestions * 10` is a 32-bit value, equal to the exact product when that fits |
| JavaAutoCorrect.Visit | trie_autocorrect.java:132-151 | the list `collectAllWords` leaves behind at a node: its word appended when stored and within `MAX_EDIT_DISTANCE` (2, trie_autocorrect.java:95), then, unless the cut-off is reached, its children in slot order |
| JavaAutoCorrect.VisitChildren | trie_autocorrect.java:145-150 | the loop over the child slots `i`..25, each present child visited in turn |
| JavaAutoCorrect.VisitFinds | trie_autocorrect.java:132-151 | the walk only appends, and only stored words within distance 2 below its path, with their distances and counts |
| JavaAutoCorrect.VisitChildrenFind | trie_autocorrect.java:145-150 | the slot loop appends only such words, each continuing the path with the letter of a slot not yet visited |
| JavaAutoCorrect.VisitOrdered | trie_autocorrect.java:132-151 | the walk appends words in strictly increasing lexicographic order |
| JavaAutoCorrect.VisitChildrenOrdered | trie_autocorrect.java:145-150 | the slot loop appends in strictly increasing lexicographic order, a child's words before the next child's |
| JavaAutoCorrect.VisitComplete | trie_autocorrect.java:132-151 | a walk that ends below the cut-off has appended every stored word below its node within distance 2 |
| JavaAutoCorrect.VisitChildrenComplete | trie_autocorrect.java:145-150 | the slot loop, ending below the cut-off, has appended every stored word within distance 2 below a child in slots `i`..25 |
| JavaAutoCorrect.PruneStops | trie_autocorrect.java:142-144 | once the list has reached the cut-off, a node adds at most its own word and none of its children's |
| JavaAutoCorrect.Words | trie_autocorrect.java:123-126 | the word of each candidate, in order |
| JavaAutoCorrect.Suggestions | trie_autocorrect.java:107-128 | the result of `getSuggestions` on the abstract dictionary: nothing for an empty query, the lower-cased query alone when it is stored, otherwise the words of the first `maxSuggestions` ranked candidates of the walk |
| JavaAutoCorrect.SuggestionsSound | trie_autocorrect.java:107-128 | for a non-empty query that is not a word: at most `max(0, maxSuggestions)` suggestions, each a stored word within distance 2 of the lower-cased query, each ranked no lower than every later one |
| JavaAutoCorrect.SuggestionsComplete | trie_autocorrect.java:107-151 | when the walk stays below its cut-off, a stored word within distance 2 of the lower-cased query is left out only when `max(0, maxSuggestions)` words are returned, each offered before it |
| JavaAutoCorrect.TakeComplete | trie_autocorrect.java:123-126 | a candidate of the ranked list that the closing loop does not take lies behind all the taken ones, each offered before it |
| JavaAutoCorrect.RankedCandidates | trie_autocorrect.java:115-122 | the sorted candidates of the walk from the root are found words, ranked, with ties in lexicographic order |
| JavaAutoCorrect.TakeOutranks | trie_autocorrect.java:123-126 | the first `n` ranked candidates are found words, each offered before every later one |
| JavaAutoCorrect.AddWordsCount | trie_autocorrect.java:99-103 | loading a list adds to each key's count the number of non-empty list words with that key |
| JavaAutoCorrect.RepeatCount | trie_autocorrect.java:99-106 | inserting the same non-empty word `n` times raises its key's count by exactly `n` |
| JavaAutoCorrect.AutoCorrect.constructor | trie_autocorrect.java:96-98 | a new engine has an empty dictionary |
| JavaAutoCorrect.AutoCorrect.LoadDictionary | trie_autocorrect.java:99-103 | the counts become those after inserting every word in turn |
| JavaAutoCorrect.AutoCorrect.AddWord | trie_autocorrect.java:104-106 | the counts become those after inserting the word |
| JavaAutoCorrect.AutoCorrect.GetSuggestions | trie_autocorrect.java:107-128 | the result is `Suggestions` of the counts: nothing for an empty query, the lower-cased query alone when it is stored, otherwise the first ranked candidates; below the cut-off, no stored word within distance 2 is left out unless the result is full and each returned word is offered before it |
| JavaAutoCorrect.AutoCorrect.FirstWords | trie_autocorrect.java:123-126 | the words of the first `max(0, min(maxSuggestions, size))` candidates, in order |
| JavaAutoCorrect.AutoCorrect.FindSuggestions | trie_autocorrect.java:129-131 | the list after the walk from the root with the cut-off `Cap(maxSuggestions)` |
| JavaAutoCorrect.AutoCorrect.CollectAllWords | trie_autocorrect.java:132-151 | a null node leaves the list alone; otherwise the list is what `Visit` says the pruned walk leaves behind |
| JavaAutoCorrect.AutoCorrect.EditDistance | trie_autocorrect.java:152-179 | the two-row programme returns the Levenshtein distance |
| JavaAutoCorrect.AutoCorrect.FillRow | trie_autocorrect.java:163-173 | from row `i - 1` of the table, fills row `i` with the distances of the prefixes |
| CppTrieNode.TrieNode.constructor | trie.cpp:17-20 | a fresh node has no children, no end mark and count 0 |
| CppTrieNode.Grow | trie.cpp:90-92 | a fresh, unmarked node entered in its parent's map restores the whole tree shape |
| CppTrieNode.Hang | trie.cpp:91 | the map write makes the fresh node the child for its character, and every child map then matches the grown path map |
| CppTrieNode.MarkedElsewhere | trie.cpp:95-99 | before the last node is marked, every other node already agrees with the new counts |
| CppTrieNode.Remarked | trie.cpp:95-99 | once the last node agrees too, the whole tree's marks agree with the new counts |
| CppTrie.Within | trie.cpp:62-75 | the words `dfsSearch` reports below a path: stored, non-empty, extending the path and within `maxDist` of the target |
| CppTrie.WithinChild | trie.cpp:72-74 | the words reported below a child are those below its parent that continue with the child's character |
| CppTrie.WithinSplit | trie.cpp:62-75 | the words reported below a node are its own word, when it qualifies, and the words below its children |
| CppTrie.BelowAdd | trie.cpp:72-74 | visiting one more child adds exactly the words below that child |
| CppTrie.Cell | trie.cpp:49-54 | the cell the inner loop writes is the distance of the two prefixes |
| CppTrie.GapExceeds | trie.cpp:39 | words whose lengths differ by more than the bound are more than the bound apart |
| CppTrie.Trie.constructor | trie.cpp:78-81 | a new trie holds no words and `totalWords` is 0 |
| CppTrie.Trie.Insert | trie.cpp:87-100 | the word (the empty word included) is stored with its count raised by one, no other count changes, `totalWords` grows exactly when the word is new, no path is lost, and the shape is kept |
| CppTrie.Trie.Descend | trie.cpp:88-94 | the walk ends at the node of the word and adds only prefixes of it |
| CppTrie.Trie.Step | trie.cpp:89-94 | one character of the walk reaches the child path, creating only that path |
| CppTrie.Trie.AddChild | trie.cpp:90-92 | enters a fresh node under the character and keeps the shape |
| CppTrie.Trie.Record | trie.cpp:95-99 | marking the last node adds one insertion of its word and counts a new word once |
| CppTrie.Trie.Tally | trie.cpp:95-99 | the marks agree with the counts after one more insertion of the word |
| CppTrie.Trie.MarkEnd | trie.cpp:95-99 | the node becomes a word end, its count goes up by one, and `totalWords` goes up exactly when it was not a word end |
| CppTrie.Trie.RootAt | trie.cpp:79 | the root sits at the empty path |
| CppTrie.Trie.MarkOf | trie.cpp:110 | a path's node is a word end exactly when the path is a stored word, and its counter is that word's count |
| CppTrie.Trie.ChildrenOf | trie.cpp:72-74 | a node's child map has an entry exactly for the characters that extend its path, each leading to that path's node |
| CppTrie.Trie.Search | trie.cpp:102-111 | true exactly when the word was inserted |
| CppTrie.Trie.MinEditDistance | trie.cpp:36-60 | the Levenshtein distance, or `maxDist + 1` when the distance exceeds `maxDist`; always `maxDist + 1` when the length gap exceeds it |
| CppTrie.Trie.NextRow | trie.cpp:44-56 | fills row `i` with the distances of the prefixes, and returns that row's minimum: a lower bound of the row that some cell attains |
| CppTrie.Trie.DfsSearch | trie.cpp:62-75 | `seen` grows by exactly the stored non-empty words below the node within `maxDist` of the target; the appended results are those words, each once, with their counts |
| CppTrie.Trie.CheckWord | trie.cpp:63-71 | reports the node's own word, with its count, exactly when it is stored, non-empty, unseen and within `maxDist` |
| CppTrie.Trie.AutoCorrect | trie.cpp:113-129 | the word alone when it is stored; otherwise the `min(5, n)` most frequent of the `n` stored words within `maxDist`, each once, most frequent first |
| CppTrie.Trie.FirstWords | trie.cpp:123-127 | the words of the first `min(5, size)` candidates, in order |
| CppTrie.Trie.GetWordCount | trie.cpp:131-133 | the number of distinct stored words |
| CppRanking.ByFreq | trie.cpp:120-122 | the comparator `a.second > b.second`, as an order on the whole list: no candidate more frequent than one before it |
| CppRanking.InsertByFreq | trie.cpp:120-122 | insertion into the candidate list adds exactly the new candidate |
| CppRanking.FreqSort | trie.cpp:120-122 | the sort is a permutation of the candidates |
| CppRanking.InsertByFreqSorted | trie.cpp:120-122 | inserting into a list sorted by frequency keeps it sorted |
| CppRanking.FreqSortSorts | trie.cpp:120-122 | the sort is a permutation, most frequent first |
| CppRanking.KeysCount | trie.cpp:118 | a candidate list has as many distinct words as entries exactly when no word repeats |
| CppRanking.Permuted | trie.cpp:120-122 | sorting keeps the set of words, each word's count and the absence of repeats |
| CppRanking.Appended | trie.cpp:72-74 | two rounds of collection into the shared `results` and `seen`, each adding its new words once with their counts, make one such round |
| CppRanking.Suggests | trie.cpp:113-129 | what `autoCorrect` returns for a query that is not stored: `min(LIMIT, n)` of the `n` candidates (`LIMIT` = 5, trie.cpp:124), none twice, most frequent first, none left out more frequent than one returned |
| CppRanking.TopByFreq | trie.cpp:117-128 | sorting the collected candidates and taking the first five words gives the most frequent candidates, whatever order equal counts take |
| CppAutoCorrector.Cleaned | trie.cpp:149-159 | the words inserted from the file are non-empty keys, at most one per file word |
| CppAutoCorrector.CleanedSnoc | trie.cpp:149-159 | one more file word adds its cleaned form, unless no letter is left |
| CppAutoCorrector.InsertAllCounts | trie.cpp:149-159 | loading raises each key's count by the number of times it is inserted |
| CppAutoCorrector.LoadedWord | trie.cpp:141-164 | every file word with a letter is in the dictionary after loading, under its cleaned form |
| CppAutoCorrector.CleanWord | trie.cpp:174-179 | the cleaning loop yields the word's key: its letters, lower-cased |
| CppAutoCorrector.AutoCorrector.constructor | trie.cpp:167-171 | the dictionary holds the cleaned words of the file, counted |
| CppAutoCorrector.AutoCorrector.LoadDictionary | trie.cpp:141-164 | inserts the cleaned form of each file word that has a letter, and counts the insertions |
| CppAutoCorrector.AutoCorrector.CorrectWord | trie.cpp:173-184 | nothing for a query without letters; the cleaned query alone when it is stored; otherwise the top suggestions within 2 edits of the cleaned query |

## Left out

- The demonstration and measurement code is not modelled. This covers `SpellCheckerSystem` (query and accuracy counters, console output) and the Java dictionary generator and `main`. On the C++ side it covers `runBenchmark`, `interactiveMode` and `main`. All of it is I/O and timing around the core.
- C++ `loadDictionary`: the model takes the file as the sequence of words that `file >> word` reads. Opening the file, the failure path when it cannot be opened, the `bool` result and the console messages are left out.
- C++ `deleteTrieNode` and `~Trie` are not modelled. Memory is not reclaimed explicitly in Dafny.
- Java `getChildren`, `isEndOfWord` and `getFrequency` have no members of their own. The model reads the fields directly.
- Character handling covers ASCII only. `toLowerCase`, `isalpha` and `tolower` are modelled as ASCII folding, with no locale or Unicode case mapping.
- Null strings do not exist in Dafny. The source treats a null word like an empty one, and so does the model.
- JavaTrie.Trie.Insert: does not model 32-bit wrap-around of `frequency` or `wordCount`, because more than 2^31 insertions are out of reach of an in-memory dictionary. The Java cut-off `maxSuggestions * 10` does wrap, in `Cap`.
- CppTrie.Trie.Insert: does not model 32-bit wrap-around of `frequency` or `totalWords`, for the same reason. `maxDist + 1` is not wrapped either.
- CppTrie.Trie.MinEditDistance: when the distance exceeds `maxDist`, the contract does not say whether `maxDist + 1` or the exact distance comes back. That depends on the row minima, and every caller only compares the result with `maxDist`.
- CppTrie.Trie.DfsSearch: the order of the appended results is left open, because `unordered_map` iteration order is unspecified. The model picks each next child nondeterministically.
- CppTrie.Trie.AutoCorrect: the order among suggestions of equal frequency is left open, because `std::sort` is not stable. The model sorts with one particular insertion sort, and every property is proved for any order a correct sort may produce.
