/**
 * The C++ front end (trie.cpp, class AutoCorrector): it cleans every dictionary word and
 * every query down to its lower-case letters before the trie sees it. The dictionary file is
 * given as the sequence of words `file >> word` reads from it.
 */
module CppAutoCorrector {
  import opened Text
  import opened WordCounts
  import opened CppRanking
  import opened CppTrie

  /** The words of the dictionary that survive cleaning, cleaned, in file order. */
  function Cleaned(words: seq<string>): (r: seq<string>)
    ensures |r| <= |words|
    ensures forall k | 0 <= k < |r| :: r[k] != "" && IsKey(r[k])
  {
    if words == [] then []
    else
      var w := Normalize(words[|words| - 1]);
      Cleaned(words[..|words| - 1]) + (if w == "" then [] else [w])
  }

  /** The counts after inserting each of `keys`, in order. */
  function InsertAll(F: map<string, nat>, keys: seq<string>): map<string, nat>
  {
    if keys == [] then F else AddKey(InsertAll(F, keys[..|keys| - 1]), keys[|keys| - 1])
  }

  /** One more word of the file adds its cleaned form, unless nothing is left of it. */
  lemma CleanedSnoc(words: seq<string>, i: nat)
    requires i < |words|
    ensures var w := Normalize(words[i]);
      Cleaned(words[..i + 1]) == Cleaned(words[..i]) + (if w == "" then [] else [w])
  {
    assert words[..i + 1][..i] == words[..i];
  }

  lemma InsertAllSnoc(F: map<string, nat>, keys: seq<string>, k: string)
    ensures InsertAll(F, keys + [k]) == AddKey(InsertAll(F, keys), k)
  {
    assert (keys + [k])[..|keys|] == keys;
  }

  /** Each insertion counts: a key's count goes up by the number of times it is inserted. */
  lemma {:induction false} InsertAllCounts(F: map<string, nat>, keys: seq<string>, k: string)
    ensures Count(InsertAll(F, keys), k) == Count(F, k) + multiset(keys)[k]
  {
    if keys != [] {
      var keys', last := keys[..|keys| - 1], keys[|keys| - 1];
      assert keys == keys' + [last];
      InsertAllCounts(F, keys', k);
      AddKeyCounts(InsertAll(F, keys'), last);
    }
  }

  /** After loading, every word of the file that has a letter is in the dictionary, under its cleaned form. */
  lemma LoadedWord(F: map<string, nat>, words: seq<string>, i: nat)
    requires i < |words| && Normalize(words[i]) != ""
    ensures Normalize(words[i]) in InsertAll(F, Cleaned(words))
  {
    CleanedHas(words, i);
    InsertAllCounts(F, Cleaned(words), Normalize(words[i]));
  }

  lemma {:induction false} CleanedHas(words: seq<string>, i: nat)
    requires i < |words| && Normalize(words[i]) != ""
    ensures Normalize(words[i]) in Cleaned(words)
  {
    var words' := words[..|words| - 1];
    if i < |words| - 1 {
      assert words'[i] == words[i];
      CleanedHas(words', i);
    }
  }

  /**
   * The cleaning loop of `loadDictionary` and `correctWord`: keeps each character for which
   * `isalpha` holds, passed through `tolower`; the result is the word's key.
   */
  method CleanWord(word: string) returns (cleanWord: string)
    ensures cleanWord == Normalize(word)
  {
    cleanWord := "";
    for i := 0 to |word|
      invariant cleanWord == Normalize(word[..i])
    {
      var ch := word[i];
      assert word[..i + 1] == word[..i] + [ch];
      NormalizeSnoc(word[..i], ch);
      if IsAlpha(ch) {
        cleanWord := cleanWord + [ToLower(ch)];
      }
    }
    assert word[..|word|] == word;
  }

  class AutoCorrector {
    const trie: Trie

    ghost predicate Valid()
      reads this, trie, trie.Nodes
    {
      trie.Valid()
    }

    /** `AutoCorrector(dictFile)`: an empty trie, then the words of the dictionary file. */
    constructor (words: seq<string>)
      ensures Valid() && fresh(trie) && fresh(trie.Nodes)
      ensures trie.Freq == InsertAll(map[], Cleaned(words))
    {
      trie := new Trie();
      new;
      var count := LoadDictionary(words);
    }

    /**
     * `loadDictionary()` on the words of the file: inserts the cleaned form of each word that
     * has a letter, and counts the insertions.
     */
    method LoadDictionary(words: seq<string>) returns (count: int)
      requires Valid()
      modifies trie, trie.Nodes
      ensures Valid() && forall n | n in trie.Nodes :: n in old(trie.Nodes) || fresh(n)
      ensures trie.Freq == InsertAll(old(trie.Freq), Cleaned(words))
      ensures count == |Cleaned(words)|
    {
      count := 0;
      for i := 0 to |words|
        invariant Valid() && forall n | n in trie.Nodes :: n in old(trie.Nodes) || fresh(n)
        invariant trie.Freq == InsertAll(old(trie.Freq), Cleaned(words[..i]))
        invariant count == |Cleaned(words[..i])|
      {
        var cleanWord := CleanWord(words[i]);
        CleanedSnoc(words, i);
        ghost var done := Cleaned(words[..i]);
        if |cleanWord| > 0 {
          InsertAllSnoc(old(trie.Freq), done, cleanWord);
          trie.Insert(cleanWord);
          count := count + 1;
          assert Cleaned(words[..i + 1]) == done + [cleanWord];
        } else {
          assert Cleaned(words[..i + 1]) == done;
        }
      }
      assert words[..|words|] == words;
    }

    /**
     * `correctWord(word)`: nothing for a query without letters; otherwise the trie's
     * suggestions for the query's key, at most two edits away.
     */
    method CorrectWord(word: string) returns (r: seq<string>)
      requires Valid()
      ensures Normalize(word) == "" ==> r == []
      ensures Normalize(word) != "" && Normalize(word) in trie.Freq ==> r == [Normalize(word)]
      ensures Normalize(word) != "" && Normalize(word) !in trie.Freq ==>
        Suggests(trie.Freq, Within(trie.Freq, "", Normalize(word), 2), r)
    {
      var cleanWord := CleanWord(word);
      if cleanWord == "" {
        return [];
      }
      r := trie.AutoCorrect(cleanWord);
    }
  }
}
