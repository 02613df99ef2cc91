/**
 * The candidates of the Java suggestion pipeline (trie_autocorrect.java, class
 * AutoCorrect.SuggestionResult) and the order `getSuggestions` sorts them in: nearer words
 * first, then more frequent ones. `List.sort` is stable, so candidates the comparator calls
 * equal keep the order in which they were collected.
 */
module JavaRanking {
  import opened Text

  /** `SuggestionResult`: a dictionary word, its edit distance to the query and its insertion count. */
  datatype SuggestionResult = SuggestionResult(word: string, distance: int, frequency: int)

  /** The comparator of `getSuggestions` puts `a` strictly before `b`: smaller distance, or equal distance and higher frequency. */
  predicate Before(a: SuggestionResult, b: SuggestionResult)
  {
    a.distance < b.distance || (a.distance == b.distance && a.frequency > b.frequency)
  }

  /** The comparator returns 0: same distance and same frequency. */
  predicate Tie(a: SuggestionResult, b: SuggestionResult)
  {
    a.distance == b.distance && a.frequency == b.frequency
  }

  /** No candidate comes strictly before one that precedes it. */
  predicate Ranked(s: seq<SuggestionResult>)
  {
    forall i, j | 0 <= i < j < |s| :: !Before(s[j], s[i])
  }

  /** Candidates the comparator calls equal appear in lexicographic order of their words. */
  predicate TiesLexOrdered(s: seq<SuggestionResult>)
  {
    forall i, j | 0 <= i < j < |s| && Tie(s[i], s[j]) :: LexLess(s[i].word, s[j].word)
  }

  /**
   * Inserts `x` into a ranked list behind every candidate that does not come strictly after
   * it, so that among equals the later one stays later.
   */
  function InsertRanked(s: seq<SuggestionResult>, x: SuggestionResult): (r: seq<SuggestionResult>)
    ensures multiset(r) == multiset(s) + multiset{x}
  {
    if s == [] || !Before(x, s[|s| - 1]) then s + [x]
    else
      assert s == s[..|s| - 1] + [s[|s| - 1]];
      InsertRanked(s[..|s| - 1], x) + [s[|s| - 1]]
  }

  /** `suggestions.sort(comparator)`: a stable sort, here an insertion sort from the left. */
  function RankSort(s: seq<SuggestionResult>): (r: seq<SuggestionResult>)
    ensures multiset(r) == multiset(s)
  {
    if s == [] then []
    else
      assert s == s[..|s| - 1] + [s[|s| - 1]];
      InsertRanked(RankSort(s[..|s| - 1]), s[|s| - 1])
  }

  /** Inserting into a ranked list keeps it ranked. */
  lemma {:induction false} InsertRankedRanked(s: seq<SuggestionResult>, x: SuggestionResult)
    requires Ranked(s)
    ensures Ranked(InsertRanked(s, x))
  {
    if s != [] && Before(x, s[|s| - 1]) {
      var s', last := s[..|s| - 1], s[|s| - 1];
      InsertRankedRanked(s', x);
      var r' := InsertRanked(s', x);
      forall k | 0 <= k < |r'| ensures !Before(last, r'[k]) {
        assert r'[k] in multiset(r');
        if r'[k] != x {
          assert r'[k] in multiset(s');
          var m :| 0 <= m < |s'| && s'[m] == r'[k];
          assert s[m] == s'[m];
        }
      }
    }
  }

  /**
   * Inserting `x`, which comes lexicographically after every candidate it ties with, keeps
   * the ties in lexicographic order.
   */
  lemma {:induction false} InsertRankedTies(s: seq<SuggestionResult>, x: SuggestionResult)
    requires TiesLexOrdered(s)
    requires forall y | y in s && Tie(y, x) :: LexLess(y.word, x.word)
    ensures TiesLexOrdered(InsertRanked(s, x))
  {
    if s != [] && Before(x, s[|s| - 1]) {
      var s', last := s[..|s| - 1], s[|s| - 1];
      InsertRankedTies(s', x);
      var r' := InsertRanked(s', x);
      forall k | 0 <= k < |r'| && Tie(r'[k], last) ensures LexLess(r'[k].word, last.word) {
        assert r'[k] in multiset(r');
        assert r'[k] != x;
        assert r'[k] in multiset(s');
        var m :| 0 <= m < |s'| && s'[m] == r'[k];
        assert s[m] == s'[m];
      }
    }
  }

  /**
   * The sort is a ranked permutation of its input, and it is stable as far as the words go:
   * candidates collected in lexicographic order stay so among ties.
   */
  lemma {:induction false} RankSortSorts(s: seq<SuggestionResult>)
    ensures Ranked(RankSort(s)) && multiset(RankSort(s)) == multiset(s)
    ensures TiesLexOrdered(s) ==> TiesLexOrdered(RankSort(s))
  {
    if s != [] {
      var s', x := s[..|s| - 1], s[|s| - 1];
      RankSortSorts(s');
      InsertRankedRanked(RankSort(s'), x);
      if TiesLexOrdered(s) {
        assert TiesLexOrdered(s') by {
          forall i, j | 0 <= i < j < |s'| && Tie(s'[i], s'[j]) ensures LexLess(s'[i].word, s'[j].word) {
            assert s[i] == s'[i] && s[j] == s'[j];
          }
        }
        forall y | y in RankSort(s') && Tie(y, x) ensures LexLess(y.word, x.word) {
          assert y in multiset(RankSort(s'));
          assert y in multiset(s');
          var m :| 0 <= m < |s'| && s'[m] == y;
          assert s[m] == y;
        }
        InsertRankedTies(RankSort(s'), x);
      }
    }
  }
}
