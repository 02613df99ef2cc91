/**
 * The candidates of the C++ suggestion pipeline (trie.cpp, `Trie::autoCorrect`): pairs of a
 * word and its insertion count, sorted by count alone, most frequent first, of which the first
 * five words are returned. `std::sort` is not stable, so the order of candidates with equal
 * counts is unspecified; the model sorts them in one particular order, and the properties
 * proved here hold for every order a correct sort may produce.
 */
module CppRanking {
  import opened Levenshtein
  import opened WordCounts

  /** `pair<string,int>`: a word and its frequency. */
  type Candidate = (string, int)

  /** `autoCorrect` keeps at most this many suggestions. */
  const LIMIT := 5

  /** The words of a candidate list. */
  ghost function Keys(s: seq<Candidate>): set<string>
  {
    set k | 0 <= k < |s| :: s[k].0
  }

  /** No word appears twice. */
  ghost predicate NoRepeats(s: seq<Candidate>)
  {
    forall i, j | 0 <= i < j < |s| :: s[i].0 != s[j].0
  }

  /** Every candidate carries the insertion count of its word. */
  ghost predicate Tagged(s: seq<Candidate>, F: map<string, nat>)
  {
    forall k | 0 <= k < |s| :: s[k].0 in F && s[k].1 == F[s[k].0]
  }

  /** The comparator `a.second > b.second`: no candidate is strictly more frequent than one before it. */
  predicate ByFreq(s: seq<Candidate>)
  {
    forall i, j | 0 <= i < j < |s| :: s[i].1 >= s[j].1
  }

  /** Inserts `x` behind every candidate at least as frequent. */
  function InsertByFreq(s: seq<Candidate>, x: Candidate): (r: seq<Candidate>)
    ensures multiset(r) == multiset(s) + multiset{x}
  {
    if s == [] || x.1 <= s[|s| - 1].1 then s + [x]
    else
      assert s == s[..|s| - 1] + [s[|s| - 1]];
      InsertByFreq(s[..|s| - 1], x) + [s[|s| - 1]]
  }

  /** `std::sort` with the frequency comparator, here an insertion sort from the left. */
  function FreqSort(s: seq<Candidate>): (r: seq<Candidate>)
    ensures multiset(r) == multiset(s)
  {
    if s == [] then []
    else
      assert s == s[..|s| - 1] + [s[|s| - 1]];
      InsertByFreq(FreqSort(s[..|s| - 1]), s[|s| - 1])
  }

  /** Inserting into a list sorted by frequency keeps it sorted. */
  lemma {:induction false} InsertByFreqSorted(s: seq<Candidate>, x: Candidate)
    requires ByFreq(s)
    ensures ByFreq(InsertByFreq(s, x))
  {
    if s != [] && x.1 > s[|s| - 1].1 {
      var s', last := s[..|s| - 1], s[|s| - 1];
      InsertByFreqSorted(s', x);
      var r' := InsertByFreq(s', x);
      forall k | 0 <= k < |r'| ensures r'[k].1 >= last.1 {
        assert r'[k] in multiset(r');
        if r'[k] != x {
          assert r'[k] in multiset(s');
          var m :| 0 <= m < |s'| && s'[m] == r'[k];
          assert s[m] == s'[m];
        }
      }
    }
  }

  /** The sort yields a permutation of its input, most frequent first. */
  lemma {:induction false} FreqSortSorts(s: seq<Candidate>)
    ensures ByFreq(FreqSort(s)) && multiset(FreqSort(s)) == multiset(s)
  {
    if s != [] {
      FreqSortSorts(s[..|s| - 1]);
      InsertByFreqSorted(FreqSort(s[..|s| - 1]), s[|s| - 1]);
    }
  }

  /** The words of a list with one more candidate, and when that list is still free of repeats. */
  lemma KeysSnoc(s: seq<Candidate>)
    requires s != []
    ensures var s', x := s[..|s| - 1], s[|s| - 1];
      && Keys(s) == Keys(s') + {x.0}
      && (NoRepeats(s) <==> NoRepeats(s') && x.0 !in Keys(s'))
  {
    var s', x := s[..|s| - 1], s[|s| - 1];
    assert forall k | 0 <= k < |s'| :: s'[k] == s[k];
    if !NoRepeats(s) {
      var i, j :| 0 <= i < j < |s| && s[i].0 == s[j].0;
      if j == |s| - 1 {
        assert s'[i].0 == x.0;
      }
    }
  }

  /** A list has as many distinct words as entries exactly when no word repeats. */
  lemma {:induction false} KeysCount(s: seq<Candidate>)
    ensures |Keys(s)| <= |s|
    ensures NoRepeats(s) <==> |Keys(s)| == |s|
  {
    if s != [] {
      KeysCount(s[..|s| - 1]);
      KeysSnoc(s);
    }
  }

  /** A permutation has the same words, the same tags and, when its source has none, no repeats. */
  lemma Permuted(s: seq<Candidate>, t: seq<Candidate>, F: map<string, nat>)
    requires multiset(s) == multiset(t)
    ensures Keys(s) == Keys(t)
    ensures Tagged(s, F) ==> Tagged(t, F)
    ensures NoRepeats(s) ==> NoRepeats(t)
  {
    SameKeys(s, t);
    SameKeys(t, s);
    if Tagged(s, F) {
      forall k | 0 <= k < |t| ensures t[k].0 in F && t[k].1 == F[t[k].0] {
        assert t[k] in multiset(s);
        var m :| 0 <= m < |s| && s[m] == t[k];
      }
    }
    assert |s| == |multiset(s)| == |multiset(t)| == |t|;
    KeysCount(s);
    KeysCount(t);
  }

  /** Every word of a list is a word of any permutation of it. */
  lemma SameKeys(s: seq<Candidate>, t: seq<Candidate>)
    requires multiset(s) == multiset(t)
    ensures Keys(s) <= Keys(t)
  {
    forall w | w in Keys(s) ensures w in Keys(t) {
      var k :| 0 <= k < |s| && s[k].0 == w;
      assert s[k] in multiset(t);
      var m :| 0 <= m < |t| && t[m] == s[k];
    }
  }

  /** The words of two lists joined are the words of each. */
  lemma KeysConcat(a: seq<Candidate>, b: seq<Candidate>)
    ensures Keys(a + b) == Keys(a) + Keys(b)
  {
    var c := a + b;
    forall w | w in Keys(c) ensures w in Keys(a) + Keys(b) {
      var k :| 0 <= k < |c| && c[k].0 == w;
      if k >= |a| {
        assert b[k - |a|] == c[k];
      }
    }
    forall w | w in Keys(a) + Keys(b) ensures w in Keys(c) {
      if w in Keys(a) {
        var k :| 0 <= k < |a| && a[k].0 == w;
        assert c[k] == a[k];
      } else {
        var k :| 0 <= k < |b| && b[k].0 == w;
        assert c[|a| + k] == b[k];
      }
    }
  }

  /**
   * Two rounds of collecting, each adding exactly the words it adds to a `seen` set, once
   * each and with their counts, make one such round.
   */
  lemma Appended(r0: seq<Candidate>, r1: seq<Candidate>, r2: seq<Candidate>,
                 S0: set<string>, S1: set<string>, S2: set<string>, F: map<string, nat>)
    requires r0 <= r1 <= r2 && S0 <= S1 <= S2
    requires Keys(r1[|r0|..]) == S1 - S0 && NoRepeats(r1[|r0|..]) && Tagged(r1[|r0|..], F)
    requires Keys(r2[|r1|..]) == S2 - S1 && NoRepeats(r2[|r1|..]) && Tagged(r2[|r1|..], F)
    ensures Keys(r2[|r0|..]) == S2 - S0 && NoRepeats(r2[|r0|..]) && Tagged(r2[|r0|..], F)
  {
    var a, b := r1[|r0|..], r2[|r1|..];
    var c := r2[|r0|..];
    assert c == a + b;
    KeysConcat(a, b);
    forall i, j | 0 <= i < j < |c| ensures c[i].0 != c[j].0 {
      if i < |a| && j >= |a| {
        assert c[i] == a[i] && c[j] == b[j - |a|];
        assert c[i].0 in Keys(a) && c[j].0 in Keys(b);
      } else if i >= |a| {
        assert c[i] == b[i - |a|] && c[j] == b[j - |a|];
      } else {
        assert c[i] == a[i] && c[j] == a[j];
      }
    }
    forall k | 0 <= k < |c| ensures c[k].0 in F && c[k].1 == F[c[k].0] {
      if k < |a| {
        assert c[k] == a[k];
      } else {
        assert c[k] == b[k - |a|];
      }
    }
  }

  /**
   * What `autoCorrect` promises when the query is not itself a word, for candidates `W`: as
   * many suggestions as the limit allows, each a candidate, none twice, most frequent first,
   * and no candidate left out that is more frequent than one returned.
   */
  ghost predicate Suggests(F: map<string, nat>, W: set<string>, s: seq<string>)
  {
    && |s| == Min(LIMIT, |W|)
    && (forall i | 0 <= i < |s| :: s[i] in W)
    && (forall i, j | 0 <= i < j < |s| :: s[i] != s[j])
    && (forall i, j | 0 <= i < j < |s| :: Count(F, s[i]) >= Count(F, s[j]))
    && (forall w, i | w in W && w !in s && 0 <= i < |s| :: Count(F, w) <= Count(F, s[i]))
  }

  /**
   * Sorting the collected candidates by frequency and taking the first `LIMIT` words gives
   * the most frequent candidates, whichever order the sort puts equal counts in.
   */
  lemma TopByFreq(F: map<string, nat>, W: set<string>, results: seq<Candidate>, sorted: seq<Candidate>, s: seq<string>)
    requires Keys(results) == W && NoRepeats(results) && Tagged(results, F)
    requires multiset(sorted) == multiset(results) && ByFreq(sorted)
    requires |s| == Min(LIMIT, |sorted|) && forall i | 0 <= i < |s| :: s[i] == sorted[i].0
    ensures Suggests(F, W, s)
  {
    Permuted(results, sorted, F);
    KeysCount(sorted);
    forall w, i | w in W && w !in s && 0 <= i < |s| ensures Count(F, w) <= Count(F, s[i]) {
      var k :| 0 <= k < |sorted| && sorted[k].0 == w;
    }
  }
}
