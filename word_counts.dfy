/**
 * The abstract state of a dictionary: a map from key to insertion count, and the set of
 * paths a trie holds. Both tries are specified against these values.
 */
module WordCounts {

  /** How many times `w` was inserted (0 when it never was). */
  function Count(F: map<string, nat>, w: string): nat
  {
    if w in F then F[w] else 0
  }

  /** One more insertion of `key`. */
  function AddKey(F: map<string, nat>, key: string): map<string, nat>
  {
    F[key := Count(F, key) + 1]
  }

  /** An insertion adds `key` to the keys, raises its count by one and leaves every other count alone. */
  lemma AddKeyCounts(F: map<string, nat>, key: string)
    ensures AddKey(F, key).Keys == F.Keys + {key}
    ensures |AddKey(F, key)| == |F| + (if key in F then 0 else 1)
    ensures Count(AddKey(F, key), key) == Count(F, key) + 1
    ensures forall w | w != key :: Count(AddKey(F, key), w) == Count(F, w)
  {
    var r := AddKey(F, key);
    assert r.Keys == F.Keys + {key};
    assert key !in F ==> |F.Keys + {key}| == |F.Keys| + 1;
  }

  /** All prefixes of `w`, from the empty string to `w` itself. */
  function Prefixes(w: string): (r: set<string>)
    ensures w in r && "" in r
  {
    assert w[..|w|] == w && w[..0] == "";
    set k | 0 <= k <= |w| :: w[..k]
  }

  lemma PrefixesSnoc(w: string, c: char)
    ensures Prefixes(w + [c]) == Prefixes(w) + {w + [c]}
  {
    var v := w + [c];
    forall k | 0 <= k <= |w| ensures v[..k] == w[..k] { }
    assert v[..|v|] == v;
  }

  /** The paths of a trie holding the keys `K`: the root and every prefix of a key. */
  ghost function Closure(K: set<string>): set<string>
  {
    {""} + set w, k | w in K && 0 <= k <= |w| :: w[..k]
  }

  /** A string is a path exactly when it is empty or begins some key. */
  lemma ClosureMember(K: set<string>, p: string)
    ensures p in Closure(K) <==> p == "" || exists w | w in K :: p <= w
  {
    if w :| w in K && p <= w {
      assert p == w[..|p|];
    }
  }

  /** Adding a key adds exactly its prefixes to the paths. */
  lemma ClosureAdd(K: set<string>, key: string)
    ensures Closure(K + {key}) == Closure(K) + Prefixes(key)
  {
  }

  /** Every prefix of a path is a path. */
  lemma ClosurePrefix(K: set<string>, p: string, k: nat)
    requires p in Closure(K) && k <= |p|
    ensures p[..k] in Closure(K)
  {
    if p != "" {
      var w, j :| w in K && 0 <= j <= |w| && p == w[..j];
      assert p[..k] == w[..k];
    }
  }

  /** The members of `P` that extend `path` (including `path` itself when present). */
  ghost function Ext(P: set<string>, path: string): set<string>
  {
    set q | q in P && path <= q
  }

  /** Descending into a child strictly shrinks the set of extensions: the traversal terminates. */
  lemma ExtShrinks(P: set<string>, path: string, c: char)
    requires path in P
    ensures Ext(P, path + [c]) < Ext(P, path)
  {
    forall q | q in Ext(P, path + [c]) ensures q in Ext(P, path) {
      assert q[..|path|] == (path + [c])[..|path|] == path;
    }
    assert path in Ext(P, path);
    assert path !in Ext(P, path + [c]);
  }

  /** The parent of every non-root path is a path, so every prefix of a path is one. */
  ghost predicate Closed<T>(P: map<string, T>)
  {
    forall p | p in P && p != "" :: Parent(p) in P
  }

  /** The path `key + [c]` has the path `key` above it, so adding it keeps the paths closed. */
  lemma GrowClosed<T>(P: map<string, T>, key: string, c: char, node: T)
    requires Closed(P) && key in P
    ensures Closed(P[key + [c] := node])
  {
    var q := key + [c];
    assert Parent(q) == key;
    forall p | p in P[q := node] && p != "" ensures Parent(p) in P[q := node] {
      if p != q {
        assert p in P;
      }
    }
  }

  /** A path missing from closed paths has no extension among them either. */
  lemma {:induction false} MissingExtension<T>(P: map<string, T>, q: string, w: string)
    requires Closed(P) && q !in P && q <= w
    ensures w !in P
    decreases |w|
  {
    if |w| == |q| {
      assert w == q;
    } else {
      assert q <= Parent(w);
      MissingExtension(P, q, Parent(w));
    }
  }

  /** Closed paths hold every prefix of each of their members. */
  lemma {:induction false} ClosedPrefix<T>(P: map<string, T>, p: string, k: nat)
    requires Closed(P) && p in P && k <= |p|
    ensures p[..k] in P
    decreases |p| - k
  {
    if k < |p| {
      ClosedPrefix(P, p, k + 1);
      assert Parent(p[..k + 1]) == p[..k];
    } else {
      assert p[..k] == p;
    }
  }

  /** A walk that only added prefixes of `key`, and reached `key`, added exactly its prefixes. */
  lemma GrownPaths<T>(P0: set<string>, P: map<string, T>, key: string)
    requires Closed(P) && key in P && P0 <= P.Keys
    requires forall p | p in P :: p in P0 || p <= key
    ensures P.Keys == P0 + Prefixes(key)
  {
    forall p | p in Prefixes(key) ensures p in P {
      var k :| 0 <= k <= |key| && p == key[..k];
      ClosedPrefix(P, key, k);
    }
    forall p | p in P && p !in P0 ensures p in Prefixes(key) {
      assert p == key[..|p|];
    }
  }

  /** The path one step above `p`. */
  function Parent(p: string): (r: string)
    requires p != ""
  {
    p[..|p| - 1]
  }

  /** Every stored key was inserted at least once. */
  ghost predicate Positive(F: map<string, nat>)
  {
    forall p | p in F :: F[p] >= 1
  }

  /** One more insertion of a key that has a node keeps every count positive and every key on a node. */
  lemma AddKeyPositive(F: map<string, nat>, K: set<string>, key: string)
    requires Positive(F) && F.Keys <= K && key in K
    ensures Positive(AddKey(F, key)) && AddKey(F, key).Keys <= K
    ensures |AddKey(F, key)| == |F| + (if key in F then 0 else 1)
  {
    AddKeyCounts(F, key);
  }

  /**
   * A hook for `Sealed`: it holds everywhere and only gives the solver a term on which to
   * unfold a sealed shape, so that proofs which merely carry a shape along leave it folded.
   */
  ghost predicate Hook(k: nat)
  {
    true
  }
}
