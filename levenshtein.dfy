/**
 * Levenshtein distance (insertion, deletion and substitution each cost 1), defined by the
 * textbook recurrence on prefixes, and the facts both dynamic programmes rely on.
 */
module Levenshtein {

  function Min(a: int, b: int): int { if a <= b then a else b }

  function Max(a: int, b: int): int { if a <= b then b else a }

  function Abs(x: int): int { if x < 0 then -x else x }

  /** The edit distance between `s` and `t`, by the recurrence on their last characters. */
  function Lev(s: string, t: string): (r: nat)
    decreases |s| + |t|
  {
    if |s| == 0 then |t|
    else if |t| == 0 then |s|
    else
      var s', t' := s[..|s| - 1], t[..|t| - 1];
      Min(Lev(s', t) + 1, Min(Lev(s, t') + 1, Lev(s', t') + (if s[|s| - 1] == t[|t| - 1] then 0 else 1)))
  }

  /** The distance lies between the length gap and the longer length. */
  lemma {:induction false} LevBounds(s: string, t: string)
    ensures Abs(|s| - |t|) <= Lev(s, t) <= Max(|s|, |t|)
    decreases |s| + |t|
  {
    if |s| > 0 && |t| > 0 {
      var s', t' := s[..|s| - 1], t[..|t| - 1];
      LevBounds(s', t);
      LevBounds(s, t');
      LevBounds(s', t');
    }
  }

  /** The distance between a string and the empty string is its length, in either order. */
  lemma LevEmpty(s: string)
    ensures Lev(s, "") == |s| && Lev("", s) == |s|
  {
  }

  lemma {:induction false} LevSelf(s: string)
    ensures Lev(s, s) == 0
  {
    if |s| > 0 {
      LevSelf(s[..|s| - 1]);
    }
  }

  lemma {:induction false} LevSymmetric(s: string, t: string)
    ensures Lev(s, t) == Lev(t, s)
    decreases |s| + |t|
  {
    if |s| > 0 && |t| > 0 {
      var s', t' := s[..|s| - 1], t[..|t| - 1];
      LevSymmetric(s', t);
      LevSymmetric(s, t');
      LevSymmetric(s', t');
    }
  }

  /** Appending a character to the second string lowers the distance by at most one. */
  lemma {:induction false} LevAppendRight(a: string, b: string, c: char)
    ensures Lev(a, b) <= Lev(a, b + [c]) + 1
    decreases |a| + |b|
  {
    var b1 := b + [c];
    assert b1[..|b1| - 1] == b;
    if |a| > 0 && |b| > 0 {
      var a' := a[..|a| - 1];
      LevAppendRight(a', b, c);
    } else if |a| > 0 {
      LevBounds(a, b1);
    }
  }

  /** Appending a character to the first string lowers the distance by at most one. */
  lemma LevAppendLeft(a: string, b: string, c: char)
    ensures Lev(a, b) <= Lev(a + [c], b) + 1
  {
    LevAppendRight(b, a, c);
    LevSymmetric(a, b);
    LevSymmetric(a + [c], b);
  }

  /** When the last characters agree, the distance is that of the two shorter prefixes. */
  lemma LevMatch(s: string, t: string)
    requires |s| > 0 && |t| > 0 && s[|s| - 1] == t[|t| - 1]
    ensures Lev(s, t) == Lev(s[..|s| - 1], t[..|t| - 1])
  {
    var s', t' := s[..|s| - 1], t[..|t| - 1];
    assert s == s' + [s[|s| - 1]];
    assert t == t' + [t[|t| - 1]];
    LevAppendRight(s', t', t[|t| - 1]);
    LevAppendLeft(s', t', s[|s| - 1]);
  }

  /** The first row and the first column of the table: the distance from an empty prefix is the other length. */
  lemma LevBorder(s: string, t: string, i: nat, k: nat)
    requires i <= |s| && k <= |t|
    ensures Lev(s[..i], t[..0]) == i && Lev(s[..0], t[..k]) == k
  {
  }

  /**
   * One cell of the table from its three neighbours: a matching pair of last characters
   * costs nothing, otherwise the cheapest of deletion, insertion and substitution plus one.
   */
  lemma LevCell(s: string, t: string, i: nat, j: nat)
    requires 0 < i <= |s| && 0 < j <= |t|
    ensures var u, v, u', v' := s[..i], t[..j], s[..i - 1], t[..j - 1];
      && (s[i - 1] == t[j - 1] ==> Lev(u, v) == Lev(u', v'))
      && (s[i - 1] != t[j - 1] ==> Lev(u, v) == Min(Lev(u', v) + 1, Min(Lev(u, v') + 1, Lev(u', v') + 1)))
  {
    var u, v := s[..i], t[..j];
    var u', v' := s[..i - 1], t[..j - 1];
    assert u[..|u| - 1] == u' && v[..|v| - 1] == v';
    assert u[|u| - 1] == s[i - 1] && v[|v| - 1] == t[j - 1];
    if s[i - 1] == t[j - 1] {
      LevMatch(u, v);
    } else {
      LevMismatch(u, v);
    }
  }

  /** When the last characters differ, the distance is one more than the cheapest of the three shorter cases. */
  lemma LevMismatch(s: string, t: string)
    requires |s| > 0 && |t| > 0 && s[|s| - 1] != t[|t| - 1]
    ensures var s', t' := s[..|s| - 1], t[..|t| - 1]; Lev(s, t) == Min(Lev(s', t) + 1, Min(Lev(s, t') + 1, Lev(s', t') + 1))
  {
  }

  /** Row `i` of the table for `s` against `t`: every cell is at least `lo`. */
  ghost predicate RowAtLeast(s: string, t: string, i: nat, lo: int)
    requires i <= |s|
  {
    forall k | 0 <= k <= |t| :: Lev(s[..i], t[..k]) >= lo
  }

  lemma {:induction false} NextRowCellAtLeast(s: string, t: string, i: nat, k: nat, lo: int)
    requires i < |s| && k <= |t|
    requires RowAtLeast(s, t, i, lo)
    ensures Lev(s[..i + 1], t[..k]) >= lo
  {
    var u := s[..i + 1];
    assert u[..|u| - 1] == s[..i];
    assert Lev(s[..i], t[..0]) >= lo;
    if k > 0 {
      NextRowCellAtLeast(s, t, i, k - 1, lo);
      var v := t[..k];
      assert v[..|v| - 1] == t[..k - 1];
      assert Lev(s[..i], t[..k]) >= lo;
      assert Lev(s[..i], t[..k - 1]) >= lo;
    }
  }

  /** Row minima never decrease: a lower bound on one row holds for every later row. */
  lemma {:induction false} RowAtLeastPropagates(s: string, t: string, i: nat, lo: int)
    requires i <= |s|
    requires RowAtLeast(s, t, i, lo)
    ensures Lev(s, t) >= lo
    decreases |s| - i
  {
    if i == |s| {
      assert s[..i] == s && t[..|t|] == t;
    } else {
      forall k | 0 <= k <= |t| ensures Lev(s[..i + 1], t[..k]) >= lo {
        NextRowCellAtLeast(s, t, i, k, lo);
      }
      RowAtLeastPropagates(s, t, i + 1, lo);
    }
  }
}
