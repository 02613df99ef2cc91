/**
 * Character classes, ASCII case folding, the key normalisation both engines apply to
 * their input, and the lexicographic order of strings.
 */
module Text {

  predicate IsLower(c: char) { 'a' <= c <= 'z' }

  predicate IsUpper(c: char) { 'A' <= c <= 'Z' }

  /** `isalpha` in the C locale. */
  predicate IsAlpha(c: char) { IsLower(c) || IsUpper(c) }

  /** A key is what a trie path spells: lower-case letters only. */
  predicate IsKey(s: string) { forall i | 0 <= i < |s| :: IsLower(s[i]) }

  /** `tolower` / `Character.toLowerCase` restricted to ASCII. */
  function ToLower(c: char): (r: char)
    ensures IsLower(r) <==> IsAlpha(c)
    ensures IsUpper(c) ==> r as int == c as int - 'A' as int + 'a' as int
    ensures !IsUpper(c) ==> r == c
  {
    if IsUpper(c) then (c as int - 'A' as int + 'a' as int) as char else c
  }

  /** `String.toLowerCase`, character by character (ASCII folding only). */
  function LowerStr(s: string): (r: string)
    ensures |r| == |s| && forall i | 0 <= i < |s| :: r[i] == ToLower(s[i])
  {
    seq(|s|, i requires 0 <= i < |s| => ToLower(s[i]))
  }

  /** Case folding is idempotent. */
  lemma LowerStrIdempotent(s: string)
    ensures LowerStr(LowerStr(s)) == LowerStr(s)
  {
  }

  /** The characters of `s` that lie in 'a'..'z', in order; every other character is skipped. */
  function Letters(s: string): (r: string)
    ensures |r| <= |s|
    ensures IsKey(r)
  {
    if s == [] then []
    else Letters(s[..|s| - 1]) + (if IsLower(s[|s| - 1]) then [s[|s| - 1]] else [])
  }

  /** The trie key of a word: lower-cased, then stripped of everything outside 'a'..'z'. */
  function Normalize(s: string): (r: string)
    ensures IsKey(r)
  {
    Letters(LowerStr(s))
  }

  lemma {:induction false} LettersAppend(a: string, b: string)
    ensures Letters(a + b) == Letters(a) + Letters(b)
    decreases |b|
  {
    if b == [] {
      assert a + b == a;
    } else {
      var b' := b[..|b| - 1];
      assert (a + b)[..|a + b| - 1] == a + b';
      LettersAppend(a, b');
    }
  }

  /** Reading one more character extends the letters by it exactly when it is in 'a'..'z'. */
  lemma LettersSnoc(s: string, i: nat)
    requires i < |s|
    ensures IsLower(s[i]) ==> Letters(s[..i + 1]) == Letters(s[..i]) + [s[i]]
    ensures !IsLower(s[i]) ==> Letters(s[..i + 1]) == Letters(s[..i])
  {
    assert s[..i + 1][..i] == s[..i];
  }

  /** The letters of a prefix begin the letters of the whole string. */
  lemma LettersPrefix(s: string, i: nat)
    requires i <= |s|
    ensures Letters(s[..i]) <= Letters(s)
  {
    assert s == s[..i] + s[i..];
    LettersAppend(s[..i], s[i..]);
  }

  lemma {:induction false} LettersOfKey(s: string)
    requires IsKey(s)
    ensures Letters(s) == s
  {
    if s != [] {
      LettersOfKey(s[..|s| - 1]);
      assert s == s[..|s| - 1] + [s[|s| - 1]];
    }
  }

  /** Normalising twice is normalising once: a key is its own key. */
  lemma NormalizeIdempotent(s: string)
    ensures Normalize(Normalize(s)) == Normalize(s)
  {
    var k := Normalize(s);
    assert LowerStr(k) == k;
    LettersOfKey(k);
  }

  /** Lower-casing before normalising changes nothing. */
  lemma NormalizeLower(s: string)
    ensures Normalize(LowerStr(s)) == Normalize(s)
  {
    LowerStrIdempotent(s);
  }

  /**
   * Normalising one more character appends its lower-case form exactly when it is a
   * letter: lower-then-filter (the Java order) equals filter-then-lower (the C++ order).
   */
  lemma NormalizeSnoc(s: string, c: char)
    ensures Normalize(s + [c]) == Normalize(s) + (if IsAlpha(c) then [ToLower(c)] else [])
  {
    var l := LowerStr(s + [c]);
    assert l[..|l| - 1] == LowerStr(s);
    assert l[|l| - 1] == ToLower(c);
  }

  /** A word made of letters and digits keeps only its letters: "a1B" has key "ab". */
  lemma NormalizeExample()
    ensures Normalize("a1B") == "ab"
  {
    assert LowerStr("a1B") == "a1b";
    assert "a1b"[..2] == "a1";
    assert "a1"[..1] == "a";
    assert ""[..0] == "";
  }

  /** Strict lexicographic order on strings; a proper prefix comes first. */
  predicate LexLess(u: string, v: string)
    decreases |u|
  {
    |v| > 0 && (|u| == 0 || u[0] < v[0] || (u[0] == v[0] && LexLess(u[1..], v[1..])))
  }

  lemma {:induction false} LexLessIrreflexive(u: string)
    ensures !LexLess(u, u)
  {
    if |u| > 0 {
      LexLessIrreflexive(u[1..]);
    }
  }

  lemma {:induction false} LexLessPrepend(p: string, a: string, b: string)
    requires LexLess(a, b)
    ensures LexLess(p + a, p + b)
  {
    if p == [] {
      assert p + a == a && p + b == b;
    } else {
      LexLessPrepend(p[1..], a, b);
      assert (p + a)[1..] == p[1..] + a;
      assert (p + b)[1..] == p[1..] + b;
    }
  }

  /**
   * Two strings extending a common `path` are ordered by what follows it: `path` itself
   * precedes every proper extension, and extensions are ordered by their next character.
   */
  lemma LexLessDiverge(path: string, u: string, v: string)
    requires path <= u && path <= v && |path| < |v|
    requires |u| == |path| || (|path| < |u| && u[|path|] < v[|path|])
    ensures LexLess(u, v)
  {
    var n := |path|;
    assert u == path + u[n..];
    assert v == path + v[n..];
    assert LexLess(u[n..], v[n..]);
    LexLessPrepend(path, u[n..], v[n..]);
  }
}
