/**
 * The string built-ins the navigation controller relies on, with their
 * JavaScript meaning: String.prototype.startsWith, String.prototype.includes,
 * String.prototype.trim, and the `\w` class of a regular expression without
 * the `u` flag.
 */
module Text {

  /** `p` is a prefix of `s` (String.prototype.startsWith). */
  predicate StartsWith(s: string, p: string)
  {
    |p| <= |s| && s[..|p|] == p
  }

  /** `p` occurs in `s` starting at index `k`. */
  ghost predicate OccursAt(s: string, p: string, k: int)
  {
    0 <= k && k + |p| <= |s| && s[k..k + |p|] == p
  }

  /** `p` occurs somewhere in `s`: the declarative reading of String.prototype.includes. */
  ghost predicate Occurs(s: string, p: string)
  {
    exists k :: OccursAt(s, p, k)
  }

  /** String.prototype.includes, computed by trying every start position from the left. */
  function Contains(s: string, p: string): bool
    decreases |s|
  {
    StartsWith(s, p) || (|s| > 0 && Contains(s[1..], p))
  }

  /** The scan finds `p` exactly when `p` occurs somewhere in `s`. */
  lemma {:induction false} ContainsIffOccurs(s: string, p: string)
    ensures Contains(s, p) <==> Occurs(s, p)
    decreases |s|
  {
    assert OccursAt(s, p, 0) <==> StartsWith(s, p);
    if |s| > 0 {
      var t := s[1..];
      ContainsIffOccurs(t, p);
      if Occurs(t, p) {
        var k :| OccursAt(t, p, k);
        assert t[k..k + |p|] == s[k + 1..k + 1 + |p|];
        assert OccursAt(s, p, k + 1);
      }
      if Occurs(s, p) && !StartsWith(s, p) {
        var k :| OccursAt(s, p, k);
        assert t[k - 1..k - 1 + |p|] == s[k..k + |p|];
        assert OccursAt(t, p, k - 1);
      }
    }
  }

  /** Whatever surrounds an occurrence, `includes` finds it. */
  lemma ContainsInfix(a: string, p: string, b: string)
    ensures Contains(a + p + b, p)
  {
    var s := a + p + b;
    assert s[|a|..|a| + |p|] == p;
    assert OccursAt(s, p, |a|);
    ContainsIffOccurs(s, p);
  }

  /**
   * The code points String.prototype.trim removes: the WhiteSpace and
   * LineTerminator productions of ECMA-262 (tab, vertical tab, form feed,
   * space, no-break space, byte order mark, every other space separator,
   * line feed, carriage return, line and paragraph separator).
   */
  predicate IsJsWhitespace(c: char)
  {
    c == '\t' || c == '\n' || c == '\U{000B}' || c == '\U{000C}' || c == '\r' || c == ' ' ||
    c == '\U{00A0}' || c == '\U{1680}' || ('\U{2000}' <= c <= '\U{200A}') ||
    c == '\U{2028}' || c == '\U{2029}' || c == '\U{202F}' || c == '\U{205F}' ||
    c == '\U{3000}' || c == '\U{FEFF}'
  }

  ghost predicate AllWhitespace(s: string)
  {
    forall i :: 0 <= i < |s| ==> IsJsWhitespace(s[i])
  }

  /** Every character of `s` at an index in `[lo, hi)` is whitespace. */
  ghost predicate WhitespaceBetween(s: string, lo: int, hi: int)
  {
    forall i :: lo <= i < hi && 0 <= i < |s| ==> IsJsWhitespace(s[i])
  }

  /** Drops the leading whitespace of `s`. */
  function TrimStart(s: string): (r: string)
    ensures |r| <= |s| && r == s[|s| - |r|..]
    ensures r == [] || !IsJsWhitespace(r[0])
    decreases |s|
  {
    if |s| > 0 && IsJsWhitespace(s[0]) then
      TrimStart(s[1..])
    else
      s
  }

  /** Everything TrimStart cuts away is whitespace. */
  lemma {:induction false} TrimStartCutsWhitespace(s: string)
    ensures WhitespaceBetween(s, 0, |s| - |TrimStart(s)|)
    decreases |s|
  {
    if |s| > 0 && IsJsWhitespace(s[0]) {
      var t := s[1..];
      TrimStartCutsWhitespace(t);
      assert forall i :: 1 <= i < |s| ==> s[i] == t[i - 1];
    }
  }

  /** Drops the trailing whitespace of `s`. */
  function TrimEnd(s: string): (r: string)
    ensures |r| <= |s| && r == s[..|r|]
    ensures r == [] || !IsJsWhitespace(r[|r| - 1])
    decreases |s|
  {
    if |s| > 0 && IsJsWhitespace(s[|s| - 1]) then
      var r := TrimEnd(s[..|s| - 1]);
      assert r == s[..|r|];
      r
    else
      s
  }

  /** Everything TrimEnd cuts away is whitespace. */
  lemma {:induction false} TrimEndCutsWhitespace(s: string)
    ensures WhitespaceBetween(s, |TrimEnd(s)|, |s|)
    decreases |s|
  {
    if |s| > 0 && IsJsWhitespace(s[|s| - 1]) {
      var t := s[..|s| - 1];
      TrimEndCutsWhitespace(t);
      assert forall i :: 0 <= i < |t| ==> s[i] == t[i];
    }
  }

  /** `r` sits at offset `a` of `s` with only whitespace before and after it. */
  ghost predicate FramedAt(s: string, r: string, a: int)
  {
    0 <= a && a + |r| <= |s| && s[a..a + |r|] == r &&
    WhitespaceBetween(s, 0, a) && WhitespaceBetween(s, a + |r|, |s|)
  }

  /** String.prototype.trim: the result neither starts nor ends with whitespace. */
  function Trim(s: string): (r: string)
    ensures |r| <= |s|
    ensures r == [] || (!IsJsWhitespace(r[0]) && !IsJsWhitespace(r[|r| - 1]))
  {
    TrimEnd(TrimStart(s))
  }

  /** What trim returns is a slice of its input, and everything cut away is whitespace. */
  lemma TrimFramed(s: string)
    ensures exists a :: FramedAt(s, Trim(s), a)
  {
    var t := TrimStart(s);
    var r := TrimEnd(t);
    var a := |s| - |t|;
    TrimStartCutsWhitespace(s);
    TrimEndCutsWhitespace(t);
    assert r == Trim(s);
    assert s[a..a + |r|] == r;
    assert forall i :: a + |r| <= i < |s| ==> s[i] == t[i - a];
    assert FramedAt(s, r, a);
  }

  /** Trimming twice is trimming once. */
  lemma TrimIdempotent(s: string)
    ensures Trim(Trim(s)) == Trim(s)
  {
    var r := Trim(s);
    TrimFramed(r);
    var a :| FramedAt(r, Trim(r), a);
    assert r != [] ==> a == 0 && |Trim(r)| == |r|;
  }

  /** A string made only of whitespace trims to the empty string. */
  lemma TrimAllWhitespace(s: string)
    requires AllWhitespace(s)
    ensures Trim(s) == []
  {
    var r := Trim(s);
    TrimFramed(s);
    var a :| FramedAt(s, r, a);
  }

  /** A string that neither starts nor ends with whitespace trims to itself. */
  lemma TrimUnpadded(s: string)
    requires s == [] || (!IsJsWhitespace(s[0]) && !IsJsWhitespace(s[|s| - 1]))
    ensures Trim(s) == s
  {
  }

  /** One chosen whitespace character on each side is all that trimming removes. */
  lemma TrimPadded(w: char, m: string, v: char)
    requires IsJsWhitespace(w) && IsJsWhitespace(v)
    requires m != [] && !IsJsWhitespace(m[0]) && !IsJsWhitespace(m[|m| - 1])
    ensures Trim([w] + m + [v]) == m
  {
    var s := [w] + m + [v];
    var t := m + [v];
    assert s[1..] == t && t[0] == m[0];
    assert TrimStart(t) == t;
    assert TrimStart(s) == t;
    assert t[..|t| - 1] == m;
    assert TrimEnd(m) == m;
    assert TrimEnd(t) == m;
  }

  /** The `\w` class: ASCII letters, digits and underscore. */
  predicate IsWordChar(c: char)
  {
    ('a' <= c <= 'z') || ('A' <= c <= 'Z') || ('0' <= c <= '9') || c == '_'
  }

  /** A dot at index `k` with a word character on each side. */
  ghost predicate WordDotWordAt(s: string, k: int)
  {
    1 <= k < |s| - 1 && s[k] == '.' && IsWordChar(s[k - 1]) && IsWordChar(s[k + 1])
  }

  /** Without a dot, `\w+\.\w+` cannot match and no occurrence of `www.` exists. */
  lemma NoDotNoMatch(s: string)
    requires forall i :: 0 <= i < |s| ==> s[i] != '.'
    ensures !HasWordDotWord(s) && !Contains(s, "www.")
  {
    ContainsIffOccurs(s, "www.");
    HasWordDotWordIff(s);
    forall k | 0 <= k && k + 4 <= |s|
      ensures !OccursAt(s, "www.", k)
    {
      assert s[k..k + 4][3] == s[k + 3];
    }
  }

  /** The unanchored search for `\w+\.\w+`, scanning from the left for a word character, a dot and a word character. */
  function HasWordDotWord(s: string): bool
    decreases |s|
  {
    if |s| < 3 then
      false
    else
      (s[1] == '.' && IsWordChar(s[0]) && IsWordChar(s[2])) || HasWordDotWord(s[1..])
  }

  /** `\w+\.\w+` matches somewhere exactly when some dot has a word character on both sides. */
  lemma {:induction false} HasWordDotWordIff(s: string)
    ensures HasWordDotWord(s) <==> exists k :: WordDotWordAt(s, k)
    decreases |s|
  {
    if |s| >= 3 {
      var t := s[1..];
      HasWordDotWordIff(t);
      assert forall k :: 1 <= k ==> (WordDotWordAt(t, k) ==> WordDotWordAt(s, k + 1));
      assert forall k :: 2 <= k ==> (WordDotWordAt(s, k) ==> WordDotWordAt(t, k - 1));
      assert WordDotWordAt(s, 1) <==> (s[1] == '.' && IsWordChar(s[0]) && IsWordChar(s[2]));
    }
  }
}
