/**
  The two JavaScript string operations the trail filter relies on:
  `String.prototype.toLowerCase` (here restricted to ASCII: only the letters
  A-Z change) and `String.prototype.includes` (substring search, in which the
  empty string occurs in every string).
*/
module JsString {

  predicate IsUpper(ch: char) { 'A' <= ch <= 'Z' }

  predicate IsLower(ch: char) { 'a' <= ch <= 'z' }

  /** toLowerCase of a single character. */
  function LowerChar(ch: char): (r: char)
    ensures !IsUpper(r)
    ensures IsUpper(ch) ==> IsLower(r) && r as int - 'a' as int == ch as int - 'A' as int
    ensures !IsUpper(ch) ==> r == ch
  {
    if IsUpper(ch) then (ch as int + ('a' as int - 'A' as int)) as char else ch
  }

  /** a and b are the same character, or one is the upper-case form of the other. */
  predicate SameUpToCase(a: char, b: char) {
    || a == b
    || (IsUpper(a) && IsLower(b) && b as int - 'a' as int == a as int - 'A' as int)
    || (IsUpper(b) && IsLower(a) && a as int - 'a' as int == b as int - 'A' as int)
  }

  /** Two characters lower to the same character exactly when they differ at most in case. */
  lemma LowerCharEqIff(a: char, b: char)
    ensures LowerChar(a) == LowerChar(b) <==> SameUpToCase(a, b)
  {
  }

  /** toLowerCase: every character is lowered, in place, and nothing else changes. */
  function Lower(s: string): (r: string)
    ensures |r| == |s|
    ensures forall i :: 0 <= i < |s| ==> r[i] == LowerChar(s[i])
  {
    if s == [] then [] else [LowerChar(s[0])] + Lower(s[1..])
  }

  /** Lowering twice is lowering once. */
  lemma LowerIdempotent(s: string)
    ensures Lower(Lower(s)) == Lower(s)
  {
  }

  /** Two strings lower to the same string exactly when they have the same length and differ at most in case, position by position. */
  lemma LowerEqIff(s1: string, s2: string)
    ensures Lower(s1) == Lower(s2) <==>
      |s1| == |s2| && forall i :: 0 <= i < |s1| ==> SameUpToCase(s1[i], s2[i])
  {
    if Lower(s1) == Lower(s2) {
      forall i | 0 <= i < |s1|
        ensures SameUpToCase(s1[i], s2[i])
      {
        assert Lower(s1)[i] == Lower(s2)[i];
        LowerCharEqIff(s1[i], s2[i]);
      }
    }
    if |s1| == |s2| && forall i :: 0 <= i < |s1| ==> SameUpToCase(s1[i], s2[i]) {
      forall i | 0 <= i < |s1|
        ensures Lower(s1)[i] == Lower(s2)[i]
      {
        LowerCharEqIff(s1[i], s2[i]);
      }
    }
  }

  /** A string without upper-case letters is its own lower form. */
  lemma LowerOfLowered(s: string)
    requires forall i :: 0 <= i < |s| ==> !IsUpper(s[i])
    ensures Lower(s) == s
  {
  }

  predicate StartsWith(s: string, p: string) {
    |p| <= |s| && s[..|p|] == p
  }

  /** includes: p starts at the first position of s, or is included in the rest. */
  predicate Includes(s: string, p: string)
    decreases |s|
  {
    StartsWith(s, p) || (|s| > 0 && Includes(s[1..], p))
  }

  /** p occurs in s at position i. */
  predicate OccursAt(s: string, p: string, i: int) {
    0 <= i && i + |p| <= |s| && s[i..i + |p|] == p
  }

  /** p occurs somewhere in s. */
  ghost predicate IsSubstring(p: string, s: string) {
    exists i :: OccursAt(s, p, i)
  }

  /** includes agrees with the positional definition of a substring, in both directions. */
  lemma {:induction false} IncludesIff(s: string, p: string)
    ensures Includes(s, p) <==> IsSubstring(p, s)
    decreases |s|
  {
    if Includes(s, p) {
      if StartsWith(s, p) {
        assert OccursAt(s, p, 0);
      } else {
        IncludesIff(s[1..], p);
        var i :| OccursAt(s[1..], p, i);
        assert s[1..][i..i + |p|] == s[i + 1..i + 1 + |p|];
        assert OccursAt(s, p, i + 1);
      }
    }
    if IsSubstring(p, s) {
      var i :| OccursAt(s, p, i);
      if i == 0 {
        assert StartsWith(s, p);
      } else {
        assert s[1..][i - 1..i - 1 + |p|] == s[i..i + |p|];
        assert OccursAt(s[1..], p, i - 1);
        IncludesIff(s[1..], p);
      }
    }
  }

  /** The empty string is included in every string. */
  lemma IncludesEmpty(s: string)
    ensures Includes(s, "")
  {
  }

  /** A non-empty included string has its first character somewhere in s. */
  lemma {:induction false} IncludesFirstChar(s: string, p: string)
    requires |p| > 0 && Includes(s, p)
    ensures p[0] in s
    decreases |s|
  {
    if StartsWith(s, p) {
      assert s[0] == p[0];
    } else {
      IncludesFirstChar(s[1..], p);
    }
  }
}
