/**
 * `String.equalsIgnoreCase` from java.lang, with case mapping restricted to
 * the ASCII letters: two strings are equal ignoring case when they have the
 * same length and every pair of characters at the same index matches.
 */
module IgnoreCase {

  function ToUpper(c: char): char {
    if 'a' <= c <= 'z' then (c as int - 32) as char else c
  }

  function ToLower(c: char): char {
    if 'A' <= c <= 'Z' then (c as int + 32) as char else c
  }

  /** The per-character test of `regionMatches` with `ignoreCase` set. */
  predicate CharsMatch(c1: char, c2: char) {
    c1 == c2 || ToUpper(c1) == ToUpper(c2) || ToLower(ToUpper(c1)) == ToLower(ToUpper(c2))
  }

  /** `equalsIgnoreCase`: same length, and every pair of characters at one index matches. */
  predicate EqualsIgnoreCase(a: string, b: string): (r: bool)
    ensures r ==> |a| == |b|
    ensures a == b ==> r
  {
    |a| == |b| && forall k :: 0 <= k < |a| ==> CharsMatch(a[k], b[k])
  }

  /** The string with every ASCII upper-case letter replaced by its lower-case form. */
  function Lower(s: string): (r: string)
    ensures |r| == |s|
    ensures forall k :: 0 <= k < |s| ==> r[k] == ToLower(s[k])
  {
    seq(|s|, k requires 0 <= k < |s| => ToLower(s[k]))
  }

  /** Two characters match ignoring case exactly when their lower-case forms coincide. */
  lemma CharsMatchIffSameLower(c1: char, c2: char)
    ensures CharsMatch(c1, c2) <==> ToLower(c1) == ToLower(c2)
  {
  }

  /** `equalsIgnoreCase` is equality after lower-casing both sides. */
  lemma EqualsIgnoreCaseIffSameLower(a: string, b: string)
    ensures EqualsIgnoreCase(a, b) <==> Lower(a) == Lower(b)
  {
    if EqualsIgnoreCase(a, b) {
      forall k | 0 <= k < |a| ensures Lower(a)[k] == Lower(b)[k] {
        CharsMatchIffSameLower(a[k], b[k]);
      }
    }
    if Lower(a) == Lower(b) {
      forall k | 0 <= k < |a| ensures CharsMatch(a[k], b[k]) {
        assert Lower(a)[k] == Lower(b)[k];
        CharsMatchIffSameLower(a[k], b[k]);
      }
    }
  }

  /** Matching ignoring case is an equivalence relation. */
  lemma EqualsIgnoreCaseIsEquivalence(a: string, b: string, c: string)
    ensures EqualsIgnoreCase(a, a)
    ensures EqualsIgnoreCase(a, b) ==> EqualsIgnoreCase(b, a)
    ensures EqualsIgnoreCase(a, b) && EqualsIgnoreCase(b, c) ==> EqualsIgnoreCase(a, c)
  {
    EqualsIgnoreCaseIffSameLower(a, a);
    EqualsIgnoreCaseIffSameLower(a, b);
    EqualsIgnoreCaseIffSameLower(b, a);
    EqualsIgnoreCaseIffSameLower(b, c);
    EqualsIgnoreCaseIffSameLower(a, c);
  }
}
