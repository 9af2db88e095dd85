/**
 * `String.trim` from java.lang: every character at or below U+0020 is removed
 * from both ends of the string, and nothing in between is touched.
 */
module StringTrim {

  /** The characters `trim` removes: every code unit up to and including the space. */
  predicate IsBlank(c: char) {
    c <= ' '
  }

  predicate AllBlank(s: string) {
    forall k :: 0 <= k < |s| ==> IsBlank(s[k])
  }

  /** A string with no blank at either end (the empty string included). */
  predicate IsTrimmed(s: string) {
    |s| == 0 || (!IsBlank(s[0]) && !IsBlank(s[|s| - 1]))
  }

  /** `t` is what remains of `s` once blank prefix and blank suffix are cut off. */
  ghost predicate IsTrimOf(s: string, t: string) {
    IsTrimmed(t) &&
    exists i, j :: 0 <= i <= j <= |s| && s[i..j] == t && AllBlank(s[..i]) && AllBlank(s[j..])
  }

  /** The first index at or after `i` whose character is not blank, or `|s|`. */
  function SkipLeading(s: string, i: nat): (k: nat)
    requires i <= |s|
    ensures i <= k <= |s|
    ensures forall m :: i <= m < k ==> IsBlank(s[m])
    ensures k < |s| ==> !IsBlank(s[k])
    decreases |s| - i
  {
    if i < |s| && IsBlank(s[i]) then SkipLeading(s, i + 1) else i
  }

  /** Moves the end index `j` left past blanks, never below `lo`. */
  function SkipTrailing(s: string, lo: nat, j: nat): (k: nat)
    requires lo <= j <= |s|
    ensures lo <= k <= j
    ensures forall m :: k <= m < j ==> IsBlank(s[m])
    ensures k > lo ==> !IsBlank(s[k - 1])
    decreases j
  {
    if lo < j && IsBlank(s[j - 1]) then SkipTrailing(s, lo, j - 1) else j
  }

  /** Java's two-loop `trim`: advance the start past blanks, then pull the end back past blanks. */
  function Trim(s: string): (t: string)
    ensures |t| <= |s|
    ensures IsTrimmed(t)
  {
    var i := SkipLeading(s, 0);
    var j := SkipTrailing(s, i, |s|);
    s[i..j]
  }

  /** The trim of `s` is `s` less a blank prefix and a blank suffix, with no blank left at either end. */
  lemma TrimIsTrimOf(s: string)
    ensures IsTrimOf(s, Trim(s))
  {
    var i := SkipLeading(s, 0);
    var j := SkipTrailing(s, i, |s|);
    assert s[..i] == s[0..i];
    assert AllBlank(s[..i]);
    assert AllBlank(s[j..]);
  }

  /** The leading scan stops at the first non-blank character, wherever that is. */
  lemma {:induction false} SkipLeadingStopsAt(s: string, from: nat, i: nat)
    requires from <= i <= |s|
    requires forall m :: from <= m < i ==> IsBlank(s[m])
    requires i < |s| ==> !IsBlank(s[i])
    ensures SkipLeading(s, from) == i
    decreases i - from
  {
    if from < i {
      SkipLeadingStopsAt(s, from + 1, i);
    }
  }

  /** The trailing scan stops just after the last non-blank character at or after `lo`. */
  lemma {:induction false} SkipTrailingStopsAt(s: string, lo: nat, j: nat, k: nat)
    requires lo <= k <= j <= |s|
    requires forall m :: k <= m < j ==> IsBlank(s[m])
    requires k > lo ==> !IsBlank(s[k - 1])
    ensures SkipTrailing(s, lo, j) == k
    decreases j
  {
    if k < j {
      SkipTrailingStopsAt(s, lo, j - 1, k);
    }
  }

  /** Cutting a blank prefix and suffix from `s` so that no blank end remains is what `Trim` does. */
  lemma TrimAt(s: string, i: nat, j: nat)
    requires i <= j <= |s|
    requires forall m :: 0 <= m < i ==> IsBlank(s[m])
    requires forall m :: j <= m < |s| ==> IsBlank(s[m])
    requires i < j ==> !IsBlank(s[i]) && !IsBlank(s[j - 1])
    ensures Trim(s) == s[i..j]
  {
    if i == j {
      // Everything in `s` is blank, so both scans meet at the end.
      SkipLeadingStopsAt(s, 0, |s|);
      SkipTrailingStopsAt(s, |s|, |s|, |s|);
    } else {
      SkipLeadingStopsAt(s, 0, i);
      SkipTrailingStopsAt(s, i, |s|, j);
    }
  }

  /** A blank slice has a blank character at each of its indices. */
  lemma AllBlankSlice(s: string, lo: nat, hi: nat)
    requires lo <= hi <= |s|
    requires AllBlank(s[lo..hi])
    ensures forall m :: lo <= m < hi ==> IsBlank(s[m])
  {
    forall m | lo <= m < hi ensures IsBlank(s[m]) {
      assert s[lo..hi][m - lo] == s[m];
    }
  }

  /** At most one string is the trim of `s`, so `Trim` is fully determined by `IsTrimOf`. */
  lemma TrimOfIsUnique(s: string, t: string)
    requires IsTrimOf(s, t)
    ensures Trim(s) == t
  {
    var i, j :| 0 <= i <= j <= |s| && s[i..j] == t && AllBlank(s[..i]) && AllBlank(s[j..]);
    assert s[..i] == s[0..i] && s[j..] == s[j..|s|];
    AllBlankSlice(s, 0, i);
    AllBlankSlice(s, j, |s|);
    if i < j {
      assert s[i] == t[0] && s[j - 1] == t[|t| - 1];
    }
    TrimAt(s, i, j);
  }

  /** Trimming twice is trimming once. */
  lemma TrimIdempotent(s: string)
    ensures Trim(Trim(s)) == Trim(s)
  {
    var t := Trim(s);
    TrimIsTrimOf(s);
    assert t[0..|t|] == t && t[..0] == [] && t[|t|..] == [];
    assert IsTrimOf(t, t);
    TrimOfIsUnique(t, t);
  }

  /** A string without blank ends is left as it is. */
  lemma TrimOfTrimmed(s: string)
    requires IsTrimmed(s)
    ensures Trim(s) == s
  {
    assert s[0..|s|] == s && s[..0] == [] && s[|s|..] == [];
    assert IsTrimOf(s, s);
    TrimOfIsUnique(s, s);
  }
}
