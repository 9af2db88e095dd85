/**
 * `String.join(sep, list)` and `String.split(sep)` (limit 0) from java.lang,
 * for a one-character separator that is not a regular-expression
 * metacharacter (`~` and `:` in this program).
 *
 * Java's split cuts at every separator, then drops all trailing empty
 * fields; when the separator does not occur at all the result is the
 * string itself as the only element, even when that string is empty.
 */
module Split {

  /** Concatenates `xs` with `sep` between neighbours; the empty list joins to "". */
  function Join(xs: seq<string>, sep: char): (s: string)
    ensures |xs| == 1 ==> s == xs[0]
    ensures (forall k :: 0 <= k < |xs| ==> sep !in xs[k]) ==> (sep in s <==> |xs| >= 2)
  {
    if |xs| == 0 then ""
    else if |xs| == 1 then xs[0]
    else xs[0] + [sep] + Join(xs[1..], sep)
  }

  /** Every field between separators, empty ones included: one more field than separators. */
  function Fields(s: string, sep: char): (fs: seq<string>)
    ensures |fs| >= 1
    ensures sep !in s ==> fs == [s]
    ensures forall k :: 0 <= k < |fs| ==> sep !in fs[k]
    decreases |s|
  {
    if |s| == 0 then [""]
    else
      var rest := Fields(s[1..], sep);
      assert [s[0]] + s[1..] == s;
      if s[0] == sep then [""] + rest
      else [[s[0]] + rest[0]] + rest[1..]
  }

  /** Removes empty strings from the end of the list only. */
  function DropTrailingEmpty(xs: seq<string>): (ys: seq<string>)
    ensures |ys| <= |xs|
    ensures ys == xs[..|ys|]
    ensures |ys| > 0 ==> ys[|ys| - 1] != ""
    ensures forall k :: |ys| <= k < |xs| ==> xs[k] == ""
  {
    if |xs| > 0 && xs[|xs| - 1] == "" then DropTrailingEmpty(xs[..|xs| - 1]) else xs
  }

  /** Java's `s.split(sep)` with the default limit of zero. */
  function JavaSplit(s: string, sep: char): (fs: seq<string>)
    ensures sep !in s ==> fs == [s]
    ensures forall k :: 0 <= k < |fs| ==> sep !in fs[k]
    ensures sep in s ==> |fs| == 0 || fs[|fs| - 1] != ""
  {
    if sep !in s then [s] else DropTrailingEmpty(Fields(s, sep))
  }

  /** Cutting at the first separator yields the text before it as the first field. */
  lemma {:induction false} FieldsAfterSeparator(a: string, sep: char, b: string)
    requires sep !in a
    ensures Fields(a + [sep] + b, sep) == [a] + Fields(b, sep)
    decreases |a|
  {
    if |a| == 0 {
      assert a + [sep] + b == [sep] + b;
      assert ([sep] + b)[1..] == b;
    } else {
      var s := a + [sep] + b;
      assert s[0] == a[0];
      assert s[1..] == a[1..] + [sep] + b;
      FieldsAfterSeparator(a[1..], sep, b);
      assert [a[0]] + a[1..] == a;
    }
  }

  /** Splitting a join into every field recovers the list, whenever no element holds the separator. */
  lemma {:induction false} FieldsOfJoin(xs: seq<string>, sep: char)
    requires |xs| >= 1
    requires forall k :: 0 <= k < |xs| ==> sep !in xs[k]
    ensures Fields(Join(xs, sep), sep) == xs
  {
    if |xs| > 1 {
      FieldsOfJoin(xs[1..], sep);
      FieldsAfterSeparator(xs[0], sep, Join(xs[1..], sep));
      assert [xs[0]] + xs[1..] == xs;
    }
  }

  /**
   * The options round trip of this program: `split` undoes `join` when the
   * list is not empty, no element holds the separator, and the list is a
   * single element or ends in a non-empty one.
   */
  lemma SplitJoinRoundTrip(xs: seq<string>, sep: char)
    requires |xs| >= 1
    requires forall k :: 0 <= k < |xs| ==> sep !in xs[k]
    requires |xs| == 1 || xs[|xs| - 1] != ""
    ensures JavaSplit(Join(xs, sep), sep) == xs
  {
    if |xs| >= 2 {
      FieldsOfJoin(xs, sep);
      assert DropTrailingEmpty(xs) == xs;
    }
  }

  /** A trailing empty element does not survive the round trip. */
  lemma SplitDropsTrailingEmpty()
    ensures JavaSplit(Join(["a", ""], '~'), '~') == ["a"]
    ensures JavaSplit(Join(["", ""], '~'), '~') == []
  {
    FieldsOfJoin(["a", ""], '~');
    FieldsOfJoin(["", ""], '~');
  }

  /** The first field of a split is the text before the first separator, when that text is non-empty. */
  lemma FirstSplitField(a: string, sep: char, b: string)
    requires sep !in a && a != ""
    ensures |JavaSplit(a + [sep] + b, sep)| >= 1
    ensures JavaSplit(a + [sep] + b, sep)[0] == a
  {
    var s := a + [sep] + b;
    assert s[|a|] == sep;
    FieldsAfterSeparator(a, sep, b);
    var fs := Fields(s, sep);
    var ys := DropTrailingEmpty(fs);
    assert fs[0] == a;
  }
}
