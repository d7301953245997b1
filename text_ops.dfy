/**
 * The Python string built-ins the converter relies on, written out:
 * truthiness of an optional string, `str.isspace` / `str.strip()`,
 * `str.replace('\n', ' ')` and `str.find`.
 */
module TextOps {
  import opened Wrappers

  /** Python truthiness of a value that is either `None` or a `str`. */
  predicate Truthy(s: Option<string>) {
    s.Some? && s.value != ""
  }

  /**
   * The characters Python's `str.isspace` accepts, which are exactly the
   * characters `str.strip()` removes when called without arguments.
   */
  predicate IsSpace(c: char) {
    var n := c as int;
    (0x09 <= n <= 0x0D) || (0x1C <= n <= 0x20) || n == 0x85 || n == 0xA0 || n == 0x1680
    || (0x2000 <= n <= 0x200A) || n == 0x2028 || n == 0x2029 || n == 0x202F || n == 0x205F
    || n == 0x3000
  }

  /** Every character of `s` at an index in [lo, hi) is whitespace. */
  predicate SpacesIn(s: string, lo: int, hi: int)
    requires 0 <= lo <= hi <= |s|
  {
    forall k :: lo <= k < hi ==> IsSpace(s[k])
  }

  predicate AllSpace(s: string) {
    SpacesIn(s, 0, |s|)
  }

  /** Neither the first nor the last character is whitespace. */
  predicate IsTrimmed(s: string) {
    s == [] || (!IsSpace(s[0]) && !IsSpace(s[|s| - 1]))
  }

  /** The first index at or after `i` that does not hold whitespace (or `|s|`). */
  function SkipSpaces(s: string, i: nat): (r: nat)
    requires i <= |s|
    ensures i <= r <= |s| && SpacesIn(s, i, r)
    ensures r < |s| ==> !IsSpace(s[r])
    decreases |s| - i
  {
    if i < |s| && IsSpace(s[i]) then SkipSpaces(s, i + 1) else i
  }

  /** Moving down from `j`, but not below `lo`: the end of `s[lo..j]` once its trailing whitespace is gone. */
  function BackSpaces(s: string, lo: nat, j: nat): (r: nat)
    requires lo <= j <= |s|
    ensures lo <= r <= j && SpacesIn(s, r, j)
    ensures r > lo ==> !IsSpace(s[r - 1])
  {
    if j > lo && IsSpace(s[j - 1]) then BackSpaces(s, lo, j - 1) else j
  }

  /**
   * Python's `s.strip()`: whitespace removed from both ends, by moving a
   * start index forward and an end index backward, then slicing.
   */
  function Strip(s: string): (r: string)
    ensures |r| <= |s| && IsTrimmed(r)
  {
    var i := SkipSpaces(s, 0);
    s[i..BackSpaces(s, i, |s|)]
  }

  /** What `Strip` removes is whitespace, and only from the two ends. */
  lemma StripIsInfix(s: string)
    ensures var i := SkipSpaces(s, 0); var j := BackSpaces(s, i, |s|);
      Strip(s) == s[i..j] && SpacesIn(s, 0, i) && SpacesIn(s, j, |s|)
  {
  }

  /** Stripping adds no character: one absent from `s` is absent from `Strip(s)`. */
  lemma StripAddsNothing(s: string, c: char)
    requires c !in s
    ensures c !in Strip(s)
  {
  }

  /** Stripping a string without surrounding whitespace gives it back. */
  lemma StripTrimmed(s: string)
    requires IsTrimmed(s)
    ensures Strip(s) == s
  {
  }

  /** Stripping leaves nothing exactly when the string is all whitespace. */
  lemma StripEmpty(s: string)
    ensures Strip(s) == [] <==> AllSpace(s)
  {
  }

  /** Python's `s.replace('\n', ' ')`. */
  function ReplaceNewlines(s: string): (r: string)
    ensures |r| == |s| && '\n' !in r
    ensures forall k :: 0 <= k < |s| ==> IsSpace(r[k]) == IsSpace(s[k])
    ensures '\n' !in s ==> r == s
  {
    seq(|s|, k requires 0 <= k < |s| => if s[k] == '\n' then ' ' else s[k])
  }

  /**
   * Each newline becomes one space and nothing else moves: replacing in a
   * text cut at a newline is replacing in the two sides and joining them
   * with a space. With the identity on newline-free text, this determines
   * the result for every text.
   */
  lemma ReplaceNewlinesSplit(a: string, b: string)
    ensures ReplaceNewlines(a + "\n" + b) == ReplaceNewlines(a) + " " + ReplaceNewlines(b)
  {
  }

  /** `pat` occurs in `text` starting at index `k`. */
  predicate OccursAt(text: string, pat: string, k: int) {
    0 <= k && k + |pat| <= |text| && text[k..k + |pat|] == pat
  }

  predicate Contains(text: string, pat: string) {
    exists k :: 0 <= k <= |text| && OccursAt(text, pat, k)
  }

  /** An occurrence in the tail of a text is an occurrence in the text. */
  lemma ContainsTail(text: string, pat: string)
    requires text != []
    ensures Contains(text[1..], pat) ==> Contains(text, pat)
  {
    if Contains(text[1..], pat) {
      var k :| 0 <= k <= |text| - 1 && OccursAt(text[1..], pat, k);
      assert text[1..][k..k + |pat|] == text[k + 1..k + 1 + |pat|];
      assert OccursAt(text, pat, k + 1);
    }
  }

  /** The first occurrence of `pat` at or after `from`, or -1. */
  function FindFrom(text: string, pat: string, from: nat): (r: int)
    requires from <= |text|
    ensures r == -1 || (from <= r && OccursAt(text, pat, r))
    ensures r == -1 ==> forall k :: from <= k ==> !OccursAt(text, pat, k)
    ensures r != -1 ==> forall k :: from <= k < r ==> !OccursAt(text, pat, k)
    decreases |text| - from
  {
    if from + |pat| > |text| then -1
    else if text[from..from + |pat|] == pat then from
    else FindFrom(text, pat, from + 1)
  }

  /** Python's `text.find(pat)`: the index of the first occurrence, or -1 when there is none. */
  function Find(text: string, pat: string): (r: int)
    ensures r == -1 <==> !Contains(text, pat)
    ensures r != -1 ==> OccursAt(text, pat, r) && forall k :: 0 <= k < r ==> !OccursAt(text, pat, k)
  {
    FindFrom(text, pat, 0)
  }
}
