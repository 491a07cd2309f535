/**
 * The three string primitives the matcher relies on, as Python defines them:
 * `str.upper()` (restricted to ASCII letters), `str.strip()` with no argument,
 * and the substring test `needle in haystack`.
 */
module Text {

  /** `c.isspace()` in Python: the characters `str.strip()` removes. */
  predicate IsSpace(c: char) {
    var n := c as int;
    (0x09 <= n <= 0x0D) || (0x1C <= n <= 0x20) || n == 0x85 || n == 0xA0 ||
    n == 0x1680 || (0x2000 <= n <= 0x200A) || n == 0x2028 || n == 0x2029 ||
    n == 0x202F || n == 0x205F || n == 0x3000
  }

  predicate IsLowerAscii(c: char) {
    'a' <= c <= 'z'
  }

  /** `c.upper()` for one character: the capital of an ASCII lower-case letter, or `c` itself. */
  function UpperChar(c: char): (u: char)
    ensures !IsLowerAscii(u)
    ensures IsLowerAscii(c) ==> 'A' <= u <= 'Z' && u as int == c as int - 32
    ensures !IsLowerAscii(c) ==> u == c
  {
    if IsLowerAscii(c) then (c as int - 32) as char else c
  }

  /**
   * `s.upper()`, character by character: every ASCII lower-case letter
   * becomes its capital, all else is kept.
   */
  function Upper(s: string): (r: string)
    ensures |r| == |s|
    ensures forall i :: 0 <= i < |s| ==> r[i] == UpperChar(s[i])
  {
    seq(|s|, i requires 0 <= i < |s| => UpperChar(s[i]))
  }

  /** The first position at or after `i` that does not hold white space (or `|s|`). */
  function SkipLeading(s: string, i: nat): (j: nat)
    requires i <= |s|
    ensures i <= j <= |s|
    ensures forall k :: i <= k < j ==> IsSpace(s[k])
    ensures j < |s| ==> !IsSpace(s[j])
    decreases |s| - i
  {
    if i < |s| && IsSpace(s[i]) then SkipLeading(s, i + 1) else i
  }

  /** Going back from `j` but not below `lo`, the end of the text once trailing white space is cut. */
  function SkipTrailing(s: string, lo: nat, j: nat): (e: nat)
    requires lo <= j <= |s|
    ensures lo <= e <= j
    ensures forall k :: e <= k < j ==> IsSpace(s[k])
    ensures e > lo ==> !IsSpace(s[e - 1])
    decreases j
  {
    if j > lo && IsSpace(s[j - 1]) then SkipTrailing(s, lo, j - 1) else j
  }

  /** `r` is the slice of `s` starting at `a`, and everything outside that slice is white space. */
  ghost predicate IsSliceBetweenSpaces(s: string, r: string, a: int) {
    0 <= a <= |s| - |r| && r == s[a..a + |r|] &&
    (forall k :: 0 <= k < a ==> IsSpace(s[k])) &&
    (forall k :: a + |r| <= k < |s| ==> IsSpace(s[k]))
  }

  /**
   * `s.strip()`: the longest middle slice of `s` that neither starts nor ends
   * with white space; everything cut off on either side is white space.
   */
  function Strip(s: string): (r: string)
    ensures IsSliceBetweenSpaces(s, r, SkipLeading(s, 0))
    ensures r == [] || (!IsSpace(r[0]) && !IsSpace(r[|r| - 1]))
  {
    var a := SkipLeading(s, 0);
    s[a..SkipTrailing(s, a, |s|)]
  }

  /** The slice of `hay` starting at `i` is `needle`. */
  ghost predicate OccursAt(hay: string, needle: string, i: int) {
    0 <= i && i + |needle| <= |hay| && hay[i..i + |needle|] == needle
  }

  /** `needle in hay`: some slice of `hay` equals `needle`. */
  function Contains(hay: string, needle: string): (b: bool)
    ensures b <==> exists i :: OccursAt(hay, needle, i)
    decreases |hay|
  {
    if |needle| > |hay| then
      false
    else if hay[..|needle|] == needle then
      assert OccursAt(hay, needle, 0);
      true
    else
      ShiftOccurrence(hay, needle);
      Contains(hay[1..], needle)
  }

  /** An occurrence in `hay[1..]` is an occurrence in `hay` one place later. */
  lemma ShiftOccurrence(hay: string, needle: string)
    requires |hay| > 0
    requires !OccursAt(hay, needle, 0)
    ensures (exists i :: OccursAt(hay[1..], needle, i)) <==> (exists i :: OccursAt(hay, needle, i))
  {
    forall i | OccursAt(hay[1..], needle, i) ensures OccursAt(hay, needle, i + 1) {
      assert hay[1..][i..i + |needle|] == hay[i + 1..i + 1 + |needle|];
    }
    forall i | OccursAt(hay, needle, i) ensures OccursAt(hay[1..], needle, i - 1) {
      assert i != 0;
      assert hay[1..][i - 1..i - 1 + |needle|] == hay[i..i + |needle|];
    }
  }

  /** The empty string occurs in every string, so `"" in s` always holds. */
  lemma EmptyIsEverywhere(hay: string)
    ensures Contains(hay, "")
  {
    assert OccursAt(hay, "", 0);
  }

  /** Upper-casing never touches white space, so it commutes with stripping. */
  lemma UpperStripCommute(s: string)
    ensures Strip(Upper(s)) == Upper(Strip(s))
  {
    var u := Upper(s);
    UpperSkipLeading(s, 0);
    var a := SkipLeading(s, 0);
    UpperSkipTrailing(s, a, |s|);
    var e := SkipTrailing(s, a, |s|);
    UpperSlice(s, a, e);
  }

  /** Upper-casing a slice is slicing the upper-cased text. */
  lemma UpperSlice(s: string, a: nat, e: nat)
    requires a <= e <= |s|
    ensures Upper(s)[a..e] == Upper(s[a..e])
  {
    forall k | 0 <= k < e - a ensures Upper(s)[a..e][k] == Upper(s[a..e])[k] {
      assert s[a..e][k] == s[a + k];
    }
  }

  /** No white-space character is an ASCII lower-case letter, so upper-casing keeps white space. */
  lemma UpperCharKeepsSpace(c: char)
    ensures IsSpace(UpperChar(c)) <==> IsSpace(c)
  {
  }

  lemma {:induction false} UpperSkipLeading(s: string, i: nat)
    requires i <= |s|
    ensures SkipLeading(Upper(s), i) == SkipLeading(s, i)
    decreases |s| - i
  {
    if i < |s| {
      assert Upper(s)[i] == UpperChar(s[i]);
      UpperCharKeepsSpace(s[i]);
      if IsSpace(s[i]) {
        UpperSkipLeading(s, i + 1);
      }
    }
  }

  lemma {:induction false} UpperSkipTrailing(s: string, lo: nat, j: nat)
    requires lo <= j <= |s|
    ensures SkipTrailing(Upper(s), lo, j) == SkipTrailing(s, lo, j)
    decreases j
  {
    if j > lo {
      assert Upper(s)[j - 1] == UpperChar(s[j - 1]);
      UpperCharKeepsSpace(s[j - 1]);
      if IsSpace(s[j - 1]) {
        UpperSkipTrailing(s, lo, j - 1);
      }
    }
  }
}
