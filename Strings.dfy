/** Character classes, label search and trimming over `string`, as the
    regular expressions and `String.prototype.trim` of the flashcard
    server use them. */
module Strings {
  import opened Wrappers

  /** The white space of JavaScript: the WhiteSpace and LineTerminator code
      points, which are both what `\s` matches and what `trim` removes. No
      printable ASCII character is among them, so neither a label nor the
      separator ever starts or ends inside a run of white space. */
  function IsSpace(c: char): (b: bool)
    ensures b ==> !(0x21 <= c as int <= 0x7E)
  {
    var n := c as int;
    n == 0x09 || n == 0x0A || n == 0x0B || n == 0x0C || n == 0x0D || n == 0x20
    || n == 0xA0 || n == 0x1680 || (0x2000 <= n <= 0x200A) || n == 0x2028
    || n == 0x2029 || n == 0x202F || n == 0x205F || n == 0x3000 || n == 0xFEFF
  }

  /** Case folding of the `i` flag without the `u` flag, as far as matching
      the lower-case ASCII labels goes: both sides are upper-cased, but a
      character outside ASCII is never mapped onto an ASCII one, so only the
      letters `A` to `Z` fold onto a letter of a label. Every other
      character is kept, and then matches a label character only if it is
      that very character. */
  function Lower(c: char): (r: char)
    ensures !('A' <= r <= 'Z')
    ensures r == c || ('A' <= c <= 'Z' && r as int == c as int + ('a' as int - 'A' as int))
  {
    if 'A' <= c <= 'Z' then (c as int + 32) as char else c
  }

  /** The labels the regular expressions look for, written in lower case. */
  const QUESTION: string := "question:"
  const ANSWER: string := "answer:"
  /** The card separator. It has no letters, so matching it up to case is
      matching it exactly, as `includes` and `split` do. */
  const DELIMITER: string := "####"

  /** `pat` (lower case) occurs in `s` at index `i`, ignoring the case of
      ASCII letters. */
  predicate LabelAt(s: string, i: int, pat: string) {
    0 <= i && i + |pat| <= |s| && forall k :: 0 <= k < |pat| ==> Lower(s[i + k]) == pat[k]
  }

  /** `pat` occurs nowhere in `s`. */
  ghost predicate NoLabel(s: string, pat: string) {
    forall i :: !LabelAt(s, i, pat)
  }

  /** `pat` occurs in `s` with at least one character after it: what a label
      followed by a non-empty capture group needs. */
  ghost predicate LabelBeforeEnd(s: string, pat: string) {
    exists i :: LabelAt(s, i, pat) && i + |pat| < |s|
  }

  /** The leftmost occurrence of `pat` at or after `from`. */
  function Find(s: string, from: nat, pat: string): (r: Option<nat>)
    decreases |s| - from
    ensures r.Some? ==> from <= r.value && LabelAt(s, r.value, pat)
    ensures r.Some? ==> forall k :: from <= k < r.value ==> !LabelAt(s, k, pat)
    ensures r.None? ==> forall k :: from <= k ==> !LabelAt(s, k, pat)
  {
    if |s| < from + |pat| then None
    else if LabelAt(s, from, pat) then Some(from)
    else Find(s, from + 1, pat)
  }

  /** The first index `e >= from` at which the lookahead `(?=pat|$)`
      succeeds: an occurrence of `pat`, or the end of `s`. */
  function LabelOrEnd(s: string, from: nat, pat: string): (e: nat)
    requires from <= |s|
    decreases |s| - from
    ensures from <= e <= |s|
    ensures e == |s| || LabelAt(s, e, pat)
    ensures forall k :: from <= k < e ==> !LabelAt(s, k, pat)
  {
    if from == |s| || LabelAt(s, from, pat) then from else LabelOrEnd(s, from + 1, pat)
  }

  /** Where a greedy `\s*` that starts at `i` stops. */
  function SkipSpaces(s: string, i: nat): (j: nat)
    requires i <= |s|
    decreases |s| - i
    ensures i <= j <= |s|
    ensures forall k {:trigger IsSpace(s[k])} :: i <= k < j ==> IsSpace(s[k])
    ensures j == |s| || !IsSpace(s[j])
  {
    if i == |s| || !IsSpace(s[i]) then i else SkipSpaces(s, i + 1)
  }

  /** A greedy `\s*` that starts anywhere inside a run of white space stops
      where the run ends. */
  lemma SkipSpacesRun(s: string, i: nat)
    requires i <= |s|
    ensures forall e :: i <= e <= SkipSpaces(s, i) ==> SkipSpaces(s, e) == SkipSpaces(s, i)
  {
    forall e | i <= e <= SkipSpaces(s, i) ensures SkipSpaces(s, e) == SkipSpaces(s, i) {
    }
  }

  /** Where a run of white space that ends at `j` starts. */
  function SkipSpacesBack(s: string, j: nat): (i: nat)
    requires j <= |s|
    ensures i <= j
    ensures forall k {:trigger IsSpace(s[k])} :: i <= k < j ==> IsSpace(s[k])
    ensures i == 0 || !IsSpace(s[i - 1])
  {
    if j == 0 || !IsSpace(s[j - 1]) then j else SkipSpacesBack(s, j - 1)
  }

  /** `s` neither starts nor ends with white space. */
  predicate IsTrimmed(s: string) {
    s == [] || (!IsSpace(s[0]) && !IsSpace(s[|s| - 1]))
  }

  /** Where the text of `s[lo..hi]` lies once its leading and trailing white
      space is removed; `(hi, hi)` when it is all white space. */
  function TrimBounds(s: string, lo: nat, hi: nat): (r: (nat, nat))
    requires lo <= hi <= |s|
    ensures lo <= r.0 <= r.1 <= hi
    ensures forall k {:trigger IsSpace(s[k])} :: lo <= k < r.0 ==> IsSpace(s[k])
    ensures forall k {:trigger IsSpace(s[k])} :: r.1 <= k < hi ==> IsSpace(s[k])
    ensures r.0 < r.1 ==> !IsSpace(s[r.0]) && !IsSpace(s[r.1 - 1])
    ensures r.0 == r.1 ==> r.0 == hi
  {
    var a := SkipSpaces(s, lo);
    if hi <= a then (hi, hi) else (a, SkipSpacesBack(s, hi))
  }

  /** The text of `s[lo..hi]` without its leading and trailing white space,
      cut directly out of `s`. */
  function TrimmedSlice(s: string, lo: nat, hi: nat): (r: string)
    requires lo <= hi <= |s|
    ensures IsTrimmed(r) && |r| <= hi - lo
  {
    var b := TrimBounds(s, lo, hi);
    s[b.0..b.1]
  }

  /** `String.prototype.trim`: `s` without its leading and trailing white
      space. */
  function Trim(s: string): (r: string)
    ensures IsTrimmed(r) && |r| <= |s|
  {
    TrimmedSlice(s, 0, |s|)
  }

  /** What trimming keeps is the slice of `s` that starts at its first
      character that is not white space, and only white space follows it. */
  lemma TrimSlice(s: string)
    ensures SkipSpaces(s, 0) + |Trim(s)| <= |s|
    ensures Trim(s) == s[SkipSpaces(s, 0)..SkipSpaces(s, 0) + |Trim(s)|]
    ensures forall k {:trigger IsSpace(s[k])} :: SkipSpaces(s, 0) + |Trim(s)| <= k < |s| ==> IsSpace(s[k])
  {
  }

  /** Trimming a range leaves nothing exactly when the range is all white
      space. */
  lemma TrimBlank(s: string, lo: nat, hi: nat)
    requires lo <= hi <= |s|
    ensures Trim(s[lo..hi]) == [] <==> forall k :: lo <= k < hi ==> IsSpace(s[k])
  {
    TrimOfSlice(s, lo, hi);
    var b := TrimBounds(s, lo, hi);
    if b.0 < b.1 {
      assert !IsSpace(s[b.0]);
    }
  }

  /** A trimmed string keeps all of its characters. */
  lemma TrimTrimmed(s: string)
    requires IsTrimmed(s)
    ensures Trim(s) == s
  {
    var r := Trim(s);
    TrimSlice(s);
    if s != [] {
      assert SkipSpaces(s, 0) == 0;
    }
  }

  /** Trimming removes exactly the white space around a trimmed, non-empty
      core. */
  lemma TrimAround(pre: string, x: string, post: string)
    requires forall k :: 0 <= k < |pre| ==> IsSpace(pre[k])
    requires forall k :: 0 <= k < |post| ==> IsSpace(post[k])
    requires x != [] && IsTrimmed(x)
    ensures Trim(pre + x + post) == x
  {
    var s := pre + x + post;
    var lo := SkipSpaces(s, 0);
    assert s[|pre|] == x[0];
    assert lo == |pre|;
    var r := Trim(s);
    TrimSlice(s);
    assert s[|pre| + |x| - 1] == x[|x| - 1];
    assert lo + |r| >= |pre| + |x|;
    assert r == s[|pre|..|pre| + |x|];
    assert s[|pre|..|pre| + |x|] == x;
  }

  /** An occurrence of a label inside a slice is an occurrence in the whole
      string. */
  lemma LabelInSlice(s: string, lo: nat, hi: nat, i: int, pat: string)
    requires lo <= hi <= |s|
    requires LabelAt(s[lo..hi], i, pat)
    ensures LabelAt(s, lo + i, pat)
  {
    forall k | 0 <= k < |pat|
      ensures Lower(s[lo + i + k]) == pat[k]
    {
      assert s[lo..hi][i + k] == s[lo + i + k];
    }
  }

  /** An occurrence of a label is one at the start of the slice it begins. */
  lemma LabelInSliceStart(s: string, i: nat, hi: nat, pat: string)
    requires LabelAt(s, i, pat) && i + |pat| <= hi <= |s|
    ensures LabelAt(s[i..hi], 0, pat)
  {
    forall k | 0 <= k < |pat|
      ensures Lower(s[i..hi][k]) == pat[k]
    {
      assert s[i..hi][k] == s[i + k];
    }
  }

  /** `Find` from the start returns the first occurrence. */
  lemma FindFirst(t: string, i: nat, pat: string)
    requires LabelAt(t, i, pat) && forall k :: 0 <= k < i ==> !LabelAt(t, k, pat)
    ensures Find(t, 0, pat) == Some(i)
  {
    var r := Find(t, 0, pat);
    assert r.Some?;
    assert !(r.value < i) && !(i < r.value);
  }

  /** The leftmost occurrence of a label is still the leftmost one in a
      prefix that holds it. */
  lemma FindInPrefix(s: string, hi: nat, i: nat, pat: string)
    requires Find(s, 0, pat) == Some(i) && i + |pat| <= hi <= |s|
    ensures Find(s[..hi], 0, pat) == Some(i)
  {
    var t := s[..hi];
    forall k | 0 <= k < |pat|
      ensures Lower(t[i + k]) == pat[k]
    {
      assert t[i + k] == s[i + k];
    }
    forall k | 0 <= k < i
      ensures !LabelAt(t, k, pat)
    {
      if LabelAt(t, k, pat) {
        assert t == s[0..hi];
        LabelInSlice(s, 0, hi, k, pat);
      }
    }
    FindFirst(t, i, pat);
  }

  /** A slice of a string without a label has no label either. */
  lemma NoLabelSlice(s: string, lo: nat, hi: nat, pat: string)
    requires lo <= hi <= |s|
    requires forall k :: lo <= k && k + |pat| <= hi ==> !LabelAt(s, k, pat)
    ensures NoLabel(s[lo..hi], pat)
  {
    forall i | LabelAt(s[lo..hi], i, pat)
      ensures false
    {
      LabelInSlice(s, lo, hi, i, pat);
    }
  }

  /** A slice of a slice is a slice of the whole string. */
  lemma SliceOfSlice(s: string, lo: nat, hi: nat, a: nat, b: nat)
    requires lo <= hi <= |s| && a <= b <= hi - lo
    ensures s[lo..hi][a..b] == s[lo + a..lo + b]
  {
    forall k | 0 <= k < b - a
      ensures s[lo..hi][a..b][k] == s[lo + a..lo + b][k]
    {
      assert s[lo..hi][a..b][k] == s[lo..hi][a + k] == s[lo + a + k];
    }
  }

  /** The bounds of the trimmed text do not depend on where the text is cut
      out from. */
  lemma TrimBoundsShift(s: string, lo: nat, hi: nat)
    requires lo <= hi <= |s|
    ensures TrimBounds(s[lo..hi], 0, hi - lo).0 == TrimBounds(s, lo, hi).0 - lo
    ensures TrimBounds(s[lo..hi], 0, hi - lo).1 == TrimBounds(s, lo, hi).1 - lo
  {
    var x := s[lo..hi];
    var (a, b) := TrimBounds(s, lo, hi);
    var (a2, b2) := TrimBounds(x, 0, hi - lo);
    if a < b {
      assert x[a - lo] == s[a];
      assert x[b - 1 - lo] == s[b - 1];
    }
  }

  /** Trimming a slice keeps the part of the whole text between its trimmed
      bounds. */
  lemma TrimOfSlice(s: string, lo: nat, hi: nat)
    requires lo <= hi <= |s|
    ensures Trim(s[lo..hi]) == TrimmedSlice(s, lo, hi)
  {
    var x := s[lo..hi];
    var b := TrimBounds(s, lo, hi);
    var b2 := TrimBounds(x, 0, |x|);
    assert b2.0 == b.0 - lo && b2.1 == b.1 - lo by {
      TrimBoundsShift(s, lo, hi);
    }
    assert x[b2.0..b2.1] == s[b.0..b.1] by {
      SliceOfSlice(s, lo, hi, b2.0, b2.1);
    }
  }

  /** Bounds with a character that is not white space at each end and only
      white space outside them are the trimmed bounds. */
  lemma TrimBoundsOf(s: string, lo: nat, hi: nat, a: nat, b: nat)
    requires lo <= a < b <= hi <= |s|
    requires forall k :: lo <= k < a ==> IsSpace(s[k])
    requires forall k :: b <= k < hi ==> IsSpace(s[k])
    requires !IsSpace(s[a]) && !IsSpace(s[b - 1])
    ensures TrimBounds(s, lo, hi) == (a, b)
  {
    var r := TrimBounds(s, lo, hi);
    assert !IsSpace(s[a]) && !IsSpace(s[b - 1]);
  }

  /** Each character of an occurrence matches the label. */
  lemma LabelChar(s: string, i: nat, j: nat, pat: string)
    requires LabelAt(s, i, pat) && i <= j < i + |pat|
    ensures Lower(s[j]) == pat[j - i]
  {
    assert Lower(s[i + (j - i)]) == pat[j - i];
  }

  /** An occurrence inside a slice is an occurrence in the slice. */
  lemma LabelWithin(s: string, lo: nat, hi: nat, i: nat, pat: string)
    requires LabelAt(s, i, pat) && lo <= i && i + |pat| <= hi <= |s|
    ensures LabelAt(s[lo..hi], i - lo, pat)
  {
    forall k | 0 <= k < |pat|
      ensures Lower(s[lo..hi][i - lo + k]) == pat[k]
    {
      LabelChar(s, i, i + k, pat);
    }
  }
}
