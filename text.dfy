/**
 * Strings as the service and the evaluator compare them: lower-cased, and
 * tested for containment with Python's `in` operator on strings.
 */
module Text {

  predicate IsUpper(c: char) {
    'A' <= c <= 'Z'
  }

  /** ASCII lower-casing of one character. */
  function Lower(c: char): (d: char)
    ensures !IsUpper(d)
    ensures !IsUpper(c) ==> d == c
    ensures IsUpper(c) ==> 'a' <= d <= 'z' && d as int - c as int == 'a' as int - 'A' as int
  {
    if IsUpper(c) then (c as int - 'A' as int + 'a' as int) as char else c
  }

  /** `str.lower()`, character by character. */
  function LowerStr(s: string): (r: string)
    ensures |r| == |s|
    ensures forall i :: 0 <= i < |s| ==> r[i] == Lower(s[i])
  {
    seq(|s|, i requires 0 <= i < |s| => Lower(s[i]))
  }

  /** A string without upper-case letters is its own lower-case form. */
  lemma LowerStrOfLowerCase(s: string)
    requires forall i :: 0 <= i < |s| ==> !IsUpper(s[i])
    ensures LowerStr(s) == s
  {
  }

  /** Lower-casing works character by character from the front. */
  lemma LowerStrCons(c: char, s: string)
    ensures LowerStr([c] + s) == [Lower(c)] + LowerStr(s)
  {
  }

  /** Lower-casing twice is lower-casing once. */
  lemma LowerStrIdempotent(s: string)
    ensures LowerStr(LowerStr(s)) == LowerStr(s)
  {
    LowerStrOfLowerCase(LowerStr(s));
  }

  predicate IsPrefix(p: string, t: string) {
    |p| <= |t| && t[..|p|] == p
  }

  /** `p` occurs in `t` at some position: the meaning of `p in t`. */
  predicate IsSubstring(p: string, t: string) {
    exists k :: 0 <= k <= |t| && IsPrefix(p, t[k..])
  }

  /** Python's `p in t`, searching from the left. */
  function Contains(p: string, t: string): (b: bool)
    ensures b <==> IsSubstring(p, t)
    decreases |t|
  {
    if IsPrefix(p, t) then
      assert t[0..] == t;
      true
    else if |t| == 0 then
      assert forall k :: 0 <= k <= |t| ==> t[k..] == t;
      false
    else
      var b := Contains(p, t[1..]);
      assert forall k :: 1 <= k <= |t| ==> t[1..][k - 1..] == t[k..];
      assert t[0..] == t;
      b
  }

  /** Only the empty string occurs in the empty string. */
  lemma SubstringOfEmpty(p: string)
    ensures IsSubstring(p, "") <==> p == ""
  {
    if p == "" {
      assert IsPrefix(p, ""[0..]);
    }
  }

  /** A pattern with a character absent from the text does not occur in it. */
  lemma AbsentCharNotSubstring(p: string, t: string, j: nat)
    requires j < |p| && p[j] !in t
    ensures !IsSubstring(p, t)
  {
    forall k | 0 <= k <= |t|
      ensures !IsPrefix(p, t[k..])
    {
      if |p| <= |t[k..]| {
        assert t[k..][..|p|][j] == t[k + j];
      }
    }
  }
}
