/** ASCII text helpers standing in for Python's `str.lower`, `in` on strings
    and `str.startswith`. */
module Text {

  /** Lower-cases an ASCII upper-case letter; every other character is kept. */
  function LowerChar(c: char): (r: char)
    ensures 'A' <= c <= 'Z' ==> r as int == c as int + 32
    ensures !('A' <= c <= 'Z') ==> r == c
  {
    if 'A' <= c <= 'Z' then (c as int + 32) as char else c
  }

  /** `s.lower()` restricted to ASCII. */
  function ToLower(s: string): (r: string)
    ensures |r| == |s|
    ensures forall i :: 0 <= i < |s| ==> r[i] == LowerChar(s[i])
  {
    if s == [] then [] else [LowerChar(s[0])] + ToLower(s[1..])
  }

  /** Lower-casing twice changes nothing more than lower-casing once. */
  lemma ToLowerIdempotent(s: string)
    ensures ToLower(ToLower(s)) == ToLower(s)
  {
    var once := ToLower(s);
    var twice := ToLower(once);
    assert |twice| == |once|;
    forall i | 0 <= i < |once|
      ensures twice[i] == once[i]
    {
    }
  }

  /** `t` occurs in `s` starting at position `i`. */
  ghost predicate OccursAt(t: string, s: string, i: nat) {
    i + |t| <= |s| && s[i..i + |t|] == t
  }

  /** Python's `t in s` for strings: `t` is a contiguous part of `s`. */
  ghost predicate IsSubstring(t: string, s: string) {
    exists i: nat :: OccursAt(t, s, i)
  }

  /** An occurrence in the tail is an occurrence in the whole, one further on,
      and an occurrence away from the front is one in the tail. */
  lemma OccursShift(t: string, s: string)
    requires |s| > 0
    ensures forall i: nat :: OccursAt(t, s[1..], i) ==> OccursAt(t, s, i + 1)
    ensures forall i: nat :: i > 0 && OccursAt(t, s, i) ==> OccursAt(t, s[1..], i - 1)
  {
    forall i: nat | OccursAt(t, s[1..], i)
      ensures OccursAt(t, s, i + 1)
    {
      assert s[1..][i..i + |t|] == s[i + 1..i + 1 + |t|];
    }
    forall i: nat | i > 0 && OccursAt(t, s, i)
      ensures OccursAt(t, s[1..], i - 1)
    {
      assert s[1..][i - 1..i - 1 + |t|] == s[i..i + |t|];
    }
  }

  /** Executable substring test, scanning `s` from the front. */
  function Contains(t: string, s: string): (b: bool)
    ensures b <==> IsSubstring(t, s)
    decreases |s|
  {
    if |t| > |s| then
      assert forall i: nat :: !OccursAt(t, s, i);
      false
    else if s[..|t|] == t then
      assert OccursAt(t, s, 0);
      true
    else
      OccursShift(t, s);
      assert !OccursAt(t, s, 0);
      var rest := Contains(t, s[1..]);
      assert rest ==> OccursAt(t, s, 1 + (var i: nat :| OccursAt(t, s[1..], i); i));
      rest
  }

  /** Every string contains itself. */
  lemma ContainsSelf(s: string)
    ensures Contains(s, s)
  {
    assert OccursAt(s, s, 0);
  }

  /** A string containing `t + u` contains `t`: containment of a longer
      pattern implies containment of each of its prefixes. */
  lemma ContainsPrefixOfPattern(t: string, u: string, s: string)
    requires Contains(t + u, s)
    ensures Contains(t, s)
  {
    var i: nat :| OccursAt(t + u, s, i);
    assert s[i..i + |t|] == (t + u)[..|t|];
    assert OccursAt(t, s, i);
  }

  /** `s.startswith(p)`. */
  predicate StartsWith(s: string, p: string) {
    |p| <= |s| && s[..|p|] == p
  }
}
