/** The string tests the scraper applies to URLs: `startswith`, `in` and `lower()`. */
module Strings {

  /** `s.startswith(prefix)`. */
  predicate IsPrefix(prefix: string, s: string)
    ensures IsPrefix(prefix, s) <==> |prefix| <= |s| && s == prefix + s[|prefix|..]
  {
    |prefix| <= |s| && s[..|prefix|] == prefix
  }

  /** `part` occurs in `s` starting at index `i`. */
  predicate OccursAt(s: string, part: string, i: int) {
    0 <= i && i + |part| <= |s| && s[i..i + |part|] == part
  }

  /** `part in s`: `part` occurs somewhere in `s` as a contiguous substring. */
  predicate Contains(s: string, part: string)
    decreases |s|
  {
    IsPrefix(part, s) || (s != [] && Contains(s[1..], part))
  }

  /** `Contains` finds exactly the indexes where `part` occurs. */
  lemma {:induction false} ContainsOccurs(s: string, part: string)
    ensures Contains(s, part) <==> exists i :: OccursAt(s, part, i)
    decreases |s|
  {
    if IsPrefix(part, s) {
      assert OccursAt(s, part, 0);
    } else if s != [] {
      ContainsOccurs(s[1..], part);
      assert forall i {:trigger OccursAt(s, part, i)} :: OccursAt(s, part, i) && i >= 1 ==> OccursAt(s[1..], part, i - 1);
      assert forall i {:trigger OccursAt(s[1..], part, i)} :: OccursAt(s[1..], part, i) ==> OccursAt(s, part, i + 1);
    }
  }

  /** Lower-casing of one character (ASCII letters only). */
  function LowerChar(c: char): char {
    if 'A' <= c <= 'Z' then (c as int + 32) as char else c
  }

  predicate IsUpper(c: char) {
    'A' <= c <= 'Z'
  }

  /** `s.lower()` restricted to ASCII letters. */
  function Lower(s: string): (r: string)
    ensures |r| == |s|
    ensures forall i :: 0 <= i < |s| ==> !IsUpper(r[i])
    ensures forall i :: 0 <= i < |s| && !IsUpper(s[i]) ==> r[i] == s[i]
    ensures forall i :: 0 <= i < |s| && IsUpper(s[i]) ==> r[i] as int - s[i] as int == 'a' as int - 'A' as int
  {
    seq(|s|, i requires 0 <= i < |s| => LowerChar(s[i]))
  }

  /** Lower-casing leaves no upper-case letter and is idempotent. */
  lemma LowerIsLower(s: string)
    ensures forall i :: 0 <= i < |s| ==> !IsUpper(Lower(s)[i])
    ensures Lower(Lower(s)) == Lower(s)
  {
  }

  /** An occurrence survives lower-casing: lower-cased, `part` occurs in the lower-cased `s`. */
  lemma {:induction false} ContainsLower(s: string, part: string)
    requires Contains(s, part)
    ensures Contains(Lower(s), Lower(part))
    decreases |s|
  {
    if IsPrefix(part, s) {
      assert Lower(s)[..|part|] == Lower(part);
    } else {
      ContainsLower(s[1..], part);
      assert Lower(s)[1..] == Lower(s[1..]);
    }
  }
}
