/**
 * The two string operations the core relies on: lower-casing (`String.ToLower`),
 * used for case-insensitive category codes, and `String.IsNullOrWhiteSpace`,
 * used by the `[Required]` validation attribute.
 */
module Text {

  /** Lower-cases one ASCII letter and leaves every other character alone. */
  function LowerChar(c: char): char
  {
    if 'A' <= c <= 'Z' then (c as int - 'A' as int + 'a' as int) as char else c
  }

  /** `s.ToLower()`, on ASCII letters. */
  function Lower(s: string): (r: string)
    ensures |r| == |s|
    ensures forall i :: 0 <= i < |s| ==> r[i] == LowerChar(s[i])
  {
    if s == [] then [] else [LowerChar(s[0])] + Lower(s[1..])
  }

  /** `a.ToLower() == b.ToLower()`. */
  predicate EqualIgnoringCase(a: string, b: string)
  {
    Lower(a) == Lower(b)
  }

  /** Two strings are equal ignoring case exactly when they have the same length
      and agree letter by letter once lower-cased. */
  lemma EqualIgnoringCaseIsPointwise(a: string, b: string)
    ensures EqualIgnoringCase(a, b) <==>
      |a| == |b| && forall i :: 0 <= i < |a| ==> LowerChar(a[i]) == LowerChar(b[i])
  {
    if |a| == |b| && forall i :: 0 <= i < |a| ==> LowerChar(a[i]) == LowerChar(b[i]) {
      assert forall i :: 0 <= i < |a| ==> Lower(a)[i] == Lower(b)[i];
    }
  }

  /** Lower-casing twice is lower-casing once. */
  lemma LowerIdempotent(s: string)
    ensures Lower(Lower(s)) == Lower(s)
  {
    assert forall i :: 0 <= i < |s| ==> Lower(Lower(s))[i] == Lower(s)[i];
  }

  /** Ignoring case is an equivalence: reflexive, symmetric and transitive. */
  lemma EqualIgnoringCaseIsEquivalence(a: string, b: string, c: string)
    ensures EqualIgnoringCase(a, a)
    ensures EqualIgnoringCase(a, b) ==> EqualIgnoringCase(b, a)
    ensures EqualIgnoringCase(a, b) && EqualIgnoringCase(b, c) ==> EqualIgnoringCase(a, c)
  {
  }

  /** `char.IsWhiteSpace`: the Unicode space, line and paragraph separators,
      the control characters U+0009 to U+000D, and U+0085. */
  predicate IsWhiteSpace(c: char)
  {
    || c == ' ' || ('\t' <= c <= '\r') || c == '\U{0085}' || c == '\U{00A0}' || c == '\U{1680}'
    || ('\U{2000}' <= c <= '\U{200A}') || c == '\U{2028}' || c == '\U{2029}' || c == '\U{202F}'
    || c == '\U{205F}' || c == '\U{3000}'
  }

  /** The non-null half of `String.IsNullOrWhiteSpace`: empty or only white space. */
  predicate IsBlank(s: string)
  {
    forall i :: 0 <= i < |s| ==> IsWhiteSpace(s[i])
  }
}
