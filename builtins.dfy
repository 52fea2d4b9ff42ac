// The JavaScript built-ins that the search core relies on, stated as functions:
// Array.prototype.join(""), Array.prototype.indexOf (identity lookup) and
// String.prototype.indexOf (forward literal substring search).
module Builtins {

  /** `s.join("")`: the parts concatenated in order, with nothing in between. */
  function Join(parts: seq<string>): string
  {
    if parts == [] then "" else Join(parts[..|parts| - 1]) + parts[|parts| - 1]
  }

  /** `s.indexOf(x)`: the first index holding `x`, or -1 when `x` is absent. */
  function ArrayIndexOf<T(==)>(s: seq<T>, x: T): (r: int)
    ensures r == -1 <==> x !in s
    ensures r != -1 ==> 0 <= r < |s| && s[r] == x && x !in s[..r]
  {
    if s == [] then -1
    else if s[0] == x then 0
    else
      var r := ArrayIndexOf(s[1..], x);
      assert s[1..] == s[1..][..|s| - 1];
      if r == -1 then -1
      else
        assert s[..r + 1] == [s[0]] + s[1..][..r];
        r + 1
  }

  /** The pattern occurs in the text starting at index `i`. */
  predicate OccursAt(text: string, pattern: string, i: int)
  {
    0 <= i && i + |pattern| <= |text| && text[i..i + |pattern|] == pattern
  }

  /** `fromIndex` as String.prototype.indexOf uses it: clamped to the text length. */
  function Clamp(fromIndex: nat, length: nat): nat
  {
    if fromIndex < length then fromIndex else length
  }

  /** Left-to-right scan for the first occurrence at or after `i`. */
  function FirstOccurrence(text: string, pattern: string, i: nat): (r: int)
    ensures r == -1 || (i <= r && OccursAt(text, pattern, r))
    ensures r == -1 <==> forall j :: i <= j ==> !OccursAt(text, pattern, j)
    ensures r != -1 ==> forall j :: i <= j < r ==> !OccursAt(text, pattern, j)
    decreases |text| - i
  {
    if i + |pattern| > |text| then -1
    else if text[i..i + |pattern|] == pattern then i
    else FirstOccurrence(text, pattern, i + 1)
  }

  /** `text.indexOf(pattern, fromIndex)`: the first occurrence of `pattern` at
      or after the clamped `fromIndex`, or -1 if there is none. */
  function StringIndexOf(text: string, pattern: string, fromIndex: nat): (r: int)
    ensures var from := Clamp(fromIndex, |text|);
      (r == -1 <==> forall j :: from <= j ==> !OccursAt(text, pattern, j)) &&
      (r != -1 ==> from <= r && OccursAt(text, pattern, r) &&
                   forall j :: from <= j < r ==> !OccursAt(text, pattern, j))
  {
    FirstOccurrence(text, pattern, Clamp(fromIndex, |text|))
  }
}
