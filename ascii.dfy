/**
 * ASCII character helpers shared by the parsers: the library's calls to
 * ::tolower / ::toupper are modelled as ASCII-only case mappings, and
 * std::from_chars / std::stoll as the natural-number value of a digit string.
 */
module Ascii {

  function ToLower(c: char): char {
    if 'A' <= c <= 'Z' then (c as int + 32) as char else c
  }

  function ToUpper(c: char): char {
    if 'a' <= c <= 'z' then (c as int - 32) as char else c
  }

  /** std::transform(s.begin(), s.end(), s.begin(), ::tolower) */
  function Lower(s: string): (r: string)
    ensures |r| == |s|
    ensures forall i :: 0 <= i < |s| ==> r[i] == ToLower(s[i])
  {
    seq(|s|, i requires 0 <= i < |s| => ToLower(s[i]))
  }

  /** std::transform(s.begin(), s.end(), s.begin(), ::toupper) */
  function Upper(s: string): (r: string)
    ensures |r| == |s|
    ensures forall i :: 0 <= i < |s| ==> r[i] == ToUpper(s[i])
  {
    seq(|s|, i requires 0 <= i < |s| => ToUpper(s[i]))
  }

  /** A string that lowercasing leaves unchanged. */
  predicate IsLowerCase(s: string) {
    forall i :: 0 <= i < |s| ==> ToLower(s[i]) == s[i]
  }

  /** Equal length and equal characters under ToLower. */
  predicate EqualsIgnoreCase(a: string, b: string) {
    |a| == |b| && forall i :: 0 <= i < |a| ==> ToLower(a[i]) == ToLower(b[i])
  }

  lemma {:induction false} LowerIsLowerCase(s: string)
    ensures IsLowerCase(Lower(s))
  {
    forall i | 0 <= i < |s| ensures ToLower(Lower(s)[i]) == Lower(s)[i] {
      assert Lower(s)[i] == ToLower(s[i]);
    }
  }

  predicate IsDigit(c: char) {
    '0' <= c <= '9'
  }

  predicate AllDigits(s: string) {
    forall i :: 0 <= i < |s| ==> IsDigit(s[i])
  }

  /** The natural-number value of a decimal digit string. */
  function Value(s: string): nat
    requires AllDigits(s)
  {
    if |s| == 0 then 0 else Value(s[..|s| - 1]) * 10 + (s[|s| - 1] as int - '0' as int)
  }
}
