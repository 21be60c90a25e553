/** ASCII case mapping, standing in for JavaScript's `toUpperCase` and
    `toLowerCase` on single characters. Characters outside `A`-`Z` and
    `a`-`z` are left unchanged. */
module CaseMapping {

  predicate IsAsciiUpper(c: char) { 'A' <= c <= 'Z' }

  predicate IsAsciiLower(c: char) { 'a' <= c <= 'z' }

  function ToLower(c: char): char {
    if IsAsciiUpper(c) then (c as int + 32) as char else c
  }

  function ToUpper(c: char): char {
    if IsAsciiLower(c) then (c as int - 32) as char else c
  }

  /** `s.map(x => x.toLowerCase())` */
  function LowerAll(s: string): (r: string)
    ensures |r| == |s|
    ensures forall i :: 0 <= i < |s| ==> r[i] == ToLower(s[i])
  {
    seq(|s|, i requires 0 <= i < |s| => ToLower(s[i]))
  }

  /** `s.toUpperCase().split('')` for ASCII strings; other characters are kept as they are. */
  function UpperAll(s: string): (r: string)
    ensures |r| == |s|
    ensures forall i :: 0 <= i < |s| ==> r[i] == ToUpper(s[i])
  {
    seq(|s|, i requires 0 <= i < |s| => ToUpper(s[i]))
  }

  /** Upper-casing a lowercase letter and lower-casing it again gives it back. */
  lemma LowerOfUpperAll(s: string)
    requires forall i :: 0 <= i < |s| ==> IsAsciiLower(s[i])
    ensures LowerAll(UpperAll(s)) == s
    ensures forall i :: 0 <= i < |s| ==> IsAsciiUpper(UpperAll(s)[i])
  {
  }
}
