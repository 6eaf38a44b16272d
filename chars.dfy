/**
 * Character classes used by the scanner and by the decimal text of `int`
 * values, with the maximal runs the scanner's loops skip over.
 */
module Chars {
  /** `c >= '0' && c <= '9'` */
  predicate IsDigit(c: char) {
    '0' <= c <= '9'
  }

  /** An ASCII letter, `a`..`z` or `A`..`Z` */
  predicate IsLetter(c: char) {
    'a' <= c <= 'z' || 'A' <= c <= 'Z'
  }

  /** A character that may continue an identifier */
  predicate IsAlnum(c: char) {
    IsDigit(c) || IsLetter(c)
  }

  /** The end of the maximal run of digits in `s` that starts at `i` */
  function DigitRunEnd(s: seq<char>, i: nat): (j: nat)
    requires i <= |s|
    ensures i <= j <= |s|
    ensures forall k :: i <= k < j ==> IsDigit(s[k])
    ensures j < |s| ==> !IsDigit(s[j])
    decreases |s| - i
  {
    if i < |s| && IsDigit(s[i]) then DigitRunEnd(s, i + 1) else i
  }

  /** The end of the maximal run of letters and digits in `s` that starts at `i` */
  function AlnumRunEnd(s: seq<char>, i: nat): (j: nat)
    requires i <= |s|
    ensures i <= j <= |s|
    ensures forall k :: i <= k < j ==> IsAlnum(s[k])
    ensures j < |s| ==> !IsAlnum(s[j])
    decreases |s| - i
  {
    if i < |s| && IsAlnum(s[i]) then AlnumRunEnd(s, i + 1) else i
  }

  /** A run is maximal in exactly one place: the contract of DigitRunEnd pins it down. */
  lemma DigitRunEndUnique(s: seq<char>, i: nat, j: nat)
    requires i <= j <= |s|
    requires forall k :: i <= k < j ==> IsDigit(s[k])
    requires j < |s| ==> !IsDigit(s[j])
    ensures DigitRunEnd(s, i) == j
  {
  }
}
