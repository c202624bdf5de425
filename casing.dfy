/**
 * `str.upper()` on the topic, restricted to ASCII: the letters `a`..`z` become
 * `A`..`Z` and every other character is left alone. The report layout takes
 * the upper-casing function as a parameter; this is the instance that agrees
 * with Python on ASCII topics.
 */
module Casing {
  import opened Latin1

  /** Distance between an ASCII lower-case letter and its capital. */
  const CaseOffset: int := 'a' as int - 'A' as int

  /** The largest ASCII code point. */
  const MaxAscii: int := 0x7F

  predicate AllAscii(s: string) {
    forall i :: 0 <= i < |s| ==> s[i] as int <= MaxAscii
  }

  predicate IsAsciiLower(c: char) {
    'a' <= c <= 'z'
  }

  function UpperChar(c: char): char {
    if IsAsciiLower(c) then (c as int - CaseOffset) as char else c
  }

  function AsciiUpper(s: string): (r: string)
    ensures |r| == |s|
    ensures forall i :: 0 <= i < |s| ==> IsAsciiLower(s[i]) ==> r[i] as int == s[i] as int - CaseOffset
    ensures forall i :: 0 <= i < |s| ==> !IsAsciiLower(s[i]) ==> r[i] == s[i]
  {
    if s == [] then [] else [UpperChar(s[0])] + AsciiUpper(s[1..])
  }

  /** Upper-casing leaves no lower-case ASCII letter behind. */
  lemma AsciiUpperNoLower(s: string)
    ensures forall i :: 0 <= i < |AsciiUpper(s)| ==> !IsAsciiLower(AsciiUpper(s)[i])
  {
  }

  /** Upper-casing twice is upper-casing once. */
  lemma AsciiUpperIdempotent(s: string)
    ensures AsciiUpper(AsciiUpper(s)) == AsciiUpper(s)
  {
    var u := AsciiUpper(s);
    assert forall i :: 0 <= i < |u| ==> AsciiUpper(u)[i] == u[i];
  }

  /** An ASCII string is also a Latin-1 string. */
  lemma AsciiIsLatin1(s: string)
    requires AllAscii(s)
    ensures AllLatin1(s)
  {
  }

  /** Upper-casing an ASCII string gives an ASCII string. */
  lemma AsciiUpperKeepsAscii(s: string)
    requires AllAscii(s)
    ensures AllAscii(AsciiUpper(s))
  {
  }

  /** This upper-casing never takes a character out of ISO/IEC 8859-1. */
  lemma AsciiUpperKeepsLatin1(s: string)
    requires AllLatin1(s)
    ensures AllLatin1(AsciiUpper(s))
  {
  }
}
