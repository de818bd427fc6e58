/**
 Character classes of the Basic Latin block of the Unicode Standard
 (U+0000..U+007F) and the case mapping that `str.lower()` applies there.
 */
module Ascii {

  /** The `\p{ASCII}` property: code points 0..127. */
  predicate IsAscii(c: char) {
    c as int < 128
  }

  predicate IsUpper(c: char) {
    'A' <= c <= 'Z'
  }

  predicate IsLower(c: char) {
    'a' <= c <= 'z'
  }

  /** The character class `[a-zA-Z]`: a letter of the ISO basic Latin alphabet. */
  predicate IsBasicLatinLetter(c: char) {
    IsUpper(c) || IsLower(c)
  }

  /** No character of `s` is in `[a-zA-Z]`. */
  predicate NoBasicLatinLetter(s: string) {
    forall i | 0 <= i < |s| :: !IsBasicLatinLetter(s[i])
  }

  /** Every basic Latin letter lies in the ASCII range. */
  lemma BasicLatinLetterIsAscii(c: char)
    requires IsBasicLatinLetter(c)
    ensures IsAscii(c)
  {
  }

  /**
   The lower-case mapping of one character, restricted to what it does in the
   Basic Latin block: `A`..`Z` become `a`..`z`, everything else is unchanged.
   */
  function LowerChar(c: char): (r: char)
    ensures IsBasicLatinLetter(r) <==> IsBasicLatinLetter(c)
    ensures IsBasicLatinLetter(c) ==> IsLower(r)
    ensures IsUpper(c) ==> r as int - c as int == 'a' as int - 'A' as int
    ensures !IsUpper(c) ==> r == c
  {
    if IsUpper(c) then (c as int + 32) as char else c
  }

  /** `str.lower()` on a string whose only case-changing characters are ASCII. */
  function Lower(s: string): (r: string)
    ensures |r| == |s|
    ensures forall i | 0 <= i < |s| :: r[i] == LowerChar(s[i])
  {
    if |s| == 0 then [] else [LowerChar(s[0])] + Lower(s[1..])
  }
}
