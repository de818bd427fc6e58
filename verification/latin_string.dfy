/**
 The Latin-string validator and letter extractor.

 A Latin string contains at least one letter of the ISO basic Latin alphabet
 (`[a-zA-Z]`), and every one of its characters is either in the Basic Latin
 block (ASCII) or not a letter at all. The Unicode "Letter" general category
 is supplied by the caller as `isLetter`.
 */
module LatinString {
  import opened Ascii
  import opened Patterns

  /**
   The `LatinString` refinement, stated directly over the characters. A
   Latin string is never empty, since it holds a letter.
   */
  predicate IsLatinString(s: string, isLetter: char -> bool)
    ensures IsLatinString(s, isLetter) ==> |s| > 0
  {
    && (exists i | 0 <= i < |s| :: IsBasicLatinLetter(s[i]))
    && (forall i | 0 <= i < |s| :: IsAscii(s[i]) || !isLetter(s[i]))
  }

  /**
   The Unicode fact the model relies on: inside the Basic Latin block the
   characters of general category Letter are exactly `A`..`Z` and `a`..`z`.
   */
  predicate AsciiLettersAgree(isLetter: char -> bool) {
    forall c: char | IsAscii(c) :: isLetter(c) <==> IsBasicLatinLetter(c)
  }

  /**
   `string_validator`: a `LETTER_PATTERN` search finds a letter and
   `STRING_PATTERN` matches the whole string.
   */
  function StringValidator(s: string, isLetter: char -> bool): (r: bool)
    ensures r <==> IsLatinString(s, isLetter)
    ensures s == [] ==> !r
  {
    Search(s).Some? && FullMatch(s, isLetter)
  }

  /**
   `letter_filter`: optionally lowercase a Latin string, then collect the
   one-character strings of its `[a-zA-Z]` characters, left to right.
   `letter_filter` defaults `lowercase` to true.
   */
  function LetterFilter(s: string, isLetter: char -> bool, lowercase: bool): (r: seq<string>)
    requires IsLatinString(s, isLetter)
    ensures |r| == |LetterPositions(s)| > 0
    ensures forall k | 0 <= k < |r| ::
      r[k] == [if lowercase then LowerChar(s[LetterPositions(s)[k]]) else s[LetterPositions(s)[k]]]
    ensures forall k | 0 <= k < |r| :: |r[k]| == 1 && IsBasicLatinLetter(r[k][0])
    ensures lowercase ==> forall k | 0 <= k < |r| :: IsLower(r[k][0])
  {
    LatinStringHasLetterPosition(s, isLetter);
    if lowercase then
      SameLetterPlaces(Lower(s), s);
      FindAllAtLetterPositions(Lower(s));
      FindAll(Lower(s))
    else
      FindAllAtLetterPositions(s);
      FindAll(s)
  }

  /** `''.join(parts)`. */
  function Join(parts: seq<string>): string {
    if |parts| == 0 then [] else parts[0] + Join(parts[1..])
  }

  /** Joining one-character strings gives back their characters in order. */
  lemma {:induction false} JoinSingles(parts: seq<string>)
    requires forall k | 0 <= k < |parts| :: |parts[k]| == 1
    ensures |Join(parts)| == |parts|
    ensures forall k | 0 <= k < |parts| :: Join(parts)[k] == parts[k][0]
  {
    if |parts| > 0 {
      JoinSingles(parts[1..]);
    }
  }

  /** A Latin string has at least one letter position. */
  lemma LatinStringHasLetterPosition(s: string, isLetter: char -> bool)
    requires IsLatinString(s, isLetter)
    ensures |LetterPositions(s)| > 0
  {
    LetterPositionsSpec(s);
  }

  /** A string holding a letter outside the Basic Latin block is rejected, whatever else it holds. */
  lemma NonAsciiLetterRejected(s: string, isLetter: char -> bool, i: nat)
    requires i < |s| && !IsAscii(s[i]) && isLetter(s[i])
    ensures !StringValidator(s, isLetter)
  {
  }

  /** A string without any `[a-zA-Z]` character is rejected. */
  lemma NoBasicLatinLetterRejected(s: string, isLetter: char -> bool)
    requires NoBasicLatinLetter(s)
    ensures !StringValidator(s, isLetter)
  {
  }

  /**
   An all-ASCII string is accepted exactly when it holds an `[a-zA-Z]`
   character, whatever the letter table says: digits and ASCII punctuation
   never disqualify a string.
   */
  lemma AsciiStringAccepted(s: string, isLetter: char -> bool)
    requires forall i | 0 <= i < |s| :: IsAscii(s[i])
    ensures StringValidator(s, isLetter) <==> !NoBasicLatinLetter(s)
  {
  }

  /** The accepted examples documented with `string_validator`. */
  lemma AcceptedExamples(isLetter: char -> bool)
    ensures StringValidator("abc", isLetter)
    ensures StringValidator("abc123", isLetter)
    ensures StringValidator("abc123!", isLetter)
  {
    assert IsBasicLatinLetter("abc"[0]);
    assert IsBasicLatinLetter("abc123"[0]);
    assert IsBasicLatinLetter("abc123!"[0]);
  }

  /** The rejected examples documented with `string_validator`. */
  lemma RejectedExamples(isLetter: char -> bool)
    requires isLetter('\U{0103}')
    ensures !StringValidator("", isLetter)
    ensures !StringValidator("\U{0103}n u\U{1ED1}ng", isLetter)
  {
  }

  /** A string with an accented letter, and one with no letter at all, are rejected. */
  lemma MoreRejectedExamples(isLetter: char -> bool)
    requires isLetter('\U{00E9}')
    ensures !StringValidator("h\U{00E9}llo", isLetter)
    ensures !StringValidator("123", isLetter)
  {
  }

  /**
   With a letter table that agrees with Unicode on the Basic Latin block, the
   letters of a Latin string are exactly its `[a-zA-Z]` characters, so the
   extractor misses none of them.
   */
  lemma LatinLettersAreBasicLatin(s: string, isLetter: char -> bool)
    requires AsciiLettersAgree(isLetter)
    requires IsLatinString(s, isLetter)
    ensures forall i | 0 <= i < |s| :: isLetter(s[i]) <==> IsBasicLatinLetter(s[i])
  {
  }

  /** The extractor returns one string per `[a-zA-Z]` character of its input. */
  lemma LetterFilterCount(s: string, isLetter: char -> bool, lowercase: bool)
    requires IsLatinString(s, isLetter)
    ensures |LetterFilter(s, isLetter, lowercase)| == LetterCount(s)
  {
    LetterPositionsCount(s);
  }

  /**
   Joining the extracted letters gives a Latin string again, and extracting
   from it with the same flag gives back the same letters.
   */
  lemma LetterFilterIdempotent(s: string, isLetter: char -> bool, lowercase: bool)
    requires IsLatinString(s, isLetter)
    ensures IsLatinString(Join(LetterFilter(s, isLetter, lowercase)), isLetter)
    ensures LetterFilter(Join(LetterFilter(s, isLetter, lowercase)), isLetter, lowercase)
         == LetterFilter(s, isLetter, lowercase)
  {
    RejoinLetters(LetterFilter(s, isLetter, lowercase), isLetter, lowercase);
  }

  /**
   Joining non-empty one-letter strings (lower-case ones when `lowercase`
   is set) and extracting again gives back the same strings.
   */
  lemma RejoinLetters(r: seq<string>, isLetter: char -> bool, lowercase: bool)
    requires |r| > 0
    requires forall k | 0 <= k < |r| :: |r[k]| == 1 && IsBasicLatinLetter(r[k][0])
    requires lowercase ==> forall k | 0 <= k < |r| :: IsLower(r[k][0])
    ensures IsLatinString(Join(r), isLetter)
    ensures LetterFilter(Join(r), isLetter, lowercase) == r
  {
    var t := Join(r);
    JoinSingles(r);
    forall i | 0 <= i < |t|
      ensures IsBasicLatinLetter(t[i])
    {
      assert t[i] == r[i][0];
    }
    LettersOnlyFilter(t, isLetter, lowercase);
    var r' := LetterFilter(t, isLetter, lowercase);
    forall k | 0 <= k < |r|
      ensures r'[k] == r[k]
    {
      var c := r[k][0];
      assert t[k] == c;
      assert lowercase ==> LowerChar(c) == c;
      assert r'[k] == [c];
      assert r[k] == [c];
    }
  }

  /**
   A non-empty string of `[a-zA-Z]` characters is a Latin string, and the
   extractor returns its characters one by one (lowercased if asked).
   */
  lemma LettersOnlyFilter(t: string, isLetter: char -> bool, lowercase: bool)
    requires |t| > 0
    requires forall i | 0 <= i < |t| :: IsBasicLatinLetter(t[i])
    ensures IsLatinString(t, isLetter)
    ensures |LetterFilter(t, isLetter, lowercase)| == |t|
    ensures forall k | 0 <= k < |t| ::
      LetterFilter(t, isLetter, lowercase)[k] == [if lowercase then LowerChar(t[k]) else t[k]]
  {
    assert IsBasicLatinLetter(t[0]);
    forall i | 0 <= i < |t| ensures IsAscii(t[i]) {
      BasicLatinLetterIsAscii(t[i]);
    }
    AllLetterPositions(t);
  }

  /**
   `str.lower()` as a per-character case table, with the table for non-ASCII
   characters left open: `otherLower` gives what a non-ASCII character
   lowercases to, possibly several characters. Context-dependent rules, such
   as the final-sigma lowering of U+03A3, are outside this form; they apply
   only to letters, which a Latin string holds only in the ASCII range.
   */
  function UnicodeLower(s: string, otherLower: char -> string): (r: string)
    ensures (forall i | 0 <= i < |s| :: IsAscii(s[i])) ==> r == Lower(s)
  {
    if |s| == 0 then []
    else (if IsAscii(s[0]) then [LowerChar(s[0])] else otherLower(s[0])) + UnicodeLower(s[1..], otherLower)
  }

  /**
   On the characters a Latin string may hold, only the ASCII part of the
   case mapping matters: as long as lowercasing a non-ASCII non-letter never
   yields an `[a-zA-Z]` character, the extracted letters are the same as with
   the ASCII-only lowercasing used by `LetterFilter`.
   */
  lemma {:induction false} LowerOnlyAsciiMatters(s: string, isLetter: char -> bool, otherLower: char -> string)
    requires forall c: char | !IsAscii(c) && !isLetter(c) :: NoBasicLatinLetter(otherLower(c))
    requires forall i | 0 <= i < |s| :: IsAscii(s[i]) || !isLetter(s[i])
    ensures FindAll(UnicodeLower(s, otherLower)) == FindAll(Lower(s))
    ensures IsLatinString(s, isLetter) ==>
      FindAll(UnicodeLower(s, otherLower)) == LetterFilter(s, isLetter, true)
  {
    if |s| > 0 {
      var head := if IsAscii(s[0]) then [LowerChar(s[0])] else otherLower(s[0]);
      LowerOnlyAsciiMatters(s[1..], isLetter, otherLower);
      FindAllAppend(head, UnicodeLower(s[1..], otherLower));
      assert Lower(s) == [LowerChar(s[0])] + Lower(s[1..]);
      FindAllAppend([LowerChar(s[0])], Lower(s[1..]));
      if !IsAscii(s[0]) {
        FindAllEmpty(head);
        FindAllEmpty([LowerChar(s[0])]);
      }
    }
  }

  /**
   `letter_filter("AbC123")` lowercases by default. The string is a
   parameter equal to the literal so that the recursive definitions are not
   unfolded on the literal without bound.
   */
  lemma LowercasedExample(s: string, isLetter: char -> bool)
    requires s == "AbC123"
    ensures IsLatinString(s, isLetter)
    ensures LetterFilter(s, isLetter, true) == ["a", "b", "c"]
  {
    ExampleIsLatin(s, isLetter);
    ExampleLetterPositions(s);
    var r := LetterFilter(s, isLetter, true);
    assert r[0] == [LowerChar(s[0])];
    assert r[1] == [LowerChar(s[1])];
    assert r[2] == [LowerChar(s[2])];
  }

  /** `letter_filter("AbC123", lowercase=False)` keeps the case (literal passed as in `LowercasedExample`). */
  lemma CaseKeptExample(s: string, isLetter: char -> bool)
    requires s == "AbC123"
    ensures IsLatinString(s, isLetter)
    ensures LetterFilter(s, isLetter, false) == ["A", "b", "C"]
  {
    ExampleIsLatin(s, isLetter);
    ExampleLetterPositions(s);
  }

  /**
   The letter positions of "AbC123". Like the example lemmas, it takes the
   string as a parameter equal to the literal, so the verifier does not
   unfold the recursive definitions on the literal without bound.
   */
  lemma ExampleLetterPositions(s: string)
    requires s == "AbC123"
    ensures LetterPositions(s) == [0, 1, 2]
  {
    assert s[..5] == "AbC12";
    assert "AbC12"[..4] == "AbC1";
    assert "AbC1"[..3] == "AbC";
    AllLetterPositions("AbC");
  }

  /** "AbC123" is a Latin string, for every letter table (literal passed as for `ExampleLetterPositions`). */
  lemma ExampleIsLatin(s: string, isLetter: char -> bool)
    requires s == "AbC123"
    ensures IsLatinString(s, isLetter)
  {
    assert IsBasicLatinLetter(s[0]);
  }
}
