# Latin string validator and letter extractor

A Dafny model of `data_filter/latin_string.py`. The file is a small pure
string utility with two functions.

- `string_validator` decides whether a string is a *Latin string*. A Latin
  string contains at least one letter of the ISO basic Latin alphabet
  (`[a-zA-Z]`, `LETTER_PATTERN`). It is also matched in full by
  `STRING_PATTERN`, `[\p{ASCII}||\P{Letter}]+`: a non-empty run of
  characters, each of which is in the Basic Latin block (code points
  0..127) or is not a Unicode letter.
- `letter_filter` takes a Latin string, which the `LatinString` refinement
  type enforces. It lowercases the string if asked and returns, left to
  right, the one-character strings of its `[a-zA-Z]` characters.

Modules:

- `Ascii` (`ascii.dfy`) holds the Basic Latin character classes and the
  lowercasing that `str.lower()` does on them.
- `Patterns` (`patterns.dfy`) gives the meaning of the two patterns, stated
  as predicates over characters:
  - `Search` models `LETTER_PATTERN.search`, returning an `Option`;
  - `FullMatch` models `STRING_PATTERN.fullmatch`;
  - `FindAll` models `LETTER_PATTERN.findall`.
  `LetterPositions` is the reference definition of where the letters are.
- `LatinString` (`latin_string.dfy`) holds the validator, the declarative
  definition `IsLatinString`, the extractor and the properties relating
  them.

The Unicode "Letter" general category (Lu, Ll, Lt, Lm, Lo) comes from a
table outside the program. Every member that needs it takes it as a
parameter `isLetter: char -> bool`. The model assumes nothing about this
table except where a lemma says so. `AsciiLettersAgree` states the one
Unicode fact used: within 0..127 the letters are exactly `A`..`Z` and
`a`..`z`.

In `STRING_PATTERN`, the `regex` module's default VERSION0 reads `||` inside
a character class literally. Set operations are only available in
VERSION1. So the class is "ASCII, or `|`, or a non-letter". `InStringClass`
models it that way and proves that the class equals "ASCII or non-letter",
because `|` is ASCII.

The `LatinString` refinement becomes the precondition
`requires IsLatinString(s, isLetter)` of `LetterFilter`. A subset type
cannot depend on the `isLetter` parameter, so a precondition is used
instead. `letter_filter` defaults `lowercase` to true; in the model the
flag is always an explicit Boolean argument.

## Model

| member | source | states |
|---|---|---|
| `Ascii.LowerChar` | data_filter/latin_string.py:51-52 | lowercasing maps `A`..`Z` to `a`..`z` and leaves every other character unchanged; it keeps letters letters and non-letters non-letters, and every letter it returns is lower case |
| `Ascii.Lower` | data_filter/latin_string.py:51-52 | `string.lower()` keeps the length and lowercases each character in place |
| `Patterns.Search` | data_filter/latin_string.py:14 | `LETTER_PATTERN.search` returns the position of the first `[a-zA-Z]` character, with none before it; it returns no match exactly when the string has no such character |
| `Patterns.InStringClass` | data_filter/latin_string.py:15 | the character class of `STRING_PATTERN`, read with a literal pipe character, admits exactly the ASCII characters and the non-letters |
| `Patterns.FullMatch` | data_filter/latin_string.py:15 | `STRING_PATTERN.fullmatch` succeeds exactly when the string is non-empty and every character is ASCII or not a letter |
| `Patterns.LetterPositions` | data_filter/latin_string.py:14 | every listed position is in range and holds an `[a-zA-Z]` character |
| `Patterns.LetterPositionsSpec` | data_filter/latin_string.py:14 | the letter positions are strictly increasing and include every `[a-zA-Z]` character of the string |
| `Patterns.LetterPositionsCount` | data_filter/latin_string.py:14 | there are as many letter positions as `[a-zA-Z]` characters, counted as a set of places |
| `Patterns.FindAll` | data_filter/latin_string.py:54 | every `findall` match is a one-character string holding an `[a-zA-Z]` character, and there are no more matches than characters |
| `Patterns.FindAllAtLetterPositions` | data_filter/latin_string.py:54 | the k-th `findall` match is the character at the k-th letter position, so the matches are the letters of the string in order, none missed |
| `Patterns.FindAllAppend` | data_filter/latin_string.py:54 | the matches of a concatenation are the matches of the first part followed by those of the second |
| `Patterns.FindAllEmpty` | data_filter/latin_string.py:54 | `findall` finds nothing exactly when the string has no `[a-zA-Z]` character |
| `Patterns.SameLetterPlaces` | data_filter/latin_string.py:51-54 | two strings of equal length with letters at the same places have the same letter positions, so lowercasing first does not move any match |
| `Patterns.AllLetterPositions` | data_filter/latin_string.py:54 | in a string made only of letters, every position is a letter position |
| `LatinString.IsLatinString` | data_filter/latin_string.py:46 | the `LatinString` refinement, stated over characters as the docstring at line 23 describes it: some `[a-zA-Z]` character, and every character ASCII or not a letter; such a string is never empty |
| `LatinString.StringValidator` | data_filter/latin_string.py:43 | `string_validator` returns true exactly when the string has an `[a-zA-Z]` character and every character is ASCII or not a letter; it returns false for the empty string |
| `LatinString.LatinStringHasLetterPosition` | data_filter/latin_string.py:46 | a string that passes the `LatinString` refinement has at least one letter position |
| `LatinString.LetterFilter` | data_filter/latin_string.py:46-54 | on a Latin string, `letter_filter` returns one single-letter string per `[a-zA-Z]` character, in order, holding that character, lowercased when `lowercase` is set; all are `a`..`z` when lowercasing; the result is never empty |
| `LatinString.NonAsciiLetterRejected` | data_filter/latin_string.py:15 | any string that holds a letter outside the ASCII range is rejected |
| `LatinString.NoBasicLatinLetterRejected` | data_filter/latin_string.py:14 | any string without an `[a-zA-Z]` character is rejected |
| `LatinString.AsciiStringAccepted` | data_filter/latin_string.py:43 | an all-ASCII string (letters, digits, punctuation) is accepted exactly when it holds an `[a-zA-Z]` character, whatever the letter table says |
| `LatinString.AcceptedExamples` | data_filter/latin_string.py:27-34 | "abc", "abc123" and "abc123!" are accepted |
| `LatinString.RejectedExamples` | data_filter/latin_string.py:36-40 | "" is rejected, and so is "ăn uống" once ă is a letter |
| `LatinString.MoreRejectedExamples` | data_filter/latin_string.py:43 | "héllo" is rejected once é is a letter, and "123" is rejected |
| `LatinString.LatinLettersAreBasicLatin` | data_filter/latin_string.py:23 | with a letter table that agrees with Unicode on 0..127, the letters of a Latin string are exactly its `[a-zA-Z]` characters |
| `LatinString.LetterFilterCount` | data_filter/latin_string.py:54 | the extractor returns as many strings as the input has `[a-zA-Z]` characters |
| `LatinString.LetterFilterIdempotent` | data_filter/latin_string.py:50-54 | joining the extracted letters gives a Latin string, and extracting from it with the same flag returns the same sequence |
| `LatinString.RejoinLetters` | data_filter/latin_string.py:50-54 | any non-empty sequence of one-letter strings (lower case when lowercasing) comes back unchanged from the extractor after joining |
| `LatinString.LettersOnlyFilter` | data_filter/latin_string.py:50-54 | a non-empty string of letters is a Latin string, and the extractor returns its characters one by one |
| `LatinString.UnicodeLower` | data_filter/latin_string.py:52 | `string.lower()` as a per-character case table, with the table for non-ASCII characters as a parameter; on an all-ASCII string it is the ASCII lowercasing `Lower` |
| `LatinString.LowerOnlyAsciiMatters` | data_filter/latin_string.py:51-52 | whatever `str.lower()` does to non-ASCII characters, the matches are the same, provided it never turns a non-ASCII non-letter into an `[a-zA-Z]` character; on a Latin string they equal the extractor's result |
| `LatinString.LowercasedExample` | data_filter/latin_string.py:50-54 | "AbC123" extracts to ["a", "b", "c"] with lowercasing |
| `LatinString.CaseKeptExample` | data_filter/latin_string.py:50-54 | "AbC123" extracts to ["A", "b", "C"] without lowercasing |

## Left out

- Runtime type checking by `beartype` (lines 11-12, 18, 49) is left out. Dafny's static types replace it, and the error raised for a non-string argument has no counterpart.
- The `Annotated[str, Is[string_validator]]` machinery (line 46) is left out. It is the precondition `IsLatinString(s, isLetter)` of `LetterFilter`. The model does not cover the violation error raised when a caller passes an invalid string.
- The `re` and `regex` engines are left out. Only the meaning of the two patterns is modelled, as predicates over characters.
- The Unicode general-category table is a parameter (`isLetter`), not data. Lemmas that need a fact about it (for example, that ă is a letter) state it as a precondition.
- `Ascii.Lower` lowercases only `A`..`Z`. It does not model the table-driven, length-changing `str.lower()` on other characters. `LatinString.UnicodeLower` takes the per-character case table of other characters as a parameter, and `LatinString.LowerOnlyAsciiMatters` shows that using `Ascii.Lower` instead changes no result of the extractor. Its premise is that lowercasing a non-ASCII non-letter never yields an `[a-zA-Z]` character.
- Strings holding surrogate code points (U+D800..U+DFFF) are left out. A Python `str` can hold them, but a Dafny `char` is a Unicode scalar value.
- The default value `lowercase=True` is left out. The flag is always passed explicitly.
- LatinString.UnicodeLower: models `str.lower()` as a per-character case table, so it cannot express CPython's context-dependent final-sigma rule, under which U+03A3 lowers to U+03C2 at the end of a word and to U+03C3 elsewhere. This is harmless for `letter_filter`: the rule only touches the letter U+03A3, and a Latin string holds no letter outside the ASCII range.
