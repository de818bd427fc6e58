/**
 What the two compiled patterns of the validator mean, stated over characters
 rather than through a regular-expression engine:
 - LETTER_PATTERN `[a-zA-Z]`, used with `search` and `findall`;
 - STRING_PATTERN `[\p{ASCII}||\P{Letter}]+`, used with `fullmatch`.
 The Unicode "Letter" general category is a parameter `isLetter`.
 */
module Patterns {
  import opened Ascii

  /** A value that may be absent, as a failed search returns `None`. */
  datatype Option<+T> = None | Some(value: T)

  /** `LETTER_PATTERN.search(s)`: the position of the first `[a-zA-Z]` character, if any. */
  function Search(s: string): (r: Option<nat>)
    ensures r.Some? ==> r.value < |s| && IsBasicLatinLetter(s[r.value])
    ensures r.Some? ==> forall j | 0 <= j < r.value :: !IsBasicLatinLetter(s[j])
    ensures r.None? <==> NoBasicLatinLetter(s)
  {
    if |s| == 0 then None
    else if IsBasicLatinLetter(s[0]) then Some(0)
    else match Search(s[1..])
      case None => None
      case Some(i) => Some(i + 1)
  }

  /**
   One character of the class `[\p{ASCII}||\P{Letter}]`. The `regex` module
   reads `||` inside a class literally unless VERSION1 is selected, so the
   class is ASCII, the character `|`, or any non-letter.
   */
  function InStringClass(c: char, isLetter: char -> bool): (r: bool)
    ensures r <==> IsAscii(c) || !isLetter(c)
  {
    IsAscii(c) || c == '|' || !isLetter(c)
  }

  /** `STRING_PATTERN.fullmatch(s)`: a non-empty run of class characters covering all of `s`. */
  function FullMatch(s: string, isLetter: char -> bool): (r: bool)
    ensures r <==> |s| > 0 && forall i | 0 <= i < |s| :: IsAscii(s[i]) || !isLetter(s[i])
  {
    |s| > 0 && InStringClass(s[0], isLetter) && (|s| == 1 || FullMatch(s[1..], isLetter))
  }

  /** The positions of the `[a-zA-Z]` characters of `s`, in increasing order. */
  function LetterPositions(s: string): (r: seq<nat>)
    ensures forall k | 0 <= k < |r| :: r[k] < |s| && IsBasicLatinLetter(s[r[k]])
  {
    if |s| == 0 then []
    else
      var last := |s| - 1;
      LetterPositions(s[..last]) + (if IsBasicLatinLetter(s[last]) then [last] else [])
  }

  /**
   The letter positions are strictly increasing and miss no `[a-zA-Z]`
   character; with the bound and letter facts of `LetterPositions` itself
   they determine the sequence uniquely.
   */
  lemma {:induction false} LetterPositionsSpec(s: string)
    ensures forall k, l | 0 <= k < l < |LetterPositions(s)| :: LetterPositions(s)[k] < LetterPositions(s)[l]
    ensures forall i | 0 <= i < |s| && IsBasicLatinLetter(s[i]) :: i in LetterPositions(s)
  {
    if |s| > 0 {
      var last := |s| - 1;
      var p := s[..last];
      LetterPositionsSpec(p);
      var lp := LetterPositions(p);
      assert forall k | 0 <= k < |lp| :: lp[k] < last;
      forall i | 0 <= i < last && IsBasicLatinLetter(s[i])
        ensures i in LetterPositions(s)
      {
        assert p[i] == s[i];
        assert i in lp;
      }
    }
  }

  /** The places of `s` holding an `[a-zA-Z]` character. */
  ghost function LetterPlaces(s: string): set<nat> {
    set i: nat | i < |s| && IsBasicLatinLetter(s[i])
  }

  /** The number of `[a-zA-Z]` characters of `s`. */
  ghost function LetterCount(s: string): nat {
    |LetterPlaces(s)|
  }

  /**
   `LETTER_PATTERN.findall(s)`: the one-character string of every `[a-zA-Z]`
   character of `s`, left to right. The matches of `s` are those of all but
   its last character, followed by the last character if it is a letter.
   */
  function FindAll(s: string): (r: seq<string>)
    ensures |r| <= |s|
    ensures forall k | 0 <= k < |r| :: |r[k]| == 1 && IsBasicLatinLetter(r[k][0])
  {
    if |s| == 0 then []
    else
      var last := |s| - 1;
      FindAll(s[..last]) + (if IsBasicLatinLetter(s[last]) then [[s[last]]] else [])
  }

  /**
   `findall` returns, in order, exactly the characters at the letter
   positions: the k-th match is the character at the k-th letter position.
   */
  lemma {:induction false} FindAllAtLetterPositions(s: string)
    ensures |FindAll(s)| == |LetterPositions(s)|
    ensures forall k | 0 <= k < |FindAll(s)| :: FindAll(s)[k] == [s[LetterPositions(s)[k]]]
  {
    if |s| > 0 {
      var last := |s| - 1;
      var p := s[..last];
      FindAllAtLetterPositions(p);
      var fp, lp := FindAll(p), LetterPositions(p);
      forall k | 0 <= k < |fp|
        ensures FindAll(s)[k] == [s[LetterPositions(s)[k]]]
      {
        assert p[lp[k]] == s[lp[k]];
      }
    }
  }

  /** A match found by `findall` never spans the boundary of two pieces. */
  lemma {:induction false} FindAllAppend(a: string, b: string)
    ensures FindAll(a + b) == FindAll(a) + FindAll(b)
    decreases |b|
  {
    if |b| == 0 {
      assert a + b == a;
    } else {
      var ab := a + b;
      var last := |b| - 1;
      assert ab[..|ab| - 1] == a + b[..last];
      assert ab[|ab| - 1] == b[last];
      FindAllAppend(a, b[..last]);
    }
  }

  /** `findall` finds nothing exactly when there is no `[a-zA-Z]` character. */
  lemma FindAllEmpty(s: string)
    ensures FindAll(s) == [] <==> NoBasicLatinLetter(s)
  {
    FindAllAtLetterPositions(s);
    LetterPositionsSpec(s);
  }

  /** There is one position per `[a-zA-Z]` character. */
  lemma {:induction false} LetterPositionsCount(s: string)
    ensures |LetterPositions(s)| == LetterCount(s)
  {
    if |s| == 0 {
      assert LetterPlaces(s) == {};
    } else {
      var last := |s| - 1;
      LetterPositionsCount(s[..last]);
      LetterPlacesSnoc(s);
    }
  }

  /** The letter places of `s` are those of all but its last character, plus possibly the last. */
  lemma LetterPlacesSnoc(s: string)
    requires |s| > 0
    ensures var last := |s| - 1;
      && last !in LetterPlaces(s[..last])
      && LetterPlaces(s) == LetterPlaces(s[..last]) + (if IsBasicLatinLetter(s[last]) then {last} else {})
  {
    var last := |s| - 1;
    var p := s[..last];
    var extra: set<nat> := if IsBasicLatinLetter(s[last]) then {last} else {};
    forall i: nat
      ensures i in LetterPlaces(s) <==> i in LetterPlaces(p) + extra
    {
      if i < last {
        assert p[i] == s[i];
      }
    }
  }

  /** Two strings with letters at the same places have the same letter positions. */
  lemma {:induction false} SameLetterPlaces(s: string, t: string)
    requires |s| == |t|
    requires forall i | 0 <= i < |s| :: IsBasicLatinLetter(s[i]) <==> IsBasicLatinLetter(t[i])
    ensures LetterPositions(s) == LetterPositions(t)
  {
    if |s| > 0 {
      var last := |s| - 1;
      SameLetterPlaces(s[..last], t[..last]);
    }
  }

  /** In a string made only of `[a-zA-Z]` characters, every position is a letter position. */
  lemma {:induction false} AllLetterPositions(s: string)
    requires forall i | 0 <= i < |s| :: IsBasicLatinLetter(s[i])
    ensures |LetterPositions(s)| == |s|
    ensures forall k | 0 <= k < |s| :: LetterPositions(s)[k] == k
  {
    if |s| > 0 {
      AllLetterPositions(s[..|s| - 1]);
    }
  }
}
