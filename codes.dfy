/**
 * The fixed-width codes of the word-level text compressor: the field widths,
 * the record the bit writer is given, the per-character letter codes, the
 * escape code that flips the writer between its two modes, and the two
 * string helpers the compressor relies on (stripping a word's last letter,
 * and the first index of a word in the text).
 */
module Codes {

  /** Width of an escape code written while in code mode. */
  const CODE_LENGTH: nat := 21
  /** Width of the header that holds the length of the text. */
  const TEXT_LENGTH: nat := 30
  /** Width of a code's first field: where the word first occurs in the text. */
  const CODE_LENGTH_INDEX: nat := 14
  /** Width of a code's second field: the length of the word. */
  const CODE_LENGTH_LEN: nat := 5
  /** Width of one letter code, and of an escape code written in letter mode. */
  const LETTER_LENGTH: nat := 6
  /** The value of every escape code. */
  const ESCAPE: int := 0

  /** One call of the bit writer: `value` written in `width` bits. */
  datatype Write = Write(value: int, width: nat)

  function Pow2(n: nat): nat
  {
    if n == 0 then 1 else 2 * Pow2(n - 1)
  }

  /** The value of `w` is representable as an unsigned number of its width. */
  predicate Fits(w: Write)
  {
    0 <= w.value < Pow2(w.width)
  }

  // Character classes, restricted to ASCII.

  predicate IsUpper(c: char) { 'A' <= c <= 'Z' }

  predicate IsLower(c: char) { 'a' <= c <= 'z' }

  predicate IsLetter(c: char) { IsUpper(c) || IsLower(c) }

  /**
   * cleanWord: a word whose last character is a letter loses that character;
   * any other word is kept. The result is always a prefix of the word, one
   * character shorter exactly when the last character is a letter.
   */
  function CleanWord(word: string): (r: string)
    requires |word| > 0
    ensures r <= word
    ensures |r| == |word| - 1 <==> IsLetter(word[|word| - 1])
    ensures |r| == |word| <==> !IsLetter(word[|word| - 1])
  {
    if IsLetter(word[|word| - 1]) then word[..|word| - 1] else word
  }

  /**
   * The 6-bit code writeWord uses for one character: A..Z are 1..26 and
   * a..z are 27..52, both in alphabet order; every character that is not
   * lower case is offset like the upper-case letters.
   */
  function LetterCode(c: char): (r: int)
    ensures IsUpper(c) ==> 1 <= r <= 26 && r == (c as int - 'A' as int) + 1
    ensures IsLower(c) ==> 27 <= r <= 52 && r == (c as int - 'a' as int) + 27
    ensures !IsLower(c) ==> r == c as int - 64
  {
    if !IsLower(c) then c as int - 64 else c as int - 70
  }

  /** The escape record switchMode writes when called with `isCharMode`. */
  function Escape(isCharMode: bool): Write
  {
    Write(ESCAPE, if isCharMode then LETTER_LENGTH else CODE_LENGTH)
  }

  /** The header record: the length of the text. */
  function Header(text: string): Write
  {
    Write(|text|, TEXT_LENGTH)
  }

  /** The two records writeCode emits for a repeated word. */
  function CodeRecords(firstIndex: int, wordLength: int): seq<Write>
  {
    [Write(firstIndex, CODE_LENGTH_INDEX), Write(wordLength, CODE_LENGTH_LEN)]
  }

  /** The records writeWord emits for `word`. */
  function WordRecords(word: string): seq<Write>
  {
    if word == [] then [] else [Write(LetterCode(word[0]), LETTER_LENGTH)] + WordRecords(word[1..])
  }

  /** A word is spelled out as exactly one 6-bit letter code per character, in order, and nothing else. */
  lemma {:induction false} WordRecordsSpellsWord(word: string)
    ensures |WordRecords(word)| == |word|
    ensures forall i :: 0 <= i < |word| ==> WordRecords(word)[i] == Write(LetterCode(word[i]), LETTER_LENGTH)
  {
    if word != [] {
      WordRecordsSpellsWord(word[1..]);
      forall i | 0 < i < |word|
        ensures WordRecords(word)[i] == Write(LetterCode(word[i]), LETTER_LENGTH)
      {
        assert WordRecords(word)[i] == WordRecords(word[1..])[i - 1];
      }
    }
  }

  /** Letter codes of distinct letters differ, and none is the escape value. */
  lemma LetterCodesDistinct(a: char, b: char)
    requires IsLetter(a) && IsLetter(b)
    ensures LetterCode(a) != ESCAPE
    ensures a != b ==> LetterCode(a) != LetterCode(b)
  {
  }

  /**
   * A word made of letters is spelled out in records that fit their six
   * bits and that are never an escape record of either width.
   */
  lemma {:induction false} LetterRecordsFit(word: string)
    requires forall i :: 0 <= i < |word| ==> IsLetter(word[i])
    ensures forall r :: r in WordRecords(word) ==> Fits(r) && r != Escape(true) && r != Escape(false)
  {
    assert Pow2(LETTER_LENGTH) == 64;
    WordRecordsSpellsWord(word);
    forall r | r in WordRecords(word)
      ensures Fits(r) && r != Escape(true) && r != Escape(false)
    {
      var i :| 0 <= i < |word| && WordRecords(word)[i] == r;
      LetterCodesDistinct(word[i], word[i]);
    }
  }

  /**
   * A non-letter is not kept apart from the escape code: '@' is spelled as
   * the 6-bit value 0, the same record as the escape written in letter mode.
   */
  lemma AtSignSpellsEscape()
    ensures WordRecords("@") == [Escape(true)]
  {
  }

  /** The only character whose letter code is the escape value is '@'. */
  lemma OnlyAtSignCodesEscape(c: char)
    ensures LetterCode(c) == ESCAPE <==> c == '@'
  {
  }

  /**
   * Two distinct characters share a letter code exactly when one of them is
   * a lower-case letter `a`..`f` and the other is the character six below it,
   * one of the six characters '[' through '`'.
   */
  lemma LetterCodeCollisions(a: char, b: char)
    ensures a != b && LetterCode(a) == LetterCode(b) <==>
              (IsLower(a) && '[' <= b <= '`' && b as int == a as int - 6) ||
              (IsLower(b) && '[' <= a <= '`' && a as int == b as int - 6)
  {
  }

  /** So the spelled-out records cannot tell '[' from 'a'. */
  lemma BracketSpellsLikeA()
    ensures WordRecords("[") == WordRecords("a")
  {
  }

  /** `w` occurs in `text` starting at index `k`. */
  predicate OccursAt(text: string, w: string, k: int)
  {
    0 <= k && k + |w| <= |text| && text[k..k + |w|] == w
  }

  /** The first occurrence of `w` in `text` at or after `k`, or -1. */
  function IndexFrom(text: string, w: string, k: nat): (r: int)
    ensures r == -1 || (k <= r && OccursAt(text, w, r))
    ensures forall j :: k <= j && (r == -1 || j < r) ==> !OccursAt(text, w, j)
    decreases |text| - k
  {
    if k + |w| > |text| then -1
    else if text[k..k + |w|] == w then k
    else IndexFrom(text, w, k + 1)
  }

  /**
   * String.indexOf: the least index at which `w` occurs in `text`, or -1
   * when it occurs nowhere (the empty word occurs at 0).
   */
  function IndexOf(text: string, w: string): (r: int)
    ensures r >= 0 ==> OccursAt(text, w, r) && forall j :: 0 <= j < r ==> !OccursAt(text, w, j)
    ensures r < 0 <==> forall j :: !OccursAt(text, w, j)
    ensures r >= -1
  {
    IndexFrom(text, w, 0)
  }
}
