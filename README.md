# Word-level text compressor, modelled in Dafny

This project models the compressing half of `TextCompressor`. The compressor:

1. reads standard input twice: once as the text, and once split at spaces
   into words;
2. writes the length of the text as a 30-bit header;
3. walks the words, first passing each through `cleanWord`;
4. spells out the first occurrence of every word letter by letter, in 6-bit
   codes;
5. replaces every later occurrence of that word with a code: the word's
   first index in the text (14 bits), then its length (5 bits).

A static flag `charMode` records whether the writer is spelling letters or
writing codes. Each change between the two modes is marked by the escape
value 0. The escape is 6 bits wide when it leaves letter mode and 21 bits
wide when it leaves code mode.

The project has three modules:

- `Codes` (`codes.dfy`) holds:
  - the five width constants and the escape value;
  - `Write`, one call of the bit writer as a pair (value, width);
  - the letter code of a character;
  - the records of a spelled word;
  - `cleanWord`;
  - `String.indexOf`, with its least-index property proved.
- `Encoding` (`encoding.dfy`) is a pure model of the loop in `compress`:
  - `State` holds the dictionary `wordStarts`, the mode flag and the output.
  - `StepWord` is one pass of the loop body.
  - `Run` is the first `k` passes.
  - `Segments` is an independent reference definition of the output. It
    uses no dictionary: it decides "new or repeated" from the earlier words
    alone.
  - The lemmas tie `Run` to the reference definition and prove the
    properties of the encoding about it.
- `TextCompressor` (`text_compressor.dfy`) holds the class `Compressor`. Its
  fields are `charMode` and `out`, the records written so far. Its methods
  are `Compress`, `SwitchMode`, `WriteWord` and `WriteCode`, imperative as in
  the source. `Compress` is proved to leave exactly the state that `Run`
  describes.

Points where the model follows the code rather than the comments:

- `cleanWord` removes the last character when it IS a letter, although its
  comment says it removes a trailing special character.
  - So `"cat."` is kept and `"cat"` becomes `"ca"`.
  - `CleanWord` and everything after it behave as the code does.
- `writeWord` gives every character that is not lower case the offset of
  the upper-case letters. This has two consequences:
  - `'@'` gets the value 0, which is the escape value. It is the only
    character that does (`OnlyAtSignCodesEscape`, `AtSignSpellsEscape`).
  - `'['` through `` '`' `` get 27..32, the same codes as `'a'` through
    `'f'`. These six pairs are the only characters that share a code
    (`LetterCodeCollisions`, `BracketSpellsLikeA`).
- `CODE_LENGTH` is 21 as declared, although the two fields of a code take
  14 + 5 = 19 bits. The escape written in code mode is 21 bits wide.
- An empty word, which `split(" ")` produces between two adjacent spaces,
  makes `cleanWord` call `charAt(-1)`, which throws. `Compress` returns
  `completed == false` in that case. Its output is then the header plus the
  records of the words before the empty one (`LeadingNonEmpty` finds where
  that is).

`Compress` works from whatever `charMode` its object holds, as the static
flag does. In the source the flag starts out `true`, which the constructor
models.

## Model

| member | source | states |
|---|---|---|
| Codes.CleanWord | src/TextCompressor.java:113-118 | The result is a prefix of the word. It is one character shorter exactly when the last character is a letter, and equal in length exactly when it is not. |
| Codes.LetterCode | src/TextCompressor.java:139-147 | `A`..`Z` get 1..26 and `a`..`z` get 27..52, each in alphabet order. Every character that is not lower case gets its code point minus 64. |
| Codes.WordRecordsSpellsWord | src/TextCompressor.java:135-149 | A word is spelled as exactly one 6-bit record per character, in order. Record `i` holds the letter code of character `i`. |
| Codes.LetterCodesDistinct | src/TextCompressor.java:140-147 | For letters, the letter code is never the escape value 0, and distinct letters get distinct codes. |
| Codes.LetterRecordsFit | src/TextCompressor.java:135-149 | Every record of a word made of letters fits in its 6 bits, and none is an escape record of either width. |
| Codes.AtSignSpellsEscape | src/TextCompressor.java:141-142 | `"@"` is spelled as the same record as the escape written when leaving letter mode, so the escape is ambiguous. |
| Codes.OnlyAtSignCodesEscape | src/TextCompressor.java:141-142 | A character's letter code is the escape value 0 exactly when the character is `'@'`. |
| Codes.LetterCodeCollisions | src/TextCompressor.java:141-146 | Two distinct characters share a letter code exactly when one is one of `'a'`..`'f'` and the other is the character six below it, in `'['`..`` '`' ``. |
| Codes.BracketSpellsLikeA | src/TextCompressor.java:141-146 | `"["` and `"a"` are spelled as the same records. |
| Codes.IndexFrom | src/TextCompressor.java:82 | The result is -1 or an occurrence at or after `k`. No occurrence lies between `k` and the result. |
| Codes.IndexOf | src/TextCompressor.java:82 | `indexOf` returns the least index at which the word occurs. It is negative exactly when the word occurs nowhere, and never below -1. |
| Encoding.LeadingNonEmpty | src/TextCompressor.java:64-66 | The words before the result are non-empty. The word at the result, if any, is empty: it is where `cleanWord` throws. |
| Encoding.RunDictionary | src/TextCompressor.java:68-82 | After `k` words, `wordStarts` holds exactly the cleaned words seen so far. Each maps to its `indexOf` in the text. |
| Encoding.RunMode | src/TextCompressor.java:69-80 | After `k` words, the mode flag is the initial mode when `k` is 0. Otherwise it is whether word `k-1` was new. |
| Encoding.RunOutput | src/TextCompressor.java:64-86 | The loop's output is the records written before it, followed by the dictionary-free reference segments of the first `k` words. |
| Encoding.RunMatchesReference | src/TextCompressor.java:64-86 | The dictionary, the mode and the output of the loop all agree with the reference definition. |
| Encoding.DictionaryHoldsWordsSeen | src/TextCompressor.java:57 | The keys of `wordStarts` are exactly the set of words processed so far, and each stores that word's `indexOf`. |
| Encoding.EntriesNeverOverwritten | src/TextCompressor.java:68-82 | A word's entry is added once and keeps its value through every later word. |
| Encoding.RunAppendsOnly | src/TextCompressor.java:60-86 | The loop only appends: what was written before it stays a prefix of the output. |
| Encoding.WordStep | src/TextCompressor.java:64-86 | One pass of the loop appends exactly word `i`'s segment. It leaves the mode flag equal to whether word `i` was new. |
| Encoding.ModeAfterWord | src/TextCompressor.java:68-80 | After word `i`, the writer is in letter mode exactly when word `i` had not occurred before. |
| Encoding.EscapeExactlyOnModeChange | src/TextCompressor.java:68-80 | A pass writes an escape, in the width of the mode being left, exactly when the mode flag changes. It then writes the word's letters or its code. |
| Encoding.NoEscapeBetweenSameKind | src/TextCompressor.java:68-80 | When two consecutive words are both new, or both repeated, no escape is written between them. |
| Encoding.RepeatedWordReferencesFirstOccurrence | src/TextCompressor.java:68-73 | A repeated word is written as an escape if the writer was in letter mode, then as the code stored at its first occurrence with the word's length. |
| TextCompressor.Compressor.constructor | src/TextCompressor.java:47 | The mode flag starts in letter mode, with nothing written. |
| TextCompressor.Compressor.SwitchMode | src/TextCompressor.java:121-132 | Appends the escape value 0: 6 bits wide when the argument is true, 21 when it is false. Negates the mode flag whatever the argument. |
| TextCompressor.Compressor.WriteWord | src/TextCompressor.java:135-149 | Appends exactly the 6-bit letter records of the word, in order. |
| TextCompressor.Compressor.WriteCode | src/TextCompressor.java:152-157 | Appends the first index in 14 bits, then the word length in 5 bits. |
| TextCompressor.Compressor.Compress | src/TextCompressor.java:50-89 | Writes the 30-bit length header first. Its output and final mode are those of `Run` over the cleaned words up to the first empty word. It completes exactly when no word is empty. |

## Left out

- Input: `BinaryStdIn.readString` and `String.split(" ")` are not modelled. The text and its words are parameters of `Compress`. The relation between them is left open, as the two reads of standard input leave it in the source.
- Output: `BinaryStdOut` is modelled as a list of (value, width) records. The bit packing, the writer's own range checks on values that do not fit their width, and `close` are not modelled. Values are recorded as computed, including negative ones or ones too wide for their field.
- Codes.IsLetter and Codes.IsLower: these are the ASCII letters only. Java's `Character.isLetter` and `Character.isLowerCase` also accept other Unicode letters.
- Strings are modelled as sequences of Unicode scalar values, but Java's `length`, `charAt`, `indexOf` and the `writeWord` loop count UTF-16 code units. For a text containing a character outside the Basic Multilingual Plane (for example U+1F600), Java's header is one larger per such character. Java also writes two letter records for such a character, one per surrogate, where the model writes one. Every index after such a character is shifted. Codes.Header, Codes.WordRecords and Codes.IndexOf therefore agree with Java only on BMP text.
- The exception thrown by `cleanWord` on an empty word is modelled only as `completed == false`, with the output written so far. The unwinding through `main` is not modelled.
- `LinkedHashMap` iteration order is not modelled, because `compress` only looks up and inserts.
- `expand` is not modelled: it reads the header and then loops forever without reading anything.
- `main` is not modelled; it only dispatches on its argument.
- This file contains no LZW code, so there is none to model.
