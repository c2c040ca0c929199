/**
 * The compressor itself: the static mode flag and the bit writer's output
 * become the fields of a `Compressor` object, and compress, switchMode,
 * writeWord and writeCode become its methods. The output is the sequence
 * of (value, width) records handed to the bit writer, in order.
 */
module TextCompressor {
  import opened Codes
  import opened Encoding

  class Compressor {
    /** Whether the writer is currently spelling out words letter by letter. */
    var charMode: bool
    /** Every record written so far. */
    var out: seq<Write>

    /** The static initial state: letter mode, nothing written. */
    constructor ()
      ensures charMode && out == []
    {
      charMode := true;
      out := [];
    }

    /**
     * switchMode: writes the escape value in the width that belongs to
     * `isCharMode`, and flips the mode flag whatever `isCharMode` was.
     */
    method SwitchMode(isCharMode: bool)
      modifies this
      ensures out == old(out) + [Write(ESCAPE, if isCharMode then LETTER_LENGTH else CODE_LENGTH)]
      ensures charMode == !old(charMode)
    {
      var length := CODE_LENGTH;
      if isCharMode {
        length := LETTER_LENGTH;
      }
      out := out + [Write(ESCAPE, length)];
      charMode := !charMode;
    }

    /** writeWord: one 6-bit letter code per character of the word, in order. */
    method WriteWord(word: string)
      modifies this`out
      ensures out == old(out) + WordRecords(word)
    {
      WordRecordsSpellsWord(word);
      var i := 0;
      while i < |word|
        invariant 0 <= i <= |word|
        invariant out == old(out) + WordRecords(word)[..i]
      {
        var c := word[i];
        if !IsLower(c) {
          out := out + [Write(c as int - 64, LETTER_LENGTH)];
        } else {
          out := out + [Write(c as int - 70, LETTER_LENGTH)];
        }
        assert WordRecords(word)[..i + 1] == WordRecords(word)[..i] + [WordRecords(word)[i]];
        i := i + 1;
      }
      assert WordRecords(word)[..i] == WordRecords(word);
    }

    /** writeCode: the first index of the word in 14 bits, then its length in 5. */
    method WriteCode(firstIndex: int, wordLength: int)
      modifies this`out
      ensures out == old(out) + [Write(firstIndex, CODE_LENGTH_INDEX), Write(wordLength, CODE_LENGTH_LEN)]
    {
      out := out + [Write(firstIndex, CODE_LENGTH_INDEX)];
      out := out + [Write(wordLength, CODE_LENGTH_LEN)];
    }

    /**
     * compress: the header, then the word loop. The result is false when an
     * empty word makes cleanWord fail: the run stops there, with the records
     * of the words before it already written.
     */
    method Compress(text: string, words: seq<string>) returns (completed: bool)
      modifies this
      ensures old(out) + [Header(text)] <= out
      ensures var k := LeadingNonEmpty(words);
              var r := Run(text, State(map[], old(charMode), old(out) + [Header(text)]), Cleaned(words[..k]), k);
              completed == (k == |words|) && out == r.out && charMode == r.charMode
    {
      out := out + [Write(|text|, TEXT_LENGTH)];
      ghost var s0 := State(map[], charMode, out);
      ghost var k := LeadingNonEmpty(words);
      ghost var cleaned := Cleaned(words[..k]);
      var wordStarts: map<string, int> := map[];
      var i := 0;
      while i < |words|
        invariant 0 <= i <= k
        invariant State(wordStarts, charMode, out) == Run(text, s0, cleaned, i)
      {
        if |words[i]| == 0 {
          RunAppendsOnly(text, s0, cleaned, i);
          return false;
        }
        var word := CleanWord(words[i]);
        assert word == cleaned[i];
        ghost var before := State(wordStarts, charMode, out);
        if word in wordStarts {
          if charMode {
            SwitchMode(charMode);
          }
          WriteCode(wordStarts[word], |word|);
        } else {
          if !charMode {
            SwitchMode(charMode);
          }
          wordStarts := wordStarts[word := IndexOf(text, word)];
          ghost var mid := out;
          WriteWord(word);
          assert out == mid + WordRecords(word);
          assert mid == before.out + (if !before.charMode then [Escape(before.charMode)] else []);
          assert out == before.out + (if !before.charMode then [Escape(before.charMode)] else []) + WordRecords(word);
        }
        assert State(wordStarts, charMode, out) == StepWord(text, before, word);
        i := i + 1;
      }
      RunAppendsOnly(text, s0, cleaned, i);
      completed := true;
    }
  }
}
