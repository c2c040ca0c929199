/**
 * The compressor's word loop as a state machine over values. `StepWord`
 * is one iteration of the loop in compress: it consults the dictionary of
 * first occurrences, writes an escape when the mode must flip, and then
 * either a (first index, length) code or the spelled-out word. `Run` runs
 * it over the first `k` of a sequence of cleaned words.
 *
 * Next to it stands a reference definition that needs no dictionary at
 * all: a word is *new* when it does not occur earlier in the sequence, the
 * mode before a word is whether the previous word was new, and the records
 * of each word follow from those two facts alone. The lemmas prove the
 * state machine equal to the reference, and derive from that the
 * guarantees about the dictionary and the mode flag.
 */
module Encoding {
  import opened Codes

  /** The compressor's state between two words: dictionary, mode flag, output so far. */
  datatype State = State(dict: map<string, int>, charMode: bool, out: seq<Write>)

  /** One iteration of the word loop, on a word that is already cleaned. */
  function StepWord(text: string, s: State, word: string): State
  {
    if word in s.dict then
      var escape := if s.charMode then [Escape(s.charMode)] else [];
      State(s.dict, false, s.out + escape + CodeRecords(s.dict[word], |word|))
    else
      var escape := if !s.charMode then [Escape(s.charMode)] else [];
      State(s.dict[word := IndexOf(text, word)], true, s.out + escape + WordRecords(word))
  }

  /** The state after running the word loop over the first `k` words, from `s`. */
  function Run(text: string, s: State, words: seq<string>, k: nat): State
    requires k <= |words|
    decreases k
  {
    if k == 0 then s else StepWord(text, Run(text, s, words, k - 1), words[k - 1])
  }

  /** The words of a split text, each passed through cleanWord. */
  function Cleaned(words: seq<string>): seq<string>
    requires forall i :: 0 <= i < |words| ==> |words[i]| > 0
  {
    seq(|words|, i requires 0 <= i < |words| => CleanWord(words[i]))
  }

  /**
   * How many words are processed before cleanWord meets an empty word and
   * the run stops with an exception; all of them when there is none.
   */
  function LeadingNonEmpty(words: seq<string>): (r: nat)
    ensures r <= |words|
    ensures forall j :: 0 <= j < r ==> |words[j]| > 0
    ensures r < |words| ==> |words[r]| == 0
  {
    if words == [] || |words[0]| == 0 then 0 else 1 + LeadingNonEmpty(words[1..])
  }

  // ---------------------------------------------------------------------
  // Reference definition, without a dictionary.

  /** `w` is one of the first `k` words. */
  predicate Seen(words: seq<string>, k: nat, w: string)
    requires k <= |words|
  {
    exists j :: 0 <= j < k && words[j] == w
  }

  /** Word `i` does not occur among the words before it. */
  predicate IsNew(words: seq<string>, i: nat)
    requires i < |words|
  {
    !Seen(words, i, words[i])
  }

  /** The mode before word `i`: the initial mode, then whether the previous word was new. */
  function ModeBefore(m0: bool, words: seq<string>, i: nat): bool
    requires i <= |words|
  {
    if i == 0 then m0 else IsNew(words, i - 1)
  }

  /** What word `i` contributes after any escape: its spelling or its code. */
  function Payload(text: string, words: seq<string>, i: nat): seq<Write>
    requires i < |words|
  {
    if IsNew(words, i) then WordRecords(words[i])
    else CodeRecords(IndexOf(text, words[i]), |words[i]|)
  }

  /** What word `i` contributes: an escape exactly when its kind differs from the mode, then its payload. */
  function Segment(text: string, m0: bool, words: seq<string>, i: nat): seq<Write>
    requires i < |words|
  {
    var mode := ModeBefore(m0, words, i);
    (if mode != IsNew(words, i) then [Escape(mode)] else []) + Payload(text, words, i)
  }

  /** The records of the first `k` words, one segment after another. */
  function Segments(text: string, m0: bool, words: seq<string>, k: nat): seq<Write>
    requires k <= |words|
    decreases k
  {
    if k == 0 then [] else Segments(text, m0, words, k - 1) + Segment(text, m0, words, k - 1)
  }

  // ---------------------------------------------------------------------
  // Lemmas.

  lemma AppendAssoc(a: seq<Write>, b: seq<Write>, c: seq<Write>)
    ensures (a + b) + c == a + (b + c)
  {
  }

  lemma SegmentsSnoc(text: string, m0: bool, words: seq<string>, k: nat)
    requires 0 < k <= |words|
    ensures Segments(text, m0, words, k) == Segments(text, m0, words, k - 1) + Segment(text, m0, words, k - 1)
  {
  }

  /** What one step of the loop does to each part of the state. */
  lemma StepWordFields(text: string, s: State, w: string)
    ensures var r := StepWord(text, s, w);
            && r.charMode == (w !in s.dict)
            && r.dict == (if w in s.dict then s.dict else s.dict[w := IndexOf(text, w)])
            && r.out == s.out
                 + (if (w !in s.dict) != s.charMode then [Escape(s.charMode)] else [])
                 + (if w in s.dict then CodeRecords(s.dict[w], |w|) else WordRecords(w))
  {
  }

  /** One more word is seen exactly when it was seen before or is the next word. */
  lemma SeenSnoc(words: seq<string>, k: nat, v: string)
    requires 0 < k <= |words|
    ensures Seen(words, k, v) <==> Seen(words, k - 1, v) || v == words[k - 1]
  {
    if Seen(words, k, v) && v != words[k - 1] {
      var j :| 0 <= j < k && words[j] == v;
      assert j < k - 1;
    }
  }

  /**
   * From an empty dictionary, the dictionary after `k` words holds
   * precisely the words seen, each with its first index in the text.
   */
  lemma {:induction false} RunDictionary(text: string, s0: State, words: seq<string>, k: nat)
    requires k <= |words| && s0.dict == map[]
    ensures var d := Run(text, s0, words, k).dict;
            && (forall w :: w in d <==> Seen(words, k, w))
            && (forall w :: w in d ==> d[w] == IndexOf(text, w))
  {
    if k > 0 {
      var w := words[k - 1];
      RunDictionary(text, s0, words, k - 1);
      var q := Run(text, s0, words, k - 1);
      var d := Run(text, s0, words, k).dict;
      StepWordFields(text, q, w);
      assert d == (if w in q.dict then q.dict else q.dict[w := IndexOf(text, w)]);
      forall v ensures v in d <==> Seen(words, k, v) {
        SeenSnoc(words, k, v);
      }
    }
  }

  /** Word `k - 1` finds its entry in the dictionary exactly when it is not new, and the entry is its first index. */
  lemma LookupOfNextWord(text: string, s0: State, words: seq<string>, k: nat)
    requires 0 < k <= |words| && s0.dict == map[]
    ensures var q := Run(text, s0, words, k - 1);
            && (words[k - 1] in q.dict <==> !IsNew(words, k - 1))
            && (words[k - 1] in q.dict ==> q.dict[words[k - 1]] == IndexOf(text, words[k - 1]))
  {
    RunDictionary(text, s0, words, k - 1);
  }

  /** From an empty dictionary, the mode after `k` words is the reference mode. */
  lemma RunMode(text: string, m0: bool, base: seq<Write>, words: seq<string>, k: nat)
    requires k <= |words|
    ensures Run(text, State(map[], m0, base), words, k).charMode == ModeBefore(m0, words, k)
  {
    if k > 0 {
      var s0 := State(map[], m0, base);
      LookupOfNextWord(text, s0, words, k);
      StepWordFields(text, Run(text, s0, words, k - 1), words[k - 1]);
    }
  }

  /**
   * One step of the loop extends the reference output by one segment,
   * given that the state before it agrees with the reference.
   */
  lemma OutputStep(text: string, m0: bool, base: seq<Write>, words: seq<string>, k: nat, q: State)
    requires 0 < k <= |words|
    requires q.out == base + Segments(text, m0, words, k - 1)
    requires q.charMode == ModeBefore(m0, words, k - 1)
    requires words[k - 1] in q.dict <==> !IsNew(words, k - 1)
    requires words[k - 1] in q.dict ==> q.dict[words[k - 1]] == IndexOf(text, words[k - 1])
    ensures StepWord(text, q, words[k - 1]).out == base + Segments(text, m0, words, k)
  {
    var w := words[k - 1];
    var mode := ModeBefore(m0, words, k - 1);
    var escape := if mode != IsNew(words, k - 1) then [Escape(mode)] else [];
    var payload := Payload(text, words, k - 1);
    var segs := Segments(text, m0, words, k - 1);
    StepWordFields(text, q, w);
    assert payload == if w in q.dict then CodeRecords(q.dict[w], |w|) else WordRecords(w);
    assert StepWord(text, q, w).out == q.out + escape + payload;
    assert Segment(text, m0, words, k - 1) == escape + payload;
    SegmentsSnoc(text, m0, words, k);
    AppendAssoc(base + segs, escape, payload);
    AppendAssoc(base, segs, escape + payload);
  }

  /** From an empty dictionary, the output after `k` words is the base followed by the reference segments. */
  lemma {:induction false} RunOutput(text: string, m0: bool, base: seq<Write>, words: seq<string>, k: nat)
    requires k <= |words|
    ensures Run(text, State(map[], m0, base), words, k).out == base + Segments(text, m0, words, k)
  {
    var s0 := State(map[], m0, base);
    if k > 0 {
      RunOutput(text, m0, base, words, k - 1);
      RunMode(text, m0, base, words, k - 1);
      LookupOfNextWord(text, s0, words, k);
      OutputStep(text, m0, base, words, k, Run(text, s0, words, k - 1));
    } else {
      assert base + [] == base;
    }
  }

  /**
   * Running the loop over the first `k` words from an empty dictionary
   * gives exactly the reference: the dictionary holds precisely the words
   * seen, each with its first index in the text, the mode is whether the
   * last word was new, and the output grows by one reference segment per
   * word.
   */
  lemma RunMatchesReference(text: string, m0: bool, base: seq<Write>, words: seq<string>, k: nat)
    requires k <= |words|
    ensures var r := Run(text, State(map[], m0, base), words, k);
            && (forall w :: w in r.dict <==> Seen(words, k, w))
            && (forall w :: w in r.dict ==> r.dict[w] == IndexOf(text, w))
            && r.charMode == ModeBefore(m0, words, k)
            && r.out == base + Segments(text, m0, words, k)
  {
    RunDictionary(text, State(map[], m0, base), words, k);
    RunMode(text, m0, base, words, k);
    RunOutput(text, m0, base, words, k);
  }

  /** The dictionary after `k` words maps each distinct word seen to its first index, and holds nothing else. */
  lemma DictionaryHoldsWordsSeen(text: string, m0: bool, words: seq<string>, k: nat)
    requires k <= |words|
    ensures var d := Run(text, State(map[], m0, []), words, k).dict;
            d.Keys == (set j | 0 <= j < k :: words[j])
            && forall j :: 0 <= j < k ==> d[words[j]] == IndexOf(text, words[j])
  {
    RunMatchesReference(text, m0, [], words, k);
    var d := Run(text, State(map[], m0, []), words, k).dict;
    forall w ensures w in d <==> w in (set j | 0 <= j < k :: words[j]) {
      if w in d {
        var j :| 0 <= j < k && words[j] == w;
      }
    }
    forall j | 0 <= j < k ensures words[j] in d {
      assert Seen(words, k, words[j]);
    }
  }

  /** An entry, once in the dictionary, is never removed or overwritten. */
  lemma {:induction false} EntriesNeverOverwritten(text: string, s: State, words: seq<string>, j: nat, k: nat)
    requires j <= k <= |words|
    ensures var early := Run(text, s, words, j).dict;
            var late := Run(text, s, words, k).dict;
            forall w :: w in early ==> w in late && late[w] == early[w]
    decreases k
  {
    if j < k {
      EntriesNeverOverwritten(text, s, words, j, k - 1);
    }
  }

  /** The loop only ever appends to the output. */
  lemma {:induction false} RunAppendsOnly(text: string, s: State, words: seq<string>, k: nat)
    requires k <= |words|
    ensures s.out <= Run(text, s, words, k).out
    decreases k
  {
    if k > 0 {
      RunAppendsOnly(text, s, words, k - 1);
    }
  }

  /**
   * The step over word `i`, in the reference's terms: the mode before it
   * is whether the previous word was new, the mode after it is whether it
   * was new, and the output grows by the word's segment.
   */
  lemma WordStep(text: string, m0: bool, base: seq<Write>, words: seq<string>, i: nat)
    requires i < |words|
    ensures var before := Run(text, State(map[], m0, base), words, i);
            var after := Run(text, State(map[], m0, base), words, i + 1);
            && before.charMode == ModeBefore(m0, words, i)
            && after.charMode == IsNew(words, i)
            && after.out == before.out + Segment(text, m0, words, i)
  {
    RunMode(text, m0, base, words, i);
    RunMode(text, m0, base, words, i + 1);
    RunOutput(text, m0, base, words, i);
    RunOutput(text, m0, base, words, i + 1);
    SegmentsSnoc(text, m0, words, i + 1);
    AppendAssoc(base, Segments(text, m0, words, i), Segment(text, m0, words, i));
  }

  /** After word `i`, the mode flag is set exactly when that word was new. */
  lemma ModeAfterWord(text: string, m0: bool, base: seq<Write>, words: seq<string>, i: nat)
    requires i < |words|
    ensures Run(text, State(map[], m0, base), words, i + 1).charMode <==> !Seen(words, i, words[i])
  {
    WordStep(text, m0, base, words, i);
  }

  /**
   * Word `i` appends an escape exactly when it changes the mode, the escape
   * having the width of the mode being left, and then its payload.
   */
  lemma EscapeExactlyOnModeChange(text: string, m0: bool, base: seq<Write>, words: seq<string>, i: nat)
    requires i < |words|
    ensures var before := Run(text, State(map[], m0, base), words, i);
            var after := Run(text, State(map[], m0, base), words, i + 1);
            after.out == before.out
              + (if before.charMode != after.charMode then [Escape(before.charMode)] else [])
              + Payload(text, words, i)
  {
    WordStep(text, m0, base, words, i);
  }

  /** Two consecutive words of the same kind have no escape between them. */
  lemma NoEscapeBetweenSameKind(text: string, m0: bool, base: seq<Write>, words: seq<string>, i: nat)
    requires 0 < i < |words|
    requires IsNew(words, i - 1) == IsNew(words, i)
    ensures Run(text, State(map[], m0, base), words, i + 1).out
         == Run(text, State(map[], m0, base), words, i).out + Payload(text, words, i)
  {
    WordStep(text, m0, base, words, i);
  }

  /**
   * A repeated word is written as a code holding the index that was stored
   * when the word first occurred, and the word's length, preceded by an
   * escape exactly when the writer was in letter mode.
   */
  lemma RepeatedWordReferencesFirstOccurrence(text: string, m0: bool, base: seq<Write>, words: seq<string>, j: nat, i: nat)
    requires j < i < |words|
    requires words[j] == words[i] && IsNew(words, j)
    ensures var stored := Run(text, State(map[], m0, base), words, j + 1).dict;
            var before := Run(text, State(map[], m0, base), words, i);
            && words[j] in stored
            && Run(text, State(map[], m0, base), words, i + 1).out
               == before.out + (if before.charMode then [Escape(true)] else []) + CodeRecords(stored[words[j]], |words[i]|)
  {
    var stored := Run(text, State(map[], m0, base), words, j + 1).dict;
    assert words[j] in stored && stored[words[j]] == IndexOf(text, words[i]) by {
      RunDictionary(text, State(map[], m0, base), words, j + 1);
      assert Seen(words, j + 1, words[j]);
    }
    assert !IsNew(words, i) by {
      assert Seen(words, i, words[i]);
    }
    var mode := ModeBefore(m0, words, i);
    assert Segment(text, m0, words, i) == (if mode then [Escape(true)] else []) + CodeRecords(IndexOf(text, words[i]), |words[i]|);
    WordStep(text, m0, base, words, i);
  }
}
