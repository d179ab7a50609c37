/** `wrap_text` of main.py (nested in `Student.show_student_db`): breaks a
    `", "`-separated list into lines of at most `maxCharsPerLine` characters,
    putting a newline in place of the separator before a word that does not fit. */
module Wrap {
  import opened Text

  /** The two variables the loop updates: `wrapped_text` and `line_length`. */
  datatype WrapState = WrapState(text: string, lineLength: int)

  const Start := WrapState("", 0)

  /** One iteration of the loop for `word`. */
  function Step(st: WrapState, word: string, maxCharsPerLine: nat): (next: WrapState)
    ensures |next.text| >= |st.text| + |word|
  {
    if st.lineLength + |word| + 2 > maxCharsPerLine then
      WrapState(st.text + "\n" + word, |word|)
    else
      WrapState(if st.text != "" then st.text + ", " + word else st.text + word,
                st.lineLength + |word| + 2)
  }

  /** The loop over the remaining words. */
  function WrapWords(words: seq<string>, st: WrapState, maxCharsPerLine: nat): (final: WrapState)
    decreases |words|
  {
    if |words| == 0 then st else WrapWords(words[1..], Step(st, words[0], maxCharsPerLine), maxCharsPerLine)
  }

  /** What `wrap_text(text, maxCharsPerLine)` returns. */
  function WrapText(text: string, maxCharsPerLine: nat): (wrapped: string)
  {
    WrapWords(Split(text), Start, maxCharsPerLine).text
  }

  lemma WrapWordsCons(words: seq<string>, i: nat, st: WrapState, maxCharsPerLine: nat)
    requires i < |words|
    ensures WrapWords(words[i..], st, maxCharsPerLine)
         == WrapWords(words[i + 1..], Step(st, words[i], maxCharsPerLine), maxCharsPerLine)
  {
    assert words[i..][1..] == words[i + 1..];
  }

  /** `wrap_text`, as the source writes it: a loop over `text.split(', ')`. */
  method WrapTextLoop(text: string, maxCharsPerLine: nat) returns (wrapped: string)
    ensures wrapped == WrapText(text, maxCharsPerLine)
  {
    var words := Split(text);
    wrapped := "";
    var lineLength := 0;
    for i := 0 to |words|
      invariant WrapWords(words[i..], WrapState(wrapped, lineLength), maxCharsPerLine)
             == WrapWords(words, Start, maxCharsPerLine)
    {
      var word := words[i];
      WrapWordsCons(words, i, WrapState(wrapped, lineLength), maxCharsPerLine);
      ghost var before := WrapState(wrapped, lineLength);
      if lineLength + |word| + 2 > maxCharsPerLine {
        wrapped := wrapped + "\n" + word;
        lineLength := |word|;
      } else {
        if wrapped != "" {
          wrapped := wrapped + ", " + word;
        } else {
          wrapped := wrapped + word;
        }
        lineLength := lineLength + |word| + 2;
      }
      assert WrapState(wrapped, lineLength) == Step(before, word, maxCharsPerLine);
    }
    assert words[|words|..] == [];
  }

  /** The loop's invariant for the line bound: every finished line fits or is one word,
      the current line is no longer than `lineLength`, and `lineLength` is within the
      limit unless the current line is a single word that came after a newline. */
  ghost predicate LinesGood(st: WrapState, words: seq<string>, maxCharsPerLine: nat)
  {
    var lines := Lines(st.text);
    && (forall k :: 0 <= k < |lines| - 1 ==> |lines[k]| <= maxCharsPerLine || lines[k] in words)
    && |Last(lines)| <= st.lineLength
    && (st.lineLength <= maxCharsPerLine || (Last(lines) in words && st.lineLength == |Last(lines)|))
  }

  lemma BreakKeepsLinesGood(st: WrapState, word: string, words: seq<string>, maxCharsPerLine: nat)
    requires LinesGood(st, words, maxCharsPerLine)
    requires word in words && '\n' !in word
    requires st.lineLength + |word| + 2 > maxCharsPerLine
    ensures LinesGood(WrapState(st.text + "\n" + word, |word|), words, maxCharsPerLine)
  {
    LinesAppendBreak(st.text, word);
    LinesSingle(word);
    var lines := Lines(st.text);
    var after := lines + [word];
    assert Lines(st.text + "\n" + word) == after;
    assert forall k :: 0 <= k < |after| - 1 ==> after[k] == lines[k];
  }

  lemma JoinKeepsLinesGood(st: WrapState, word: string, words: seq<string>, maxCharsPerLine: nat)
    requires LinesGood(st, words, maxCharsPerLine)
    requires '\n' !in word
    requires st.lineLength + |word| + 2 <= maxCharsPerLine
    ensures LinesGood(WrapState(st.text + ", " + word, st.lineLength + |word| + 2), words, maxCharsPerLine)
  {
    assert ',' != '\n' && ' ' != '\n';
    assert '\n' !in ", " + word;
    Associate(st.text, ", ", word);
    LinesAppendPlain(st.text, ", " + word);
    var lines := Lines(st.text);
    var after := lines[..|lines| - 1] + [Last(lines) + (", " + word)];
    assert Lines(st.text + ", " + word) == after;
    assert forall k :: 0 <= k < |after| - 1 ==> after[k] == lines[k];
  }

  lemma StepKeepsLinesGood(st: WrapState, word: string, words: seq<string>, maxCharsPerLine: nat)
    requires LinesGood(st, words, maxCharsPerLine)
    requires word in words && '\n' !in word
    ensures LinesGood(Step(st, word, maxCharsPerLine), words, maxCharsPerLine)
  {
    if st.lineLength + |word| + 2 > maxCharsPerLine {
      BreakKeepsLinesGood(st, word, words, maxCharsPerLine);
    } else if st.text != "" {
      JoinKeepsLinesGood(st, word, words, maxCharsPerLine);
    } else {
      assert st.text + word == word;
      LinesSingle(word);
    }
  }

  lemma {:induction false} WrapWordsKeepsLinesGood(rest: seq<string>, st: WrapState, words: seq<string>, maxCharsPerLine: nat)
    requires LinesGood(st, words, maxCharsPerLine)
    requires forall w :: w in rest ==> w in words && '\n' !in w
    ensures LinesGood(WrapWords(rest, st, maxCharsPerLine), words, maxCharsPerLine)
    decreases |rest|
  {
    if |rest| > 0 {
      assert rest[0] in rest;
      StepKeepsLinesGood(st, rest[0], words, maxCharsPerLine);
      assert forall w :: w in rest[1..] ==> w in rest;
      WrapWordsKeepsLinesGood(rest[1..], Step(st, rest[0], maxCharsPerLine), words, maxCharsPerLine);
    }
  }

  /** Every output line is at most `maxCharsPerLine` long unless it is a single word
      (one piece of `text.split(', ')`), for a text without newlines of its own. */
  lemma WrapLineBound(text: string, maxCharsPerLine: nat)
    requires '\n' !in text
    ensures forall line :: line in Lines(WrapText(text, maxCharsPerLine)) ==>
              |line| <= maxCharsPerLine || line in Split(text)
  {
    var words := Split(text);
    SplitFromNoNewline(text, "");
    assert LinesGood(Start, words, maxCharsPerLine);
    WrapWordsKeepsLinesGood(words, Start, words, maxCharsPerLine);
    var lines := Lines(WrapText(text, maxCharsPerLine));
    forall line | line in lines ensures |line| <= maxCharsPerLine || line in words {
      var k :| 0 <= k < |lines| && lines[k] == line;
    }
  }

  lemma UnwrapSeparated(w: string)
    requires '\n' !in w
    ensures Unwrap("\n" + w) == ", " + w
    ensures Unwrap(", " + w) == ", " + w
  {
    UnwrapPlain(w);
    UnwrapPlain(", ");
    UnwrapAppend("\n", w);
    UnwrapAppend(", ", w);
    assert "\n"[1..] == "";
  }

  lemma UnwrapAppendSeparated(t: string, w: string)
    requires '\n' !in w
    ensures Unwrap(t + ("\n" + w)) == Unwrap(t) + ", " + w
    ensures Unwrap(t + (", " + w)) == Unwrap(t) + ", " + w
  {
    UnwrapSeparated(w);
    UnwrapAppend(t, "\n" + w);
    UnwrapAppend(t, ", " + w);
    Associate(Unwrap(t), ", ", w);
  }

  lemma StepText(st: WrapState, w: string, maxCharsPerLine: nat)
    ensures Step(st, w, maxCharsPerLine).text
         == if st.lineLength + |w| + 2 > maxCharsPerLine then st.text + ("\n" + w)
            else if st.text != "" then st.text + (", " + w)
            else w
  {
  }

  /** Unwrapping one step: the word arrives with its separator, whichever was written. */
  lemma UnwrapStep(st: WrapState, w: string, maxCharsPerLine: nat)
    requires st.text != "" && '\n' !in w
    ensures Unwrap(Step(st, w, maxCharsPerLine).text) == Unwrap(st.text) + ", " + w
  {
    StepText(st, w, maxCharsPerLine);
    UnwrapAppendSeparated(st.text, w);
  }

  /** Once the text is non-empty, each word adds its separator, a newline or `", "`,
      which `Unwrap` turns back into `", "`. */
  lemma {:induction false} UnwrapWrapWords(ws: seq<string>, st: WrapState, maxCharsPerLine: nat)
    requires st.text != "" && |ws| > 0
    requires forall w :: w in ws ==> '\n' !in w
    ensures Unwrap(WrapWords(ws, st, maxCharsPerLine).text) == Unwrap(st.text) + ", " + Join(ws, ", ")
    decreases |ws|
  {
    var w := ws[0];
    assert w in ws;
    var next := Step(st, w, maxCharsPerLine);
    UnwrapStep(st, w, maxCharsPerLine);
    if |ws| > 1 {
      assert forall v :: v in ws[1..] ==> v in ws;
      UnwrapWrapWords(ws[1..], next, maxCharsPerLine);
      assert ws == [w] + ws[1..];
      JoinCons(w, ws[1..], ", ");
    }
  }

  lemma UnwrapFirstStep(w: string, lineLength: int, maxCharsPerLine: nat)
    requires w != "" && '\n' !in w
    ensures var next := Step(WrapState("", lineLength), w, maxCharsPerLine);
            next.text != ""
            && Unwrap(next.text) == (if lineLength + |w| + 2 > maxCharsPerLine then ", " else "") + w
  {
    StepText(WrapState("", lineLength), w, maxCharsPerLine);
    UnwrapAppendSeparated("", w);
    UnwrapPlain(w);
    assert "" + ("\n" + w) == "\n" + w;
  }

  lemma UnwrapManyFromEmpty(ws: seq<string>, lineLength: int, maxCharsPerLine: nat)
    requires |ws| > 1 && ws[0] != ""
    requires forall w :: w in ws ==> '\n' !in w
    ensures Unwrap(WrapWords(ws, WrapState("", lineLength), maxCharsPerLine).text)
         == (if lineLength + |ws[0]| + 2 > maxCharsPerLine then ", " else "") + Join(ws, ", ")
  {
    var w := ws[0];
    assert w in ws;
    var next := Step(WrapState("", lineLength), w, maxCharsPerLine);
    UnwrapFirstStep(w, lineLength, maxCharsPerLine);
    assert WrapWords(ws, WrapState("", lineLength), maxCharsPerLine) == WrapWords(ws[1..], next, maxCharsPerLine);
    assert forall v :: v in ws[1..] ==> v in ws;
    UnwrapWrapWords(ws[1..], next, maxCharsPerLine);
    assert ws == [w] + ws[1..];
    JoinCons(w, ws[1..], ", ");
    var prefix := if lineLength + |w| + 2 > maxCharsPerLine then ", " else "";
    Associate(prefix, w, ", " + Join(ws[1..], ", "));
    Associate(prefix + w, ", ", Join(ws[1..], ", "));
    Associate(w, ", ", Join(ws[1..], ", "));
  }

  lemma UnwrapOneFromEmpty(w: string, lineLength: int, maxCharsPerLine: nat)
    requires w != "" && '\n' !in w
    ensures Unwrap(WrapWords([w], WrapState("", lineLength), maxCharsPerLine).text)
         == (if lineLength + |w| + 2 > maxCharsPerLine then ", " else "") + Join([w], ", ")
  {
    UnwrapFirstStep(w, lineLength, maxCharsPerLine);
    assert [w][1..] == [];
  }

  /** Starting a line of length `lineLength` with a non-empty first word, the output is the
      words joined with `", "` once newlines are put back as separators; a first word that
      does not fit is preceded by a newline. */
  lemma UnwrapFromEmpty(ws: seq<string>, lineLength: int, maxCharsPerLine: nat)
    requires |ws| > 0 && ws[0] != ""
    requires forall w :: w in ws ==> '\n' !in w
    ensures Unwrap(WrapWords(ws, WrapState("", lineLength), maxCharsPerLine).text)
         == (if lineLength + |ws[0]| + 2 > maxCharsPerLine then ", " else "") + Join(ws, ", ")
  {
    if |ws| == 1 {
      assert ws[0] in ws;
      assert ws == [ws[0]];
      UnwrapOneFromEmpty(ws[0], lineLength, maxCharsPerLine);
    } else {
      UnwrapManyFromEmpty(ws, lineLength, maxCharsPerLine);
    }
  }

  /** Round trip: for a text without newlines whose first piece is not empty, putting the
      separators back into the wrapped text gives the text, after a leading `", "` when the
      first word alone is too long. */
  lemma WrapRoundTrip(text: string, maxCharsPerLine: nat)
    requires '\n' !in text && Split(text)[0] != ""
    ensures Unwrap(WrapText(text, maxCharsPerLine))
         == (if |Split(text)[0]| + 2 > maxCharsPerLine then ", " else "") + text
  {
    SplitFromNoNewline(text, "");
    UnwrapFromEmpty(Split(text), 0, maxCharsPerLine);
    SplitRoundTrip(text);
  }

  /** The dashboard's case: the text starts with the empty date of the registration row.
      That empty word vanishes without a separator but still counts two characters. */
  lemma WrapAfterEmptyFirstWord(rest: string, maxCharsPerLine: nat)
    requires maxCharsPerLine >= 2
    requires '\n' !in rest && Split(rest)[0] != ""
    ensures Unwrap(WrapText(", " + rest, maxCharsPerLine))
         == (if |Split(rest)[0]| + 4 > maxCharsPerLine then ", " else "") + rest
  {
    SplitLeadingSeparator(rest);
    var ws := Split(rest);
    assert Split(", " + rest)[1..] == ws;
    assert Step(Start, "", maxCharsPerLine) == WrapState("", 2);
    SplitFromNoNewline(rest, "");
    UnwrapFromEmpty(ws, 2, maxCharsPerLine);
    SplitRoundTrip(rest);
  }
}
