/**
 * Answer option lines of the solution report: multiple-choice answers are
 * printed as one checkbox paragraph each, true/false answers as one radio
 * paragraph each, after the answer text has lost its outer paragraph.
 */
module OptionLines {
  import opened Basics
  import opened Strings

  const CheckboxHead := "<p><input type=\"checkbox\" />&#160;"
  const RadioHead := "<p><input type=\"radio\" />&#160;"
  const LineEnd := "</p>\n"

  /** `<p>` in any letter case. */
  predicate IsOpenP(t: string) {
    |t| == 3 && AsciiLower(t) == "<p>"
  }

  /** `</p>` in any letter case. */
  predicate IsCloseP(t: string) {
    |t| == 4 && AsciiLower(t) == "</p>"
  }

  /**
   * `preg_replace('!^<p>(.*?)</p>$!i', '$1', a)`: an answer that is one
   * paragraph on one line loses its tags.  `$` also matches before a final
   * newline, which is then kept; `.` does not match a newline, so an answer
   * with a line break inside is left alone.
   */
  function StripOuterP(a: string): (r: string)
    ensures |r| <= |a|
    ensures r == a || '\n' !in r || (r[|r| - 1] == '\n' && '\n' !in r[..|r| - 1])
  {
    if |a| >= 7 && IsOpenP(a[..3]) && IsCloseP(a[|a| - 4..]) && '\n' !in a[3..|a| - 4] then
      a[3..|a| - 4]
    else if |a| >= 8 && a[|a| - 1] == '\n' && IsOpenP(a[..3]) && IsCloseP(a[|a| - 5..|a| - 1])
            && '\n' !in a[3..|a| - 5] then
      var m := a[3..|a| - 5];
      assert (m + "\n")[..|m|] == m;
      m + "\n"
    else a
  }

  /** The shapes the pattern matches: open tag, one line, close tag, optional newline. */
  ghost predicate Wrapped(a: string, m: string, e: string) {
    exists open, close :: IsOpenP(open) && IsCloseP(close) && '\n' !in m
      && (e == "" || e == "\n") && a == open + m + close + e
  }

  /** A wrapped answer is reduced to its content (and trailing newline). */
  lemma StripWrapped(open: string, m: string, close: string, e: string)
    requires IsOpenP(open) && IsCloseP(close) && '\n' !in m
    requires e == "" || e == "\n"
    ensures StripOuterP(open + m + close + e) == m + e
  {
    if e == "" {
      StripWrappedPlain(open, m, close);
    } else {
      StripWrappedNewline(open, m, close);
    }
  }

  lemma StripWrappedPlain(open: string, m: string, close: string)
    requires IsOpenP(open) && IsCloseP(close) && '\n' !in m
    ensures StripOuterP(open + m + close + "") == m + ""
  {
    var a := open + m + close + "";
    assert a[..3] == open;
    assert a[|a| - 4..] == close;
    assert a[3..|a| - 4] == m;
  }

  lemma StripWrappedNewline(open: string, m: string, close: string)
    requires IsOpenP(open) && IsCloseP(close) && '\n' !in m
    ensures StripOuterP(open + m + close + "\n") == m + "\n"
  {
    var a := open + m + close + "\n";
    assert a[..3] == open;
    assert a[|a| - 1] == '\n';
    assert a[|a| - 4..] == close[1..] + "\n";
    assert AsciiLower(a[|a| - 4..])[3] == '\n';
    assert a[|a| - 5..|a| - 1] == close;
    assert a[3..|a| - 5] == m;
  }

  /** Only wrapped answers change. */
  lemma StripOnlyWrapped(a: string)
    requires StripOuterP(a) != a
    ensures exists m, e :: Wrapped(a, m, e) && StripOuterP(a) == m + e
  {
    if |a| >= 7 && IsOpenP(a[..3]) && IsCloseP(a[|a| - 4..]) && '\n' !in a[3..|a| - 4] {
      WrappedOnOneLine(a);
    } else {
      WrappedBeforeNewline(a);
    }
  }

  /** The first shape: the paragraph ends the answer. */
  lemma WrappedOnOneLine(a: string)
    requires |a| >= 7 && IsOpenP(a[..3]) && IsCloseP(a[|a| - 4..]) && '\n' !in a[3..|a| - 4]
    ensures Wrapped(a, a[3..|a| - 4], "") && StripOuterP(a) == a[3..|a| - 4] + ""
  {
    assert a == a[..3] + a[3..|a| - 4] + a[|a| - 4..] + "";
    assert a[3..|a| - 4] + "" == a[3..|a| - 4];
  }

  /** The second shape: the paragraph is followed by a final newline. */
  lemma WrappedBeforeNewline(a: string)
    requires |a| >= 8 && a[|a| - 1] == '\n' && IsOpenP(a[..3]) && IsCloseP(a[|a| - 5..|a| - 1])
    requires '\n' !in a[3..|a| - 5]
    ensures Wrapped(a, a[3..|a| - 5], "\n")
    ensures !(IsCloseP(a[|a| - 4..]) && '\n' !in a[3..|a| - 4]) ==> StripOuterP(a) == a[3..|a| - 5] + "\n"
  {
    assert a == a[..3] + a[3..|a| - 5] + a[|a| - 5..|a| - 1] + "\n";
  }

  /** The options the report prints, one per stored answer. */
  function StripEach(answers: seq<string>): (r: seq<string>)
    ensures |r| == |answers|
    ensures forall i :: 0 <= i < |r| ==> r[i] == StripOuterP(answers[i])
  {
    if |answers| == 0 then [] else [StripOuterP(answers[0])] + StripEach(answers[1..])
  }

  /** One paragraph per option, in order, each opened by `head`. */
  function Lines(head: string, options: seq<string>): string {
    if |options| == 0 then "" else head + options[0] + LineEnd + Lines(head, options[1..])
  }

  /** Splits printed option lines back into their options. */
  function ParseLines(head: string, s: string): Option<seq<string>>
    decreases |s|
  {
    if |s| == 0 then Some([])
    else if StartsWith(s, head) then
      var rest := s[|head|..];
      match FirstIndex(rest, LineEnd)
      case Some(k) =>
        (match ParseLines(head, rest[k + |LineEnd|..])
         case Some(more) => Some([rest[..k]] + more)
         case None => None)
      case None => None
    else None
  }

  /**
   * Printed lines read back as exactly the options printed, one per line
   * and in order, as long as no option has a line break of its own.
   */
  lemma {:induction false} LinesRoundTrip(head: string, options: seq<string>)
    requires |head| > 0
    requires forall i :: 0 <= i < |options| ==> '\n' !in options[i]
    ensures ParseLines(head, Lines(head, options)) == Some(options)
  {
    if |options| > 0 {
      LinesRoundTrip(head, options[1..]);
      ParseFirstLine(head, options);
    }
  }

  /** The first printed line reads back in front of the lines after it. */
  lemma ParseFirstLine(head: string, options: seq<string>)
    requires |head| > 0 && |options| > 0 && '\n' !in options[0]
    requires ParseLines(head, Lines(head, options[1..])) == Some(options[1..])
    ensures ParseLines(head, Lines(head, options)) == Some(options)
  {
    assert Lines(head, options) == head + options[0] + LineEnd + Lines(head, options[1..]);
    ParseOneLine(head, options[0], Lines(head, options[1..]), options[1..]);
    HeadTail(options);
  }

  lemma HeadTail(s: seq<string>)
    requires |s| > 0
    ensures [s[0]] + s[1..] == s
  {
  }

  /** One printed line in front of lines that read back as `others`. */
  lemma ParseOneLine(head: string, o: string, more: string, others: seq<string>)
    requires |head| > 0 && '\n' !in o
    requires ParseLines(head, more) == Some(others)
    ensures ParseLines(head, head + o + LineEnd + more) == Some([o] + others)
  {
    Associate(head, o, LineEnd);
    Associate(head, o + LineEnd, more);
    AfterPrefix(head, o + LineEnd + more);
    assert LineEnd[..4] == "</p>";
    FirstIndexOfTerminator(o, LineEnd, more);
    ThreeParts(o, LineEnd, more);
  }

  /** The first and last parts of a three-part concatenation. */
  lemma ThreeParts(a: string, b: string, c: string)
    ensures (a + b + c)[..|a|] == a && (a + b + c)[|a| + |b|..] == c
  {
  }

  /**
   * `processmultichoicequestion` for a question loaded from the database:
   * the question text followed by one checkbox line per answer.  When
   * `shuffleAnswers` is 1 the host's `shuffle` decides the order.
   */
  function MultichoiceText(questionText: string, answers: seq<string>, shuffleAnswers: int,
                           shuffle: seq<string> -> seq<string>): (r: string)
    ensures |r| >= |questionText| && r[..|questionText|] == questionText
    ensures shuffleAnswers != 1 ==> r[|questionText|..] == Lines(CheckboxHead, StripEach(answers))
  {
    var options := StripEach(answers);
    questionText + Lines(CheckboxHead, if shuffleAnswers == 1 then shuffle(options) else options)
  }

  /**
   * Where a true/false question comes from: a stored `stdClass` record,
   * or a loaded `qtype_truefalse_question` object.
   */
  datatype Source = Stored | Loaded

  /**
   * `processtruefalsequestion`: the question text followed by one radio line
   * per option; a stored question prints its answers, a loaded one the
   * words for false and true, in that order.  The report calls it only for
   * stored questions (mod/quiz/report/solution/report.php:361-362); a
   * drawn `qtype_truefalse_question` is sent to the multichoice routine
   * instead (lines 312-313), so the `Loaded` branch is the routine's own
   * case that the report does not reach.
   */
  function TrueFalseText(questionText: string, source: Source, answers: seq<string>,
                         falseWord: string, trueWord: string): (r: string)
    ensures |r| >= |questionText| && r[..|questionText|] == questionText
    ensures source == Loaded ==> r[|questionText|..] == Lines(RadioHead, [falseWord, trueWord])
    ensures source == Stored ==> r[|questionText|..] == Lines(RadioHead, StripEach(answers))
  {
    var options := match source
      case Stored => StripEach(answers)
      case Loaded => [falseWord, trueWord];
    questionText + Lines(RadioHead, options)
  }

  /**
   * Exactly one checkbox line per answer, in answer order, each holding the
   * answer without its outer paragraph.
   */
  lemma MultichoiceOneLinePerAnswer(questionText: string, answers: seq<string>,
                                    shuffle: seq<string> -> seq<string>)
    requires forall i :: 0 <= i < |answers| ==> '\n' !in StripOuterP(answers[i])
    ensures var r := MultichoiceText(questionText, answers, 0, shuffle);
            ParseLines(CheckboxHead, r[|questionText|..]) == Some(StripEach(answers))
  {
    var options := StripEach(answers);
    assert forall i :: 0 <= i < |options| ==> '\n' !in options[i];
    LinesRoundTrip(CheckboxHead, options);
    assert MultichoiceText(questionText, answers, 0, shuffle)[|questionText|..] == Lines(CheckboxHead, options);
  }

  /**
   * With `shuffleanswers` set the lines come in the host's order, and they
   * still hold every answer once: the options read back are a permutation
   * of the stripped answers.
   */
  lemma {:induction false} MultichoiceShuffledLines(questionText: string, answers: seq<string>,
                                                    shuffle: seq<string> -> seq<string>)
    requires IsShuffle(shuffle)
    requires forall i :: 0 <= i < |answers| ==> '\n' !in StripOuterP(answers[i])
    ensures var r := MultichoiceText(questionText, answers, 1, shuffle);
            var p := ParseLines(CheckboxHead, r[|questionText|..]);
            p.Some? && multiset(p.value) == multiset(StripEach(answers))
  {
    var options := StripEach(answers);
    var shuffled := shuffle(options);
    assert multiset(shuffled) == multiset(options);
    forall i | 0 <= i < |shuffled|
      ensures '\n' !in shuffled[i]
    {
      assert shuffled[i] in multiset(shuffled);
      assert shuffled[i] in options;
    }
    LinesRoundTrip(CheckboxHead, shuffled);
    assert MultichoiceText(questionText, answers, 1, shuffle)[|questionText|..] == Lines(CheckboxHead, shuffled);
  }

  /** A loaded true/false question prints exactly two radio lines: false, then true. */
  lemma TrueFalseTwoLines(questionText: string, answers: seq<string>, falseWord: string, trueWord: string)
    requires '\n' !in falseWord && '\n' !in trueWord
    ensures var r := TrueFalseText(questionText, Loaded, answers, falseWord, trueWord);
            ParseLines(RadioHead, r[|questionText|..]) == Some([falseWord, trueWord])
  {
    LinesRoundTrip(RadioHead, [falseWord, trueWord]);
  }
}
