/**
 * Text blanks of the solution report: the `<input type="text">` fields that
 * stand in for numerical, short-answer and drop-down answers on a printed
 * worksheet, and the rules that choose their width.
 *
 * Widths are measured with PHP's `strlen`, i.e. in UTF-8 bytes.  An empty
 * blank is padded with two non-breaking spaces per unit of width.
 */
module Blanks {
  import opened Basics
  import opened Strings
  import opened Decimal

  const MinSize: nat := 3
  const MaxSize: nat := 50

  /** One unit of padding. */
  const Pad := "&#160;&#160;"

  const InputHead := "<input type=\"text\" value=\""
  const SizeHead := "\" size=\""
  const DashedStyle := " style=\"border: 1px dashed #000000; height: 24px;\""
  const BlankEnd := DashedStyle + "/>"

  function Max(a: int, b: int): int { if a >= b then a else b }
  function Min(a: int, b: int): int { if a <= b then a else b }

  /** Length of the longest answer, 0 for none. */
  function LongestAnswer(answers: seq<string>): (n: nat)
    ensures forall i :: 0 <= i < |answers| ==> Utf8Length(answers[i]) <= n
    ensures |answers| > 0 ==> exists i :: 0 <= i < |answers| && Utf8Length(answers[i]) == n
    ensures |answers| == 0 ==> n == 0
  {
    if |answers| == 0 then 0
    else Max(LongestAnswer(answers[..|answers| - 1]), Utf8Length(answers[|answers| - 1]))
  }

  /** The two corrections a cloze size receives: raised to 3, lowered to 50. */
  function ClampSize(n: int): (size: nat)
    ensures MinSize <= size <= MaxSize
    ensures size == Min(MaxSize, Max(MinSize, n))
  {
    var raised := if n <= 3 then 3 else n;
    if raised > 50 then 50 else raised
  }

  /**
   * Width of a cloze numerical blank: computed afresh from each answer, so
   * the last answer decides it.
   */
  function NumericalClozeSize(answer: string): (size: nat)
    ensures MinSize <= size <= MaxSize
    ensures Utf8Length(answer) <= MaxSize ==> size == Max(MinSize, Utf8Length(answer))
    ensures Utf8Length(answer) > MaxSize ==> size == MaxSize
  {
    var len := Utf8Length(answer);
    var size := if len <= 3 then 3 else len;
    if size > 50 then 50 else size
  }

  /** Clamping a running maximum step by step equals clamping the maximum once. */
  lemma ClampAbsorbs(m: int, l: int)
    ensures ClampSize(Max(ClampSize(m), l)) == ClampSize(Max(m, l))
  {
  }

  /**
   * Width of a cloze short-answer blank: a running maximum over the
   * answers, raised to 3 and lowered to 50 after every answer.
   */
  method ShortanswerClozeSize(answers: seq<string>) returns (size: nat)
    ensures |answers| > 0 ==> MinSize <= size <= MaxSize
    ensures |answers| > 0 ==> size == Min(MaxSize, Max(MinSize, LongestAnswer(answers)))
    ensures |answers| == 0 ==> size == 0
  {
    size := 0;
    var k := 0;
    while k < |answers|
      invariant 0 <= k <= |answers|
      invariant k == 0 ==> size == 0
      invariant k > 0 ==> size == ClampSize(LongestAnswer(answers[..k]))
    {
      var len := Utf8Length(answers[k]);
      ShortanswerStep(answers, k, size);
      if len > size {
        size := len;
      }
      if size <= 3 {
        size := 3;
      }
      if size > 50 {
        size := 50;
      }
      k := k + 1;
    }
    assert answers[..k] == answers;
  }

  /** One answer more: clamping the running maximum with it clamps the longer prefix's maximum. */
  lemma ShortanswerStep(answers: seq<string>, k: nat, size: nat)
    requires k < |answers|
    requires k == 0 ==> size == 0
    requires k > 0 ==> size == ClampSize(LongestAnswer(answers[..k]))
    ensures ClampSize(Max(size, Utf8Length(answers[k]))) == ClampSize(LongestAnswer(answers[..k + 1]))
  {
    assert answers[..k + 1][..k] == answers[..k];
    if k > 0 {
      ClampAbsorbs(LongestAnswer(answers[..k]), Utf8Length(answers[k]));
    }
  }

  /** One answer more for a drop-down: the running maximum, raised to 3. */
  lemma MultichoiceStep(answers: seq<string>, k: nat, size: nat)
    requires k < |answers|
    requires k == 0 ==> size == 0
    requires k > 0 ==> size == Max(MinSize, LongestAnswer(answers[..k]))
    ensures Max(MinSize, Max(size, Utf8Length(answers[k]))) == Max(MinSize, LongestAnswer(answers[..k + 1]))
  {
    assert answers[..k + 1][..k] == answers[..k];
  }

  /**
   * Width of a cloze drop-down blank on a worksheet: the running maximum
   * raised to 3, with no upper bound.
   */
  method MultichoiceClozeSize(answers: seq<string>) returns (size: nat)
    ensures |answers| > 0 ==> size == Max(MinSize, LongestAnswer(answers))
    ensures |answers| == 0 ==> size == 0
  {
    size := 0;
    var k := 0;
    while k < |answers|
      invariant 0 <= k <= |answers|
      invariant k == 0 ==> size == 0
      invariant k > 0 ==> size == Max(MinSize, LongestAnswer(answers[..k]))
    {
      var len := Utf8Length(answers[k]);
      MultichoiceStep(answers, k, size);
      if len > size {
        size := len;
      }
      if size <= 3 {
        size := 3;
      }
      k := k + 1;
    }
    assert answers[..k] == answers;
  }

  /**
   * Width of a drop-down blank of a drawn cloze question: the running
   * maximum of the option lengths, lowered to 50 once after the loop and
   * never raised to 3.  In a solution the loop sees only the correct
   * options, so the caller passes those.
   */
  method DrawnMultichoiceClozeSize(answers: seq<string>) returns (size: nat)
    ensures size <= MaxSize
    ensures size == Min(MaxSize, LongestAnswer(answers))
  {
    size := 0;
    var k := 0;
    while k < |answers|
      invariant 0 <= k <= |answers|
      invariant size == LongestAnswer(answers[..k])
    {
      assert answers[..k + 1][..k] == answers[..k];
      var len := Utf8Length(answers[k]);
      if len > size {
        size := len;
      }
      k := k + 1;
    }
    assert answers[..k] == answers;
    if size > 50 {
      size := 50;
    }
  }

  /**
   * Width of a short-answer blank of a drawn cloze question: the running
   * maximum, raised to 3 and lowered to 50 once after the loop.  For a
   * non-empty list this is the width the stored-question rule reaches by
   * correcting after every answer.
   */
  method DrawnShortanswerClozeSize(answers: seq<string>) returns (size: nat)
    ensures MinSize <= size <= MaxSize
    ensures size == ClampSize(LongestAnswer(answers))
  {
    size := 0;
    var k := 0;
    while k < |answers|
      invariant 0 <= k <= |answers|
      invariant size == LongestAnswer(answers[..k])
    {
      assert answers[..k + 1][..k] == answers[..k];
      var len := Utf8Length(answers[k]);
      if len > size {
        size := len;
      }
      k := k + 1;
    }
    assert answers[..k] == answers;
    if size <= 3 {
      size := 3;
    }
    if size > 50 {
      size := 50;
    }
  }

  /** Stored and drawn short-answer blanks of the same answers are equally wide. */
  method ShortanswerSizesAgree(answers: seq<string>) returns (stored: nat, drawn: nat)
    requires |answers| > 0
    ensures stored == drawn
  {
    stored := ShortanswerClozeSize(answers);
    drawn := DrawnShortanswerClozeSize(answers);
  }

  /**
   * Width of a drop-down blank in a solution with one correct answer: that
   * answer's length, lowered to 50 but not raised to 3.
   */
  function SingleSolutionSize(correct: string): (size: nat)
    ensures size <= MaxSize
    ensures size == Min(MaxSize, Utf8Length(correct))
  {
    var len := Utf8Length(correct);
    if len > 50 then 50 else len
  }

  /**
   * Width of the blank of a numerical question: at least 3 and at least the
   * longest answer, with no upper bound.
   */
  method NumericalQuestionSize(answers: seq<string>) returns (size: nat)
    ensures size >= MinSize
    ensures forall i :: 0 <= i < |answers| ==> Utf8Length(answers[i]) <= size
    ensures size == MinSize || exists i :: 0 <= i < |answers| && Utf8Length(answers[i]) == size
    ensures size == Max(MinSize, LongestAnswer(answers))
  {
    size := 3;
    var k := 0;
    while k < |answers|
      invariant 0 <= k <= |answers|
      invariant size == Max(MinSize, LongestAnswer(answers[..k]))
    {
      assert answers[..k + 1][..k] == answers[..k];
      if Utf8Length(answers[k]) > size {
        size := Utf8Length(answers[k]);
      }
      k := k + 1;
    }
    assert answers[..k] == answers;
  }

  /** Padding for a blank of the given width. */
  function Padding(size: nat): (r: string)
    ensures |r| == size * |Pad|
    ensures forall k: nat :: k < size ==> BlockIs(r, Pad, k)
    ensures '"' !in r
  {
    RepeatChars(Pad, size, '"');
    forall k: nat | k < size ensures BlockIs(Repeat(Pad, size), Pad, k) {
      RepeatBlock(Pad, size, k);
    }
    Repeat(Pad, size)
  }

  /** A dashed text field showing `value` with width `size`. */
  function TextBlank(value: string, size: nat): string {
    InputHead + value + AfterValue(size)
  }

  /** What follows the value in a blank: the closing quote, the `size` attribute and the style. */
  function AfterValue(size: nat): string {
    SizeHead + NatToString(size) + "\"" + BlankEnd
  }

  /** The `value` attribute of a blank, read back. */
  function BlankValue(b: string): Option<string> {
    if StartsWith(b, InputHead) then
      var rest := b[|InputHead|..];
      match FirstIndex(rest, "\"")
      case Some(k) => Some(rest[..k])
      case None => None
    else None
  }

  /** The `size` attribute of a blank, read back as a number. */
  function BlankSize(b: string): Option<nat> {
    if StartsWith(b, InputHead) then
      var rest := b[|InputHead|..];
      match FirstIndex(rest, "\"")
      case Some(k) => ReadSize(rest[k..])
      case None => None
    else None
  }

  /** Reads `" size="<digits>"` at the start of `after`. */
  function ReadSize(after: string): Option<nat> {
    if StartsWith(after, SizeHead) then
      var digits := after[|SizeHead|..];
      match FirstIndex(digits, "\"")
      case Some(m) =>
        if AllDigits(digits[..m]) then Some(DigitsValue(digits[..m])) else None
      case None => None
    else None
  }

  /** The text after the opening of a blank drawn with `value`. */
  lemma BlankAfterHead(value: string, size: nat)
    ensures StartsWith(TextBlank(value, size), InputHead)
    ensures TextBlank(value, size)[|InputHead|..] == value + AfterValue(size)
  {
    Associate(InputHead, value, AfterValue(size));
    AfterPrefix(InputHead, value + AfterValue(size));
  }

  /** Every character of a decimal rendering is a digit, so none is a quote. */
  lemma NoQuoteInDigits(n: nat)
    ensures '"' !in NatToString(n)
  {
    var d := NatToString(n);
    assert forall i :: 0 <= i < |d| ==> IsDigit(d[i]);
  }

  /** A character absent from `x` is first found where `y` starts with it. */
  lemma FirstIndexAtJoin(x: string, y: string)
    requires |y| > 0 && y[0] !in x
    ensures FirstIndex(x + y, [y[0]]) == Some(|x|)
  {
    var s, t := x + y, [y[0]];
    assert s[|x|..|x| + 1] == t;
    forall j | 0 <= j < |x| ensures !OccursAt(s, t, j) {
      assert s[j..j + 1][0] == x[j];
    }
    FirstIndexIs(s, t, |x|);
  }

  /** After the value, the first quote is the one that closes it. */
  lemma ValueEndsAtQuote(value: string, size: nat)
    requires '"' !in value
    ensures FirstIndex(value + AfterValue(size), "\"") == Some(|value|)
  {
    assert AfterValue(size)[0] == '"';
    FirstIndexAtJoin(value, AfterValue(size));
  }

  /** A blank's `value` attribute reads back as the value it was drawn with. */
  lemma BlankValueRoundTrip(value: string, size: nat)
    requires '"' !in value
    ensures BlankValue(TextBlank(value, size)) == Some(value)
  {
    BlankAfterHead(value, size);
    ValueEndsAtQuote(value, size);
    assert (value + AfterValue(size))[..|value|] == value;
  }

  /** A rendered `size` attribute reads back as its number. */
  lemma ReadSizeRoundTrip(size: nat, tail: string)
    ensures ReadSize(SizeHead + NatToString(size) + "\"" + tail) == Some(size)
  {
    var digits := NatToString(size);
    var rest := digits + ("\"" + tail);
    Reassociate(SizeHead, digits, "\"" + tail);
    AfterPrefix(SizeHead, rest);
    DigitsThenQuote(size, tail);
    ValueOfNatToString(size);
  }

  lemma Reassociate(a: string, b: string, c: string)
    requires |c| > 0
    ensures a + b + [c[0]] + c[1..] == a + (b + c)
  {
    assert [c[0]] + c[1..] == c;
  }

  /** In a rendered number followed by a quote, the first quote ends the digits. */
  lemma DigitsThenQuote(size: nat, tail: string)
    ensures FirstIndex(NatToString(size) + ("\"" + tail), "\"") == Some(|NatToString(size)|)
    ensures (NatToString(size) + ("\"" + tail))[..|NatToString(size)|] == NatToString(size)
  {
    NoQuoteInDigits(size);
    FirstIndexAtJoin(NatToString(size), "\"" + tail);
  }

  /** A blank's `size` attribute reads back as the width it was drawn with. */
  lemma BlankSizeRoundTrip(value: string, size: nat)
    requires '"' !in value
    ensures BlankSize(TextBlank(value, size)) == Some(size)
  {
    BlankAfterHead(value, size);
    ValueEndsAtQuote(value, size);
    assert (value + AfterValue(size))[|value|..] == AfterValue(size);
    ReadSizeRoundTrip(size, BlankEnd);
  }

  /** An empty, padded blank as worksheets print it. */
  function PaddedBlank(size: nat): (b: string)
    ensures BlankValue(b) == Some(Padding(size))
    ensures BlankSize(b) == Some(size)
  {
    BlankValueRoundTrip(Padding(size), size);
    BlankSizeRoundTrip(Padding(size), size);
    TextBlank(Padding(size), size)
  }

  /**
   * `processnumericalquestion`: with at least one answer the question text
   * is wrapped in a paragraph and followed by a paragraph holding one padded
   * blank as wide as the longest answer (at least 3); with no answer the
   * text is left as it is.
   */
  method NumericalQuestion(questionText: string, answers: seq<string>) returns (r: string)
    ensures |answers| == 0 ==> r == questionText
    ensures |answers| > 0 ==>
              exists blank :: r == "<p>" + questionText + "</p>\n<p>" + blank + "</p>\n"
                && BlankValue(blank) == Some(Padding(Max(MinSize, LongestAnswer(answers))))
                && BlankSize(blank) == Some(Max(MinSize, LongestAnswer(answers)))
  {
    if |answers| == 0 {
      return questionText;
    }
    var size := NumericalQuestionSize(answers);
    var blank := PaddedBlank(size);
    r := "<p>" + questionText + "</p>\n<p>" + blank + "</p>\n";
  }
}
