/**
 * The essay question's word count: the HTML box of
 * `qtype_essay_format_wordcount` (question/type/essay/locallib.php) and the
 * AJAX endpoint question/type/essay/wc.ajax.php, which counts the words
 * and characters of every posted answer field.
 *
 * `count_words`, `count_letters`, the language strings and the JSON string
 * encoder are host services and are parameters here.
 */
module EssayWordcount {
  import opened Decimal
  import opened PhpArrays
  import opened Strings

  // ---------------------------------------------------------------------
  // The word-count box.
  // ---------------------------------------------------------------------

  /** How a count compares with its limit. */
  datatype Limit = UnderLimit | OverLimit

  /** A count equal to its limit is still under it. */
  function Classify(count: nat, limit: int): (c: Limit)
    ensures c == UnderLimit <==> count <= limit
  {
    if count <= limit then UnderLimit else OverLimit
  }

  /**
   * The start of a span: its class attribute (`wordcount underlimit` or
   * `wordcount overlimit`) and the check mark or cross shown before the
   * caption.
   */
  function SpanStart(c: Limit): string {
    if c == UnderLimit then UnderHead else OverHead
  }

  const UnderHead := "<span class=\"wordcount underlimit\">✓"
  const OverHead := "<span class=\"wordcount overlimit\">×"

  /** One span: start, caption, `: `, the count, ` / ` and the limit. */
  function CountSpan(count: nat, limit: int, caption: string): string {
    SpanStart(Classify(count, limit)) + SpanRest(count, limit, caption)
  }

  /** What follows a span's start: caption, `: `, the count, ` / `, the limit and the closing tag. */
  function SpanRest(count: nat, limit: int, caption: string): string {
    caption + ": " + NatToString(count) + " / " + IntToString(limit) + "</span>"
  }

  /** The opening tag of the box, whose id is the given id with `_wordcount`. */
  function DivHead(id: string): string {
    "<div class=\"wordcount\" name=\"wordcount\" id=\"" + id + "_wordcount\">"
  }

  /**
   * `qtype_essay_format_wordcount`: the box holding the character span,
   * `, ` and the word span.  `characters` and `words` are the host's
   * `count_letters($text)` and `count_words($text)`.
   */
  function FormatWordcount(id: string, charlimit: int, wordlimit: int, characters: nat, words: nat,
                           charsLabel: string, wordsLabel: string): (r: string)
    ensures StartsAt(r, 0, DivHead(id))
  {
    BoxHead(id, CountSpan(characters, charlimit, charsLabel), CountSpan(words, wordlimit, wordsLabel));
    Box(id, CountSpan(characters, charlimit, charsLabel), CountSpan(words, wordlimit, wordsLabel))
  }

  /** The box around a character span and a word span. */
  function Box(id: string, chars: string, words: string): string {
    DivHead(id) + chars + ", " + words + "</div>"
  }

  /** `piece` occurs in `r` at offset `k`. */
  predicate StartsAt(r: string, k: nat, piece: string) {
    k + |piece| <= |r| && r[k..k + |piece|] == piece
  }

  /** The two span starts part at the first letter of the class name. */
  lemma StartsDiffer(s: string)
    requires |UnderHead| <= |s| && s[..|OverHead|] == OverHead
    ensures s[..|UnderHead|] != UnderHead
  {
    assert s[..|OverHead|][23] == 'o';
    assert s[..|UnderHead|][23] == s[23];
  }

  /** A span starts with the under-limit start exactly when the count is within the limit. */
  lemma SpanHead(count: nat, limit: int, caption: string)
    ensures var s := CountSpan(count, limit, caption);
      |UnderHead| <= |s| && (s[..|UnderHead|] == UnderHead <==> count <= limit)
  {
    var s := CountSpan(count, limit, caption);
    var rest := SpanRest(count, limit, caption);
    AfterPrefix(SpanStart(Classify(count, limit)), rest);
    assert |rest| >= |"</span>"|;
    if count > limit {
      StartsDiffer(s);
    }
  }

  /**
   * The character span comes first, right after the opening tag, and starts
   * with the under-limit class and a check mark exactly when the character
   * count is within its limit.
   */
  lemma CharsSpanFirst(id: string, charlimit: int, wordlimit: int, characters: nat, words: nat,
                       charsLabel: string, wordsLabel: string)
    ensures StartsAt(FormatWordcount(id, charlimit, wordlimit, characters, words, charsLabel, wordsLabel),
                     |DivHead(id)|, CountSpan(characters, charlimit, charsLabel))
    ensures characters <= charlimit <==>
              StartsAt(FormatWordcount(id, charlimit, wordlimit, characters, words, charsLabel, wordsLabel),
                       |DivHead(id)|, UnderHead)
  {
    SpanHead(characters, charlimit, charsLabel);
    FirstSpanInBox(id, CountSpan(characters, charlimit, charsLabel), CountSpan(words, wordlimit, wordsLabel));
  }

  /** A box starts with its opening tag. */
  lemma BoxHead(id: string, chars: string, words: string)
    ensures StartsAt(Box(id, chars, words), 0, DivHead(id))
  {
    var h := DivHead(id);
    Associate(h, chars, ", ");
    Associate(h, chars + ", ", words);
    Associate(h, chars + ", " + words, "</div>");
    AfterPrefix(h, chars + ", " + words + "</div>");
  }

  /** In a box, the character span comes right after the opening tag. */
  lemma FirstSpanInBox(id: string, chars: string, words: string)
    requires |UnderHead| <= |chars|
    ensures StartsAt(Box(id, chars, words), |DivHead(id)|, chars)
    ensures StartsAt(Box(id, chars, words), |DivHead(id)|, UnderHead) <==> chars[..|UnderHead|] == UnderHead
  {
    var h := DivHead(id);
    Associate(h + chars, ", ", words);
    Associate(h + chars, ", " + words, "</div>");
    PieceStarts(h, chars, ", " + words + "</div>");
  }

  /** A piece of a concatenation, and its start, found at its offset. */
  lemma PieceStarts(a: string, b: string, rest: string)
    requires |UnderHead| <= |b|
    ensures StartsAt(a + b + rest, |a|, b)
    ensures StartsAt(a + b + rest, |a|, UnderHead) <==> b[..|UnderHead|] == UnderHead
  {
    PieceAt(a, b, rest, |b|);
    PieceAt(a, b, rest, |UnderHead|);
  }

  /**
   * The word span follows the character span after `, `, and starts with
   * the under-limit class and a check mark exactly when the word count is
   * within its limit.
   */
  lemma WordsSpanSecond(id: string, charlimit: int, wordlimit: int, characters: nat, words: nat,
                        charsLabel: string, wordsLabel: string)
    ensures StartsAt(FormatWordcount(id, charlimit, wordlimit, characters, words, charsLabel, wordsLabel),
                     |DivHead(id)| + |CountSpan(characters, charlimit, charsLabel)|, ", ")
    ensures words <= wordlimit <==>
              StartsAt(FormatWordcount(id, charlimit, wordlimit, characters, words, charsLabel, wordsLabel),
                       |DivHead(id)| + |CountSpan(characters, charlimit, charsLabel)| + 2, UnderHead)
  {
    SpanHead(words, wordlimit, wordsLabel);
    SecondSpanInBox(id, CountSpan(characters, charlimit, charsLabel), CountSpan(words, wordlimit, wordsLabel));
  }

  /** In a box, `, ` and then the word span follow the character span. */
  lemma SecondSpanInBox(id: string, chars: string, words: string)
    requires |UnderHead| <= |words|
    ensures StartsAt(Box(id, chars, words), |DivHead(id)| + |chars|, ", ")
    ensures StartsAt(Box(id, chars, words), |DivHead(id)| + |chars| + 2, UnderHead) <==> words[..|UnderHead|] == UnderHead
  {
    SecondPiece(DivHead(id) + chars, words);
  }

  /** The separator and the second span's start, found after the first part. */
  lemma SecondPiece(a: string, b: string)
    requires |UnderHead| <= |b|
    ensures StartsAt(a + ", " + b + "</div>", |a|, ", ")
    ensures StartsAt(a + ", " + b + "</div>", |a| + 2, UnderHead) <==> b[..|UnderHead|] == UnderHead
  {
    assert a + ", " + b + "</div>" == a + ", " + (b + "</div>");
    PieceAt(a, ", ", b + "</div>", 2);
    PieceAt(a + ", ", b, "</div>", |UnderHead|);
  }

  /** A piece of a concatenation, read back at its offset. */
  lemma PieceAt(a: string, b: string, rest: string, n: nat)
    requires n <= |b|
    ensures (a + b + rest)[|a|..|a| + n] == b[..n]
  {
    assert forall k :: 0 <= k < n ==> (a + b + rest)[|a| + k] == b[k];
  }

  // ---------------------------------------------------------------------
  // The AJAX endpoint.
  // ---------------------------------------------------------------------

  /** No line break in `key[lo..hi]`: what `.*` may match. */
  ghost predicate NoNewline(key: string, lo: int, hi: int) {
    forall k :: lo <= k < hi && 0 <= k < |key| ==> key[k] != '\n'
  }

  /** A `q` somewhere before position `j` on the same line. */
  ghost predicate QBefore(key: string, j: int) {
    exists i :: 0 <= i < j && i < |key| && key[i] == 'q' && NoNewline(key, i + 1, j)
  }

  /**
   * The key matches the unanchored pattern `/q.*_answer/`: some `_answer`
   * is preceded by a `q` on the same line.
   */
  ghost predicate AnswerKey(key: string) {
    exists j :: 0 <= j && j + 7 <= |key| && key[j..j + 7] == "_answer" && QBefore(key, j)
  }

  lemma QBeforeStep(key: string, j: nat)
    requires j < |key|
    ensures QBefore(key, j + 1) <==> key[j] == 'q' || (key[j] != '\n' && QBefore(key, j))
  {
    if key[j] == 'q' {
      assert NoNewline(key, j + 1, j + 1);
    } else if key[j] != '\n' && QBefore(key, j) {
      var i :| 0 <= i < j && i < |key| && key[i] == 'q' && NoNewline(key, i + 1, j);
      assert NoNewline(key, i + 1, j + 1);
    }
    if QBefore(key, j + 1) && key[j] != 'q' {
      var i :| 0 <= i < j + 1 && i < |key| && key[i] == 'q' && NoNewline(key, i + 1, j + 1);
      assert i < j;
      assert NoNewline(key, i + 1, j);
    }
  }

  /** `preg_grep('/q.*_answer/', array($key))` is not empty: a left-to-right scan. */
  method MatchesAnswerKey(key: string) returns (b: bool)
    ensures b <==> AnswerKey(key)
  {
    var seenQ := false;
    var j := 0;
    while j < |key|
      invariant 0 <= j <= |key|
      invariant seenQ <==> QBefore(key, j)
      invariant forall j' :: 0 <= j' < j && j' + 7 <= |key| && key[j'..j' + 7] == "_answer" ==> !QBefore(key, j')
    {
      if seenQ && j + 7 <= |key| && key[j..j + 7] == "_answer" {
        return true;
      }
      QBeforeStep(key, j);
      seenQ := key[j] == 'q' || (key[j] != '\n' && seenQ);
      j := j + 1;
    }
    return false;
  }

  /** The counts reported for one answer. */
  datatype Counts = Counts(words: nat, characters: nat)

  /** The answer fields of the POST data with their counts, in POST order. */
  ghost function AnswerCounts(post: Entries<string, string>, countWords: string -> nat,
                              countLetters: string -> nat): (r: Entries<string, Counts>)
    ensures |r| <= |post|
  {
    if |post| == 0 then []
    else
      var front := AnswerCounts(post[..|post| - 1], countWords, countLetters);
      var (k, v) := post[|post| - 1];
      if AnswerKey(k) then front + [(k, Counts(countWords(v), countLetters(v)))] else front
  }

  /** The entry reported for one POST field. */
  function Reported(e: (string, string), countWords: string -> nat, countLetters: string -> nat): (string, Counts) {
    (e.0, Counts(countWords(e.1), countLetters(e.1)))
  }

  /** Every answer field is reported, with the counts of its own value. */
  lemma {:induction false} AnswerCountsComplete(post: Entries<string, string>, countWords: string -> nat,
                                                countLetters: string -> nat)
    ensures forall i :: 0 <= i < |post| && AnswerKey(post[i].0) ==>
              Reported(post[i], countWords, countLetters) in AnswerCounts(post, countWords, countLetters)
  {
    if |post| > 0 {
      var front := post[..|post| - 1];
      AnswerCountsComplete(front, countWords, countLetters);
      var r := AnswerCounts(post, countWords, countLetters);
      var rf := AnswerCounts(front, countWords, countLetters);
      assert forall x :: x in rf ==> x in r;
      assert forall i :: 0 <= i < |front| ==> post[i] == front[i];
    }
  }

  /** Every reported entry is an answer field of the POST data with its own counts. */
  lemma {:induction false} AnswerCountsSound(post: Entries<string, string>, countWords: string -> nat,
                                             countLetters: string -> nat)
    ensures forall x :: x in AnswerCounts(post, countWords, countLetters) ==>
              AnswerKey(x.0) && exists i :: 0 <= i < |post| && x == Reported(post[i], countWords, countLetters)
  {
    if |post| > 0 {
      var front := post[..|post| - 1];
      AnswerCountsSound(front, countWords, countLetters);
      assert forall i :: 0 <= i < |front| ==> post[i] == front[i];
    }
  }

  /**
   * The reported keys keep the POST order: they are the POST keys at
   * strictly increasing positions.
   */
  lemma {:induction false} AnswerCountsInOrder(post: Entries<string, string>, countWords: string -> nat,
                                               countLetters: string -> nat) returns (idx: seq<nat>)
    ensures var r := AnswerCounts(post, countWords, countLetters);
      && |idx| == |r|
      && (forall m :: 0 <= m < |idx| ==> idx[m] < |post| && r[m].0 == post[idx[m]].0)
      && (forall m, n :: 0 <= m < n < |idx| ==> idx[m] < idx[n])
  {
    if |post| == 0 {
      idx := [];
    } else {
      var front := post[..|post| - 1];
      var fi := AnswerCountsInOrder(front, countWords, countLetters);
      var rf := AnswerCounts(front, countWords, countLetters);
      var r := AnswerCounts(post, countWords, countLetters);
      assert forall m :: 0 <= m < |fi| ==> post[fi[m]] == front[fi[m]];
      if AnswerKey(post[|post| - 1].0) {
        idx := fi + [|post| - 1];
        assert forall m :: 0 <= m < |fi| ==> r[m] == rf[m];
      } else {
        idx := fi;
      }
    }
  }

  /** With distinct POST keys (a PHP array), the reported keys are distinct too. */
  lemma AnswerCountsDistinct(post: Entries<string, string>, countWords: string -> nat,
                             countLetters: string -> nat)
    requires DistinctKeys(post)
    ensures DistinctKeys(AnswerCounts(post, countWords, countLetters))
  {
    var r := AnswerCounts(post, countWords, countLetters);
    var idx := AnswerCountsInOrder(post, countWords, countLetters);
    forall m, n | 0 <= m < n < |r| ensures r[m].0 != r[n].0 {
      assert idx[m] < idx[n];
    }
  }

  /** The loop of wc.ajax.php over `$_POST`. */
  method WordCounts(post: Entries<string, string>, countWords: string -> nat, countLetters: string -> nat)
    returns (res: Entries<string, Counts>)
    ensures res == AnswerCounts(post, countWords, countLetters)
    ensures |post| == 0 ==> res == []
  {
    res := [];
    var i := 0;
    while i < |post|
      invariant 0 <= i <= |post|
      invariant res == AnswerCounts(post[..i], countWords, countLetters)
    {
      var (key, value) := post[i];
      var matches := MatchesAnswerKey(key);
      assert post[..i + 1][..i] == post[..i];
      if matches {
        res := res + [(key, Counts(countWords(value), countLetters(value)))];
      }
      i := i + 1;
    }
    assert post[..i] == post;
  }

  /** One reported field: `"key":{"words":n,"characters":m}`. */
  function JsonMember(e: (string, Counts), encodeString: string -> string): string {
    encodeString(e.0) + ":{\"words\":" + NatToString(e.1.words) + ",\"characters\":"
      + NatToString(e.1.characters) + "}"
  }

  function JsonMembers(res: Entries<string, Counts>, encodeString: string -> string): string {
    if |res| == 0 then ""
    else if |res| == 1 then JsonMember(res[0], encodeString)
    else JsonMember(res[0], encodeString) + "," + JsonMembers(res[1..], encodeString)
  }

  /**
   * `json_encode($res)`: an empty PHP array encodes as the empty list `[]`;
   * otherwise the keys (which contain `q`, so never form a list) give an
   * object.
   */
  function JsonResult(res: Entries<string, Counts>, encodeString: string -> string): (r: string)
    ensures r == "[]" <==> |res| == 0
    ensures |res| > 0 ==> |r| >= 2 && r[0] == '{' && r[|r| - 1] == '}'
  {
    if |res| == 0 then "[]" else "{" + JsonMembers(res, encodeString) + "}"
  }

  /** The endpoint's reply to a POST. */
  method Reply(post: Entries<string, string>, countWords: string -> nat, countLetters: string -> nat,
               encodeString: string -> string) returns (body: string)
    ensures body == JsonResult(AnswerCounts(post, countWords, countLetters), encodeString)
    ensures |post| == 0 ==> body == "[]"
    ensures body == "[]" <==> forall i :: 0 <= i < |post| ==> !AnswerKey(post[i].0)
  {
    var res := WordCounts(post, countWords, countLetters);
    AnswerCountsComplete(post, countWords, countLetters);
    AnswerCountsSound(post, countWords, countLetters);
    body := JsonResult(res, encodeString);
  }
}
