/**
 * The last step of `formatquestiondata` in the solution report: which text
 * a question starts from, which placeholder syntax it uses, and the
 * substitution of the collected replacements into the text.
 */
module Placeholders {
  import opened Basics
  import opened Strings
  import opened PhpArrays

  /** Question types whose text the worksheet cannot show. */
  const NonPrintableTypes: seq<string> := ["coderunner", "ddimageortext", "ddmarker", "pmatch", "regexp"]

  /**
   * A question as `formatquestiondata` sees it: a stored question with its
   * type name, or a question drawn for a random slot, known by its class.
   */
  datatype QuestionKind = Stored(qtype: string) | Drawn(className: string)

  /**
   * `getquestiontext`: a paragraph with the host's "not displayable" notice
   * for the non-printable types, otherwise the question text.  A missing
   * type (`isset` fails) keeps the text.
   */
  function QuestionText(qtype: Option<string>, questionText: string, notice: string -> string): (r: string)
    ensures (qtype.Some? && qtype.value in NonPrintableTypes) ==> r == "<p>" + notice(qtype.value) + "</p>\n"
    ensures !(qtype.Some? && qtype.value in NonPrintableTypes) ==> r == questionText
  {
    if qtype.Some? && qtype.value in NonPrintableTypes then "<p>" + notice(qtype.value) + "</p>\n"
    else questionText
  }

  /** The notice is shown exactly for the five non-printable types. */
  lemma NoticeExactlyForNonPrintable(t: string, questionText: string, notice: string -> string)
    requires questionText != "<p>" + notice(t) + "</p>\n"
    ensures QuestionText(Some(t), questionText, notice) != questionText
            <==> t in {"coderunner", "ddimageortext", "ddmarker", "pmatch", "regexp"}
  {
    assert t in NonPrintableTypes <==> t in {"coderunner", "ddimageortext", "ddmarker", "pmatch", "regexp"};
  }

  /** Gap-select and drag-and-drop-into-text questions write their gaps as `[[n]]`. */
  predicate UsesSquareBrackets(kind: QuestionKind) {
    match kind
    case Stored(t) => t == "gapselect" || t == "ddwtos"
    case Drawn(c) => c == "qtype_gapselect_question" || c == "qtype_ddwtos_question"
  }

  /** A pattern body between `/` delimiters. */
  function Delimited(body: string): string {
    "/" + body + "/"
  }

  /** `placeholders($val)`: the pattern `/\{val}/`. */
  function CurlyPattern(v: string): string {
    Delimited("\\{" + v + "}")
  }

  /** `squareplaceholders($val)`: the pattern `/\[\[val]]/`. */
  function SquarePattern(v: string): string {
    Delimited("\\[\\[" + v + "]]")
  }

  /** The pattern built for a replacement key. */
  function PatternFor(kind: QuestionKind, key: string): string {
    if UsesSquareBrackets(kind) then SquarePattern(key) else CurlyPattern(key)
  }

  /** Characters with a meaning of their own inside a PCRE pattern delimited by `/`. */
  predicate IsRegexMeta(c: char) {
    c in "\\^$.[]|()?*+{}/"
  }

  /** No character of `v` is special to the regular-expression engine. */
  predicate PlainText(v: string) {
    forall i :: 0 <= i < |v| ==> !IsRegexMeta(v[i])
  }

  /** The text a pattern body of literal characters and escaped characters matches. */
  function Unescape(body: string): string {
    if |body| == 0 then ""
    else if body[0] == '\\' && |body| >= 2 then [body[1]] + Unescape(body[2..])
    else [body[0]] + Unescape(body[1..])
  }

  /** The literal text a `/…/` pattern without operators matches, if it is one. */
  function PatternLiteral(pattern: string): Option<string> {
    if |pattern| >= 2 && pattern[0] == '/' && pattern[|pattern| - 1] == '/' then
      Some(Unescape(pattern[1..|pattern| - 1]))
    else None
  }

  lemma {:induction false} UnescapePlain(v: string, rest: string)
    requires PlainText(v)
    ensures Unescape(v + rest) == v + Unescape(rest)
  {
    if |v| > 0 {
      assert !IsRegexMeta(v[0]);
      assert (v + rest)[0] == v[0] && v[0] != '\\';
      assert (v + rest)[1..] == v[1..] + rest;
      assert Unescape(v + rest) == [v[0]] + Unescape(v[1..] + rest);
      assert PlainText(v[1..]) by {
        forall i | 0 <= i < |v[1..]| ensures !IsRegexMeta(v[1..][i]) {
          assert v[1..][i] == v[i + 1];
        }
      }
      UnescapePlain(v[1..], rest);
      assert v == [v[0]] + v[1..];
    } else {
      assert v + rest == rest;
    }
  }

  /** A delimited pattern matches the unescaped text of its body. */
  lemma DelimitedLiteral(body: string)
    ensures PatternLiteral(Delimited(body)) == Some(Unescape(body))
  {
    var p := Delimited(body);
    assert p[1..|p| - 1] == body;
  }

  /** An escaped character stands for itself. */
  lemma UnescapeEscaped(c: char, rest: string)
    ensures Unescape(['\\', c] + rest) == [c] + Unescape(rest)
  {
    var b := ['\\', c] + rest;
    assert b[0] == '\\' && b[1] == c && b[2..] == rest;
  }

  /** `/\{v}/` matches exactly the text `{v}` when `v` is plain. */
  lemma CurlyPatternMatches(v: string)
    requires PlainText(v)
    ensures PatternLiteral(CurlyPattern(v)) == Some("{" + v + "}")
  {
    DelimitedLiteral("\\{" + v + "}");
    CurlyBody(v);
  }

  lemma CurlyBody(v: string)
    requires PlainText(v)
    ensures Unescape("\\{" + v + "}") == "{" + v + "}"
  {
    var x := v + "}";
    Associate("\\{", v, "}");
    assert "\\{" == ['\\', '{'];
    UnescapeEscaped('{', x);
    UnescapePlain(v, "}");
    assert Unescape("}") == "}";
    Associate("{", v, "}");
  }

  /** `/\[\[v]]/` matches exactly the text `[[v]]` when `v` is plain. */
  lemma SquarePatternMatches(v: string)
    requires PlainText(v)
    ensures PatternLiteral(SquarePattern(v)) == Some("[[" + v + "]]")
  {
    DelimitedLiteral("\\[\\[" + v + "]]");
    SquareBody(v);
  }

  lemma SquareBody(v: string)
    requires PlainText(v)
    ensures Unescape("\\[\\[" + v + "]]") == "[[" + v + "]]"
  {
    var x := v + "]]";
    PlainThenBrackets(v);
    NoBackslashUnescapes(x);
    Associate("\\[\\[", v, "]]");
    TwoEscaped('[', '[', x);
    Associate("[[", v, "]]");
  }

  /** Two escaped characters stand for themselves. */
  lemma TwoEscaped(c: char, d: char, rest: string)
    ensures Unescape(['\\', c, '\\', d] + rest) == [c, d] + Unescape(rest)
  {
    UnescapeEscaped(c, ['\\', d] + rest);
    UnescapeEscaped(d, rest);
    assert ['\\', c, '\\', d] + rest == ['\\', c] + (['\\', d] + rest);
  }

  /** Plain text followed by `]]` holds no backslash. */
  lemma PlainThenBrackets(v: string)
    requires PlainText(v)
    ensures '\\' !in v + "]]"
  {
    var x := v + "]]";
    forall i | 0 <= i < |x| ensures x[i] != '\\' {
      if i < |v| {
        assert !IsRegexMeta(v[i]);
      }
    }
  }

  /** Text without a backslash is its own unescaped text. */
  lemma {:induction false} NoBackslashUnescapes(s: string)
    requires '\\' !in s
    ensures Unescape(s) == s
  {
    if |s| > 0 {
      assert s[0] != '\\';
      assert '\\' !in s[1..] by {
        forall i | 0 <= i < |s[1..]| ensures s[1..][i] != '\\' {
          assert s[1..][i] == s[i + 1];
        }
      }
      NoBackslashUnescapes(s[1..]);
      assert s == [s[0]] + s[1..];
    }
  }

  /** The placeholder text a key stands for in the question. */
  function PlaceholderText(kind: QuestionKind, key: string): string {
    if UsesSquareBrackets(kind) then "[[" + key + "]]" else "{" + key + "}"
  }

  /** Every key's pattern matches its placeholder text, in the syntax the question uses. */
  lemma PatternForMatches(kind: QuestionKind, key: string)
    requires PlainText(key)
    ensures PatternLiteral(PatternFor(kind, key)) == Some(PlaceholderText(kind, key))
  {
    if UsesSquareBrackets(kind) {
      SquarePatternMatches(key);
    } else {
      CurlyPatternMatches(key);
    }
  }

  /**
   * `preg_replace` of one operator-free pattern: every non-overlapping match
   * from left to right is replaced.  A pattern that is not of that form
   * leaves the subject alone in this model.
   */
  function ReplaceLiteralPattern(subject: string, pattern: string, value: string): string {
    match PatternLiteral(pattern)
    case Some(lit) => if |lit| > 0 then ReplaceAll(subject, lit, value) else subject
    case None => subject
  }

  /** `preg_replace` with arrays: the pairs are applied one after another, in array order. */
  function ReplacePatterns(subject: string, kind: QuestionKind, replace: Entries<string, string>): string
    decreases |replace|
  {
    if |replace| == 0 then subject
    else ReplacePatterns(ReplaceLiteralPattern(subject, PatternFor(kind, replace[0].0), replace[0].1),
                         kind, replace[1..])
  }

  /** No key's placeholder occurs in `s`, and every key is plain text. */
  predicate PlaceholdersAbsent(s: string, kind: QuestionKind, replace: Entries<string, string>) {
    forall i :: 0 <= i < |replace| ==>
      PlainText(replace[i].0) && !Occurs(s, PlaceholderText(kind, replace[i].0))
  }

  /**
   * The substitution that ends `formatquestiondata`: the annotation is
   * appended to the question text first, so placeholders in it are
   * replaced too.
   */
  function FormattedText(kind: QuestionKind, questionText: string, annotation: string,
                         replace: Entries<string, string>): (r: string)
    ensures PlaceholdersAbsent(questionText + annotation, kind, replace) ==> r == questionText + annotation
    ensures |replace| == 1 && PlainText(replace[0].0) ==>
              r == ReplaceAll(questionText + annotation, PlaceholderText(kind, replace[0].0), replace[0].1)
  {
    NoPlaceholderNoChange(questionText + annotation, kind, replace);
    SingleKey(kind, questionText + annotation, replace);
    ReplacePatterns(questionText + annotation, kind, replace)
  }

  /** With one plain key, the substitution is `str_replace` of its placeholder. */
  lemma SingleKey(kind: QuestionKind, s: string, replace: Entries<string, string>)
    ensures |replace| == 1 && PlainText(replace[0].0) ==>
              ReplacePatterns(s, kind, replace) == ReplaceAll(s, PlaceholderText(kind, replace[0].0), replace[0].1)
  {
    if |replace| == 1 && PlainText(replace[0].0) {
      assert replace == [(replace[0].0, replace[0].1)];
      OneReplacement(kind, s, replace[0].0, replace[0].1);
    }
  }

  /**
   * A placeholder that only the annotation holds is replaced as well: the
   * annotation is appended before the substitution.
   */
  lemma AnnotationPlaceholderReplaced(kind: QuestionKind, key: string, value: string)
    requires PlainText(key)
    ensures FormattedText(kind, "", PlaceholderText(kind, key), [(key, value)]) == value
  {
    var p := PlaceholderText(kind, key);
    assert |p| > 0;
    assert "" + p == p + "";
    ReplaceAtStart(p, "", value);
  }

  /** A text that mentions none of the keys' placeholders comes out unchanged. */
  lemma {:induction false} NoPlaceholderNoChange(s: string, kind: QuestionKind, replace: Entries<string, string>)
    ensures PlaceholdersAbsent(s, kind, replace) ==> ReplacePatterns(s, kind, replace) == s
    decreases |replace|
  {
    if |replace| > 0 && PlaceholdersAbsent(s, kind, replace) {
      var key := replace[0].0;
      PatternForMatches(kind, key);
      ReplaceWithoutOccurrence(s, PlaceholderText(kind, key), replace[0].1);
      assert ReplaceLiteralPattern(s, PatternFor(kind, key), replace[0].1) == s;
      assert forall i :: 0 <= i < |replace[1..]| ==> replace[1..][i] == replace[i + 1];
      NoPlaceholderNoChange(s, kind, replace[1..]);
    }
  }

  /**
   * A single replacement rewrites every placeholder of its key, in the
   * syntax the question uses.
   */
  lemma OneReplacement(kind: QuestionKind, s: string, key: string, value: string)
    requires PlainText(key)
    ensures ReplacePatterns(s, kind, [(key, value)]) == ReplaceAll(s, PlaceholderText(kind, key), value)
  {
    PatternForMatches(kind, key);
  }
}
