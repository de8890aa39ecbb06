/**
 * The "copy course" dialog (`course/amd/src/copycourse.js`): the number of
 * sections typed into the dialog is accepted when
 * `'' + parseInt(v) === v && parseInt(v) >= 1`, and then the browser goes to
 * the trigger's `href` with `&numsections=` and the number appended.
 *
 * `parseInt` and the number-to-string conversion follow ECMAScript
 * (sections 19.2.5 and 6.1.6.1.20 of ECMA-262) for integers: numbers are
 * unbounded here, and the sign of zero is dropped because `'' + -0` is `"0"`.
 */
module CopyDialog {
  import opened Basics
  import opened Decimal

  /** A JavaScript number as far as `parseInt` can produce one. */
  datatype JsNumber = NaN | Num(value: int)

  /** ECMAScript white space and line terminators, which `parseInt` skips. */
  predicate IsJsSpace(c: char) {
    c in {'\t', '\n', '\U{000B}', '\U{000C}', '\r', ' ', '\U{00A0}', '\U{1680}',
          '\U{2028}', '\U{2029}', '\U{202F}', '\U{205F}', '\U{3000}', '\U{FEFF}'}
    || '\U{2000}' <= c <= '\U{200A}'
  }

  /** The string without its leading white space. */
  function TrimStart(s: string): (r: string)
    ensures |r| <= |s| && r == s[|s| - |r|..]
    ensures |r| > 0 ==> !IsJsSpace(r[0])
    ensures (forall i :: 0 <= i < |s| ==> !IsJsSpace(s[i])) ==> r == s
  {
    if |s| > 0 && IsJsSpace(s[0]) then TrimStart(s[1..]) else s
  }

  predicate IsRadixDigit(c: char, radix: nat) {
    if radix == 16 then IsDigit(c) || 'a' <= c <= 'f' || 'A' <= c <= 'F' else IsDigit(c)
  }

  /** The value of one digit of base 10 or 16. */
  function RadixDigitValue(c: char, radix: nat): (d: nat)
    requires IsRadixDigit(c, radix)
    ensures d < radix || (radix != 16 && d < 10)
  {
    if IsDigit(c) then DigitValue(c)
    else if 'a' <= c <= 'f' then c as int - 'a' as int + 10
    else c as int - 'A' as int + 10
  }

  /** The longest prefix made of digits of the radix. */
  function DigitPrefix(s: string, radix: nat): (r: string)
    ensures |r| <= |s| && r == s[..|r|]
    ensures forall i :: 0 <= i < |r| ==> IsRadixDigit(r[i], radix)
    ensures |r| < |s| ==> !IsRadixDigit(s[|r|], radix)
  {
    if |s| > 0 && IsRadixDigit(s[0], radix) then [s[0]] + DigitPrefix(s[1..], radix) else []
  }

  /** The number a string of digits of the radix denotes. */
  function RadixValue(s: string, radix: nat): nat
    requires forall i :: 0 <= i < |s| ==> IsRadixDigit(s[i], radix)
  {
    if |s| == 0 then 0
    else
      DigitsFront(s, s[..|s| - 1], radix);
      Positional(RadixValue(s[..|s| - 1], radix), radix, RadixDigitValue(s[|s| - 1], radix))
  }

  /** One more digit `d` after the digits worth `high`. */
  function Positional(high: nat, radix: nat, d: nat): (v: nat)
    ensures v == high * radix + d
  {
    NonNegativeProduct(high, radix);
    high * radix + d
  }

  lemma NonNegativeProduct(a: nat, b: nat)
    ensures a * b >= 0
  {
  }

  /** A prefix of digits is digits. */
  lemma DigitsFront(s: string, front: string, radix: nat)
    requires |front| <= |s| && front == s[..|front|]
    requires forall i :: 0 <= i < |s| ==> IsRadixDigit(s[i], radix)
    ensures forall i :: 0 <= i < |front| ==> IsRadixDigit(front[i], radix)
  {
    forall i | 0 <= i < |front| ensures IsRadixDigit(front[i], radix) {
      assert front[i] == s[i];
    }
  }

  /** A leading minus sign. */
  predicate IsNegative(s: string) {
    |s| > 0 && s[0] == '-'
  }

  /** The text after one leading sign, if there is one. */
  function StripSign(s: string): (r: string)
    ensures r == s || (|s| > 0 && r == s[1..])
  {
    if |s| > 0 && (s[0] == '-' || s[0] == '+') then s[1..] else s
  }

  /** A `0x` or `0X` prefix, which makes `parseInt` read base 16. */
  predicate HasHexPrefix(u: string) {
    |u| >= 2 && u[0] == '0' && (u[1] == 'x' || u[1] == 'X')
  }

  function Radix(u: string): nat {
    if HasHexPrefix(u) then 16 else 10
  }

  /** The digits part: the text after a hexadecimal prefix. */
  function Body(u: string): string {
    if HasHexPrefix(u) then u[2..] else u
  }

  /** `parseInt` of the text after the sign: NaN without digits, else their value. */
  function ParseUnsigned(u: string): (n: JsNumber)
    ensures n.Num? ==> n.value >= 0
  {
    var digits := DigitPrefix(Body(u), Radix(u));
    if |digits| == 0 then NaN else Num(RadixValue(digits, Radix(u)))
  }

  /**
   * `parseInt(v)` without a radix: skip leading white space, take one sign,
   * read a `0x`/`0X` prefix as base 16, then the longest run of digits; no
   * digits gives NaN, and trailing text is ignored.
   */
  function ParseInt(v: string): JsNumber {
    var s := TrimStart(v);
    var n := ParseUnsigned(StripSign(s));
    if n.Num? && IsNegative(s) then Num(-n.value) else n
  }

  /** `'' + n`: `"NaN"` or the decimal text of the integer. */
  function NumberToString(n: JsNumber): string {
    match n
    case NaN => "NaN"
    case Num(x) => IntToString(x)
  }

  /** The dialog's test of the typed value. */
  predicate Accepts(v: string) {
    NumberToString(ParseInt(v)) == v && ParseInt(v).Num? && ParseInt(v).value >= 1
  }

  /** Base-10 digit runs have their decimal value. */
  lemma {:induction false} RadixTenIsDecimal(s: string)
    requires AllDigits(s)
    ensures RadixValue(s, 10) == DigitsValue(s)
    decreases |s|
  {
    if |s| > 0 {
      RadixTenIsDecimal(s[..|s| - 1]);
    }
  }

  /** `parseInt` reads back the decimal rendering of every natural number. */
  lemma ParseIntOfRendering(n: nat)
    ensures ParseInt(NatToString(n)) == Num(n)
  {
    var v := NatToString(n);
    DigitsAreNotSpace(v);
    assert IsDigit(v[0]);
    assert StripSign(v) == v && !IsNegative(v);
    if |v| >= 2 {
      assert v[0] != '0';
    }
    assert Body(v) == v && Radix(v) == 10;
    DigitsArePrefix(v);
    RadixTenIsDecimal(v);
    ValueOfNatToString(n);
  }

  /** Leading white space never starts a digit string. */
  lemma DigitsAreNotSpace(v: string)
    requires AllDigits(v)
    ensures TrimStart(v) == v
  {
    forall i | 0 <= i < |v| ensures !IsJsSpace(v[i]) {
      assert IsDigit(v[i]);
    }
  }

  /** A digit string is its own longest decimal digit prefix. */
  lemma DigitsArePrefix(v: string)
    requires AllDigits(v)
    ensures DigitPrefix(v, 10) == v
  {
    var r := DigitPrefix(v, 10);
    if |r| < |v| {
      assert IsRadixDigit(v[|r|], 10);
    }
  }

  /**
   * The dialog accepts exactly the canonical decimal texts of positive
   * integers: no `0`, no sign, no leading zeros, no white space, no
   * trailing text and no hexadecimal.
   */
  lemma AcceptsExactlyPositiveDecimals(v: string)
    ensures Accepts(v) <==> IsCanonical(v) && v[0] != '0'
  {
    if IsCanonical(v) && v[0] != '0' {
      LeadingNonZeroIsPositive(v);
      NatToStringOfValue(v);
      ParseIntOfRendering(DigitsValue(v));
    }
    if Accepts(v) {
      var n := ParseInt(v).value;
      assert v == NatToString(n);
    }
  }

  /**
   * Where the dialog sends the browser: nowhere when the value is refused,
   * otherwise the trigger's link with the typed number appended unchanged.
   */
  function CopyTarget(href: string, v: string): (r: Option<string>)
    ensures r.Some? <==> Accepts(v)
    ensures r.Some? ==> r.value == href + "&numsections=" + v
  {
    var n := ParseInt(v);
    if Accepts(v) then Some(href + "&numsections=" + NumberToString(n)) else None
  }

  /** An element of the dialog's body: its `id` attribute and the text typed into it. */
  datatype Element = Element(id: string, value: string)

  /**
   * The body the dialog shows: a label, which has no `id` (its `for`
   * names `add_section_numsections`), and the input `copyfullnamecourse`
   * holding what the user typed.
   */
  function DialogBody(typed: string): seq<Element> {
    [Element("copyfullnamecourse", typed)]
  }

  /** jQuery `find("#x")`: the elements, in document order, whose `id` is `x`. */
  function FindById(body: seq<Element>, selector: string): (r: seq<Element>)
    ensures forall e :: e in r <==> e in body && "#" + e.id == selector
    ensures |r| <= |body|
  {
    if |body| == 0 then []
    else (if "#" + body[0].id == selector then [body[0]] else []) + FindById(body[1..], selector)
  }

  /** jQuery `.val()`: the first match's value, or `undefined` (`None`) when nothing matched. */
  function Val(found: seq<Element>): Option<string> {
    if |found| == 0 then None else Some(found[0].value)
  }

  /**
   * `parseInt(undefined)` reads the text `undefined` and gives NaN, so the
   * dialog's test compares the text `NaN` with `undefined`, which no
   * string equals strictly.
   */
  lemma UndefinedReadsNaN()
    ensures ParseInt("undefined") == NaN && NumberToString(ParseInt("undefined")) == "NaN"
  {
    assert !IsJsSpace('u');
    assert TrimStart("undefined") == "undefined";
    assert DigitPrefix("undefined", 10) == [];
  }

  /**
   * The test on what `.val()` read: `undefined` is refused (see
   * `UndefinedReadsNaN`), a text exactly when `Accepts` holds.
   */
  predicate AcceptsRead(v: Option<string>) {
    v.Some? && Accepts(v.value)
  }

  /** Where the dialog sends the browser when it reads the element `selector` names. */
  function DialogTarget(href: string, body: seq<Element>, selector: string): (r: Option<string>)
    ensures r.Some? <==> AcceptsRead(Val(FindById(body, selector)))
    ensures r.Some? ==> r.value == href + "&numsections=" + Val(FindById(body, selector)).value
  {
    var v := Val(FindById(body, selector));
    if v.Some? then CopyTarget(href, v.value) else None
  }

  /**
   * The dialog as written looks up `#add_section_numsections`, which no
   * element of its body carries as an `id`: `.val()` is `undefined` and the
   * browser never moves, whatever was typed.
   */
  function CopyTargetAsWritten(href: string, typed: string): (r: Option<string>)
    ensures r == None
  {
    MissesInput(typed);
    DialogTarget(href, DialogBody(typed), "#add_section_numsections")
  }

  /**
   * The dialog reading its own input `#copyfullnamecourse`: the browser
   * moves exactly when the typed value is accepted, to the link with the
   * value appended as typed.
   */
  function CopyTargetCorrected(href: string, typed: string): (r: Option<string>)
    ensures r.Some? <==> Accepts(typed)
    ensures r.Some? ==> r.value == href + "&numsections=" + typed
  {
    FindsInput(typed);
    DialogTarget(href, DialogBody(typed), "#copyfullnamecourse")
  }

  /** Nothing in the body has the id `add_section_numsections`. */
  lemma MissesInput(typed: string)
    ensures Val(FindById(DialogBody(typed), "#add_section_numsections")) == None
  {
    assert "#copyfullnamecourse"[1] != "#add_section_numsections"[1];
  }

  /** Looking up `#copyfullnamecourse` reads what was typed. */
  lemma FindsInput(typed: string)
    ensures Val(FindById(DialogBody(typed), "#copyfullnamecourse")) == Some(typed)
  {
    var body := DialogBody(typed);
    assert "#" + body[0].id == "#copyfullnamecourse" && body[1..] == [];
  }

  /** As written, no typed value moves the browser, not even one the corrected dialog accepts. */
  lemma AsWrittenIgnoresAcceptedValue(href: string)
    ensures CopyTargetCorrected(href, "3") == Some(href + "&numsections=" + "3")
    ensures CopyTargetAsWritten(href, "3") == None
  {
    assert IsCanonical("3") && "3"[0] != '0';
    AcceptsExactlyPositiveDecimals("3");
  }

  /** `parseInt` reads a hexadecimal prefix and stops at the first non-digit. */
  lemma ParseIntReadsHexadecimal()
    ensures ParseInt("0x1Az") == Num(26)
  {
    HexDigitsRead();
    HexTextPlain();
    assert HasHexPrefix("0x1Az") && Body("0x1Az") == "1Az";
  }

  /** `0x1Az` has no white space to skip and no sign. */
  lemma HexTextPlain()
    ensures TrimStart("0x1Az") == "0x1Az"
    ensures StripSign("0x1Az") == "0x1Az" && !IsNegative("0x1Az")
  {
    assert !IsJsSpace('0');
  }

  /** The base-16 digit run of `1Az` is `1A`, worth 26. */
  lemma HexDigitsRead()
    ensures DigitPrefix("1Az", 16) == "1A" && RadixValue("1A", 16) == 26
  {
    assert DigitPrefix("z", 16) == [];
    assert DigitPrefix("Az", 16) == "A";
    assert "1A"[..1] == "1";
    assert RadixValue("1", 16) == 1;
  }

  /** `parseInt` skips leading white space and takes a sign. */
  lemma ParseIntSkipsSpaceAndSign()
    ensures ParseInt(" -7") == Num(-7)
  {
    SpaceSkipped();
    SevenRead();
    assert IsNegative("-7") && StripSign("-7") == "7";
  }

  /** The leading space of ` -7` is skipped and the sign is kept. */
  lemma SpaceSkipped()
    ensures TrimStart(" -7") == "-7"
  {
    assert " -7"[1..] == "-7";
    assert !IsJsSpace('-');
  }

  /** The unsigned text `7` reads as 7. */
  lemma SevenRead()
    ensures ParseUnsigned("7") == Num(7)
  {
    assert !HasHexPrefix("7") && Body("7") == "7";
    assert DigitPrefix("7", 10) == "7";
  }

  /**
   * Anything but digits without a leading zero is refused: the empty text,
   * `0`, leading zeros, white space, a sign, hexadecimal, trailing text.
   */
  lemma RefusedUnlessPlainDigits(v: string)
    requires |v| == 0 || v[0] == '0' || exists i :: 0 <= i < |v| && !IsDigit(v[i])
    ensures !Accepts(v)
  {
    AcceptsExactlyPositiveDecimals(v);
  }
}
