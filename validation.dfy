/** Validation of a proposed participant: `dataInputInvalid`, `dateIsValid`
    and the two regular expressions `LETTERS_ONLY` and `CORRECT_DATE_FORMAT`,
    written as predicates on characters. */
module Validation {
  import opened Wrappers
  import opened Strings
  import opened DateMath

  predicate IsAsciiLetter(c: char) {
    'A' <= c <= 'Z' || 'a' <= c <= 'z'
  }

  /** The characters the regular-expression class `\s` matches: ECMAScript
      white space and line terminators. */
  predicate IsWhitespace(c: char) {
    c == '\t' || c == '\n' || c == '\U{000B}' || c == '\U{000C}' || c == '\r' || c == ' '
    || c == '\U{00A0}' || c == '\U{1680}' || ('\U{2000}' <= c <= '\U{200A}')
    || c == '\U{2028}' || c == '\U{2029}' || c == '\U{202F}' || c == '\U{205F}'
    || c == '\U{3000}' || c == '\U{FEFF}'
  }

  /** `LETTERS_ONLY.test(name)`, for `/^[A-Za-z\s]{2,26}$/`. */
  predicate LettersOnly(name: string) {
    2 <= |name| <= 26 && forall k :: 0 <= k < |name| ==> IsAsciiLetter(name[k]) || IsWhitespace(name[k])
  }

  /** `CORRECT_DATE_FORMAT.test(text)`, for `/^\d{2}-\d{2}-\d{4}$/`. */
  predicate CorrectDateFormat(text: string) {
    |text| == 10
    && IsDigit(text[0]) && IsDigit(text[1]) && text[2] == '-'
    && IsDigit(text[3]) && IsDigit(text[4]) && text[5] == '-'
    && IsDigit(text[6]) && IsDigit(text[7]) && IsDigit(text[8]) && IsDigit(text[9])
  }

  /** `new Date(s)` for the ISO date-only form `yyyy-mm-dd`: some date when
      the fields name a real calendar date, none (an invalid date) otherwise.
      Other forms of the ISO format are never produced by the caller. */
  function ParseIso(s: string): (r: Option<Date>)
    ensures r.Some? ==> ValidDate(r.value)
  {
    if |s| == 10 && AllDigits(s[..4]) && s[4] == '-' && AllDigits(s[5..7]) && s[7] == '-' && AllDigits(s[8..]) then
      var dt := Date(DigitsValue(s[..4]), DigitsValue(s[5..7]), DigitsValue(s[8..]));
      if ValidDate(dt) then Some(dt) else None
    else
      None
  }

  /** `new Date(text.split("-").reverse().join("-"))` on a `dd-mm-yyyy` text. */
  function ParseDate(text: string): Option<Date> {
    ParseIso(ReverseParts(text))
  }

  /** `dateIsValid`: the format check, then the parse. */
  predicate DateIsValid(text: string) {
    CorrectDateFormat(text) && ParseDate(text).Some?
  }

  datatype InputCheck = InvalidName | InvalidDate | Ok

  /** `dataInputInvalid`: the name is checked first, the date only after it. */
  function DataInputInvalid(name: string, birthdate: string): (r: InputCheck)
    ensures r == InvalidName <==> !LettersOnly(name)
    ensures r == InvalidDate <==> LettersOnly(name) && !DateIsValid(birthdate)
    ensures r == Ok <==> LettersOnly(name) && DateIsValid(birthdate)
  {
    if !LettersOnly(name) then InvalidName
    else if !DateIsValid(birthdate) then InvalidDate
    else Ok
  }

  /** The day, month and year fields of a well-formed `dd-mm-yyyy` text. */
  function Fields(text: string): Date
    requires CorrectDateFormat(text)
  {
    Date(DigitsValue(text[6..]), DigitsValue(text[3..5]), DigitsValue(text[..2]))
  }

  /** A well-formed text is reordered to `yyyy-mm-dd`, and it parses exactly
      when its fields name a real date. */
  lemma ParseOfWellFormed(text: string)
    requires CorrectDateFormat(text)
    ensures ReverseParts(text) == text[6..] + "-" + text[3..5] + "-" + text[..2]
    ensures ParseDate(text) == if ValidDate(Fields(text)) then Some(Fields(text)) else None
    ensures DateIsValid(text) <==> ValidDate(Fields(text))
  {
    var d, m, y := text[..2], text[3..5], text[6..];
    assert text == d + "-" + m + "-" + y;
    assert AllDigits(d) && AllDigits(m) && AllDigits(y);
    ReversePartsOfThree(d, m, y);
    var iso := y + "-" + m + "-" + d;
    assert iso[..4] == y && iso[5..7] == m && iso[8..] == d;
  }

  /** Every date the calculator displays is accepted by the validator and
      parses back to the same date. */
  lemma DisplayDateAccepted(dt: Date)
    requires ValidDate(dt) && 0 <= dt.year <= 9999
    ensures CorrectDateFormat(DisplayDate(dt))
    ensures DateIsValid(DisplayDate(dt))
    ensures ParseDate(DisplayDate(dt)) == Some(dt)
  {
    var text := DisplayDate(dt);
    var d, m, y := Digits(dt.day, 2), Digits(dt.month, 2), Digits(dt.year, 4);
    assert text[..2] == d && text[3..5] == m && text[6..] == y;
    DigitsValueOfDigits(dt.day, 2);
    DigitsValueOfDigits(dt.month, 2);
    DigitsValueOfDigits(dt.year, 4);
    ParseOfWellFormed(text);
  }

  /** Every accepted text is the display form of the date it parses to. */
  lemma AcceptedIsDisplayed(text: string)
    requires DateIsValid(text)
    ensures ParseDate(text).Some? && 0 <= ParseDate(text).value.year <= 9999
    ensures DisplayDate(ParseDate(text).value) == text
  {
    ParseOfWellFormed(text);
    FieldsDisplayed(text);
  }

  lemma FieldsDisplayed(text: string)
    requires CorrectDateFormat(text) && ValidDate(Fields(text))
    ensures 0 <= Fields(text).year <= 9999
    ensures DisplayDate(Fields(text)) == text
  {
    var d, m, y := text[..2], text[3..5], text[6..];
    assert AllDigits(d) && AllDigits(m) && AllDigits(y);
    assert text == d + "-" + m + "-" + y;
    PartsDisplayed(d, m, y);
  }

  lemma PartsDisplayed(d: string, m: string, y: string)
    requires |d| == 2 && |m| == 2 && |y| == 4 && AllDigits(d) && AllDigits(m) && AllDigits(y)
    requires ValidDate(Date(DigitsValue(y), DigitsValue(m), DigitsValue(d)))
    ensures 0 <= DigitsValue(y) <= 9999
    ensures DisplayDate(Date(DigitsValue(y), DigitsValue(m), DigitsValue(d))) == d + "-" + m + "-" + y
  {
    DigitsOfDigitsValue(d);
    DigitsOfDigitsValue(m);
    DigitsOfDigitsValue(y);
    DigitsBound(y);
  }

  lemma {:induction false} DigitsBound(s: string)
    requires AllDigits(s)
    ensures DigitsValue(s) < Pow10(|s|)
    decreases |s|
  {
    if |s| > 0 {
      DigitsBound(s[..|s| - 1]);
    }
  }

  /** A name with a digit in it, or of fewer than 2 or more than 26
      characters, is refused whatever the date. */
  lemma NameRefused(name: string, birthdate: string)
    requires |name| < 2 || |name| > 26 || exists k :: 0 <= k < |name| && IsDigit(name[k])
    ensures DataInputInvalid(name, birthdate) == InvalidName
  {
  }

  /** `01-01-2000` is accepted. */
  lemma AcceptedExample()
    ensures DateIsValid("01-01-2000")
  {
    TwoDigits("01");
    FourDigits("2000");
    SpelledOut("01-01-2000", "01", "01", "2000");
  }

  /** `31-02-2020` is well-formed but refused: February has no 31st. */
  lemma RefusedDay()
    ensures CorrectDateFormat("31-02-2020") && !DateIsValid("31-02-2020")
  {
    TwoDigits("31");
    TwoDigits("02");
    assert DigitsValue("31") == 31 && DigitsValue("02") == 2;
    FebruaryShort(DigitsValue("2020"));
    SpelledOut("31-02-2020", "31", "02", "2020");
  }

  lemma FebruaryShort(y: int)
    ensures !ValidDate(Date(y, 2, 31))
  {
  }

  /** `30-13-1990` is well-formed but refused: there is no 13th month. */
  lemma RefusedMonth()
    ensures CorrectDateFormat("30-13-1990") && !DateIsValid("30-13-1990")
  {
    TwoDigits("13");
    SpelledOut("30-13-1990", "30", "13", "1990");
  }

  lemma SpelledOut(text: string, d: string, m: string, y: string)
    requires text == d + "-" + m + "-" + y
    requires |d| == 2 && |m| == 2 && |y| == 4 && AllDigits(d) && AllDigits(m) && AllDigits(y)
    ensures CorrectDateFormat(text)
    ensures DateIsValid(text) <==> ValidDate(Date(DigitsValue(y), DigitsValue(m), DigitsValue(d)))
  {
    ExampleFields(d, m, y);
  }

  lemma ExampleFields(d: string, m: string, y: string)
    requires |d| == 2 && |m| == 2 && |y| == 4 && AllDigits(d) && AllDigits(m) && AllDigits(y)
    ensures CorrectDateFormat(d + "-" + m + "-" + y)
    ensures DateIsValid(d + "-" + m + "-" + y) <==> ValidDate(Date(DigitsValue(y), DigitsValue(m), DigitsValue(d)))
  {
    var t := d + "-" + m + "-" + y;
    assert t[..2] == d && t[3..5] == m && t[6..] == y;
    ParseOfWellFormed(t);
  }

  lemma TwoDigits(s: string)
    requires |s| == 2 && AllDigits(s)
    ensures DigitsValue(s) == 10 * (s[0] as int - '0' as int) + (s[1] as int - '0' as int)
  {
    var first := s[..1];
    assert first[..0] == [];
    assert DigitsValue(first) == s[0] as int - '0' as int;
    assert s[..|s| - 1] == first;
  }

  lemma FourDigits(s: string)
    requires |s| == 4 && AllDigits(s)
    ensures DigitsValue(s) == 1000 * (s[0] as int - '0' as int) + 100 * (s[1] as int - '0' as int)
                              + 10 * (s[2] as int - '0' as int) + (s[3] as int - '0' as int)
  {
    assert s[..3][..2] == s[..2];
    TwoDigits(s[..2]);
  }
}
