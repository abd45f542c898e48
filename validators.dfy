/**
 * The three validators: a phone number is nine ASCII digits, a birthday is a
 * day-month-year accepted by `strptime(value, "%d-%m-%Y")`, and an email is
 * either absent or accepted by the email pattern.
 */
module Validators {
  import opened Base
  import opened Calendar

  predicate IsDigit(c: char)
  {
    '0' <= c <= '9'
  }

  /** Every character is an ASCII digit (true of the empty string). */
  predicate DigitsOnly(s: string)
  {
    forall i :: 0 <= i < |s| ==> IsDigit(s[i])
  }

  /** `str.isdigit()` over ASCII: at least one character, all of them digits. */
  predicate IsDigitString(s: string)
  {
    |s| > 0 && DigitsOnly(s)
  }

  /** PhoneValidator.validate on a `str`: the digit test runs before the length test. */
  function CheckPhone(s: string): (r: Outcome)
    ensures r == Ok || r == Raised(NotDigits) || r == Raised(WrongLength)
    ensures r == Raised(WrongLength) ==> forall i :: 0 <= i < |s| ==> '0' <= s[i] <= '9'
  {
    if !IsDigitString(s) then Raised(NotDigits)
    else if |s| != 9 then Raised(WrongLength)
    else Ok
  }

  /** A phone number CheckPhone accepts: exactly nine characters, each a digit. */
  predicate IsPhoneNumber(s: string)
  {
    |s| == 9 && forall i :: 0 <= i < |s| ==> '0' <= s[i] <= '9'
  }

  lemma PhoneAcceptsExactlyNineDigits(s: string)
    ensures CheckPhone(s) == Ok <==> IsPhoneNumber(s)
  {
  }

  /** A string failing both tests, the empty string among them, reports the digit error. */
  lemma PhoneDigitTestFirst(s: string)
    requires |s| != 9
    requires s == [] || exists i :: 0 <= i < |s| && !IsDigit(s[i])
    ensures CheckPhone(s) == Raised(NotDigits)
  {
  }

  // ---------------------------------------------------------------- dates

  function DigitValue(c: char): (n: int)
    requires IsDigit(c)
    ensures 0 <= n <= 9
  {
    c as int - '0' as int
  }

  /** The decimal number a digit string denotes (`int()` on ASCII digits). */
  function Number(s: string): (n: nat)
    requires DigitsOnly(s)
  {
    if s == [] then 0 else Number(s[..|s| - 1]) * 10 + DigitValue(s[|s| - 1])
  }

  lemma NumberOfTwo(s: string)
    requires |s| == 2 && DigitsOnly(s)
    ensures Number(s) == DigitValue(s[0]) * 10 + DigitValue(s[1])
  {
    assert s[..1][..0] == [] && s[..1][0] == s[0];
    assert Number(s[..1]) == DigitValue(s[0]);
  }

  lemma NumberOfFour(s: string)
    requires |s| == 4 && DigitsOnly(s)
    ensures Number(s) == ((DigitValue(s[0]) * 10 + DigitValue(s[1])) * 10 + DigitValue(s[2])) * 10 + DigitValue(s[3])
  {
    assert s[..3][..2] == s[..2];
    NumberOfTwo(s[..2]);
  }

  /**
   * `s` has the shape D-M-Y with a day field of `dl` digits, a month field of
   * `ml` digits and a year field of four digits, the forms strptime's `%d`,
   * `%m` and `%Y` take.
   */
  predicate Fits(s: string, dl: nat, ml: nat)
  {
    |s| == dl + ml + 6 && s[dl] == '-' && s[dl + ml + 1] == '-'
    && DigitsOnly(s[..dl]) && DigitsOnly(s[dl + 1..dl + 1 + ml]) && DigitsOnly(s[dl + ml + 2..])
  }

  /** The (year, month, day) triple read from the three fields of a D-M-Y text. */
  function FieldsOf(s: string, dl: nat, ml: nat): Date
    requires Fits(s, dl, ml)
  {
    Date(Number(s[dl + ml + 2..]), Number(s[dl + 1..dl + 1 + ml]), Number(s[..dl]))
  }

  function DateAt(s: string, dl: nat, ml: nat): (r: Option<Date>)
    requires Fits(s, dl, ml)
    ensures r.Some? ==> IsValidDate(r.value)
  {
    var d := FieldsOf(s, dl, ml);
    if IsValidDate(d) then Some(d) else None
  }

  /**
   * `datetime.strptime(s, "%d-%m-%Y")`: day and month take one or two digits,
   * the year exactly four, and the triple must be a calendar date.
   */
  function ParseDate(s: string): (r: Option<Date>)
    ensures r.Some? ==> IsValidDate(r.value)
  {
    if Fits(s, 2, 2) then DateAt(s, 2, 2)
    else if Fits(s, 1, 2) then DateAt(s, 1, 2)
    else if Fits(s, 2, 1) then DateAt(s, 2, 1)
    else if Fits(s, 1, 1) then DateAt(s, 1, 1)
    else None
  }

  function Digit(n: int): (c: char)
    requires 0 <= n <= 9
    ensures IsDigit(c) && DigitValue(c) == n
  {
    ('0' as int + n) as char
  }

  function TwoDigits(n: int): (s: string)
    requires 0 <= n < 100
    ensures |s| == 2 && DigitsOnly(s) && Number(s) == n
  {
    var s := [Digit(n / 10), Digit(n % 10)];
    NumberOfTwo(s);
    s
  }

  function FourDigits(n: int): (s: string)
    requires 0 <= n < 10000
    ensures |s| == 4 && DigitsOnly(s) && Number(s) == n
  {
    var hi, lo := TwoDigits(n / 100), TwoDigits(n % 100);
    var s := hi + lo;
    NumberOfFour(s);
    NumberOfTwo(hi);
    NumberOfTwo(lo);
    s
  }

  /** The `dd-mm-yyyy` text of a date: what `strftime("%d-%m-%Y")` writes. */
  function FormatDate(d: Date): (s: string)
    requires IsValidDate(d)
    ensures |s| == 10
  {
    TwoDigits(d.day) + "-" + TwoDigits(d.month) + "-" + FourDigits(d.year)
  }

  /** Parsing the `dd-mm-yyyy` text of any calendar date gives that date back. */
  lemma ParseFormatRoundTrip(d: Date)
    requires IsValidDate(d)
    ensures ParseDate(FormatDate(d)) == Some(d)
  {
    var dd, mm, yy := TwoDigits(d.day), TwoDigits(d.month), FourDigits(d.year);
    var s := FormatDate(d);
    assert s == dd + "-" + mm + "-" + yy;
    assert s[..2] == dd && s[3..5] == mm && s[6..] == yy;
    assert Fits(s, 2, 2);
  }

  /** The validator reading: a parsed date always comes from text of one of the four shapes. */
  lemma ParsedHasShape(s: string)
    requires ParseDate(s).Some?
    ensures 8 <= |s| <= 10
    ensures exists dl, ml :: 1 <= dl <= 2 && 1 <= ml <= 2 && Fits(s, dl, ml)
  {
    if Fits(s, 2, 2) {
      assert Fits(s, 2, 2);
    } else if Fits(s, 1, 2) {
      assert Fits(s, 1, 2);
    } else if Fits(s, 2, 1) {
      assert Fits(s, 2, 1);
    } else {
      assert Fits(s, 1, 1);
    }
  }

  // ---------------------------------------------------------------- validators

  /** The validator attached to a field; the email pattern test is a parameter. */
  datatype Validator =
    | PhoneValidator
    | DateValidator
    | EmailValidator(matchesOnce: string -> bool)

  /** `validator.validate(raw)`: `Ok` when it returns, `Raised(e)` when it raises. */
  function Validate(v: Validator, raw: Value): (r: Outcome)
    ensures v.PhoneValidator? && r == Ok ==> raw.Text? && IsPhoneNumber(raw.s)
    ensures v.DateValidator? && r == Ok ==> raw.Text? && ParseDate(raw.s).Some?
    ensures v.EmailValidator? && raw.Null? ==> r == Ok
  {
    match v
    case PhoneValidator =>
      if raw.Null? then Raised(NotAString) else CheckPhone(raw.s)
    case DateValidator =>
      if raw.Null? then Raised(NotAString)
      else if ParseDate(raw.s).Some? then Ok
      else Raised(BadDate)
    case EmailValidator(matchesOnce) =>
      if raw.Null? then Ok
      else if matchesOnce(raw.s) then Ok
      else Raised(BadEmail)
  }

  /**
   * Whichever of the four shapes a text has, ParseDate reads it field by
   * field: the date of its three fields when that is a calendar date, and
   * nothing otherwise. The shapes exclude one another, so the order in which
   * ParseDate tries them does not matter.
   */
  lemma ParseDateReadsAnyShape(s: string, dl: nat, ml: nat)
    requires 1 <= dl <= 2 && 1 <= ml <= 2 && Fits(s, dl, ml)
    ensures ParseDate(s) == if IsValidDate(FieldsOf(s, dl, ml)) then Some(FieldsOf(s, dl, ml)) else None
  {
    if dl == 2 && ml == 1 {
      assert !Fits(s, 1, 2) by { assert IsDigit(s[..dl][1]); }
    }
  }

  /**
   * DateValidator accepts a text exactly when it is D-M-YYYY with a day and a
   * month of one or two digits and a four-digit year, and those fields name
   * a calendar date.
   */
  lemma DateValidatorLenient(s: string)
    ensures Validate(DateValidator, Text(s)) == Ok <==>
            exists dl: nat, ml: nat :: 1 <= dl <= 2 && 1 <= ml <= 2 && Fits(s, dl, ml) && IsValidDate(FieldsOf(s, dl, ml))
  {
    if Validate(DateValidator, Text(s)) == Ok {
      ParsedHasShape(s);
      var dl: nat, ml: nat :| 1 <= dl <= 2 && 1 <= ml <= 2 && Fits(s, dl, ml);
      ParseDateReadsAnyShape(s, dl, ml);
    }
    if exists dl: nat, ml: nat :: 1 <= dl <= 2 && 1 <= ml <= 2 && Fits(s, dl, ml) && IsValidDate(FieldsOf(s, dl, ml)) {
      var dl: nat, ml: nat :| 1 <= dl <= 2 && 1 <= ml <= 2 && Fits(s, dl, ml) && IsValidDate(FieldsOf(s, dl, ml));
      ParseDateReadsAnyShape(s, dl, ml);
    }
  }

  /** Every calendar date written as `dd-mm-yyyy` passes DateValidator. */
  lemma DateValidatorAcceptsFormatted(d: Date)
    requires IsValidDate(d)
    ensures Validate(DateValidator, Text(FormatDate(d))) == Ok
  {
    ParseFormatRoundTrip(d);
  }

  /** None never passes DateValidator: strptime raises TypeError on it. */
  lemma DateValidatorRejectsNone()
    ensures Validate(DateValidator, Null) == Raised(NotAString)
  {
  }

  /** A leap day in a year divisible by 400 is a date. */
  lemma AcceptsLeapDay2000()
    ensures Validate(DateValidator, Text("29-02-2000")) == Ok
  {
    NumberExamples();
    var s := "29-02-2000";
    assert s[3..5] == [s[3], s[4]];
    assert s[..2] == "29" && s[3..5] == "02" && s[6..] == "2000";
  }

  /** 1900 is divisible by 100 but not by 400, so it has no 29 February. */
  lemma RejectsLeapDay1900()
    ensures Validate(DateValidator, Text("29-02-1900")) == Raised(BadDate)
  {
    NumberExamples();
    var s := "29-02-1900";
    assert s[3..5] == [s[3], s[4]];
    assert s[..2] == "29" && s[3..5] == "02" && s[6..] == "1900";
  }

  lemma RejectsThirtyFirstFebruary()
    ensures Validate(DateValidator, Text("31-02-2020")) == Raised(BadDate)
  {
    NumberExamples();
    var s := "31-02-2020";
    assert s[3..5] == [s[3], s[4]];
    assert s[..2] == "31" && s[3..5] == "02" && s[6..] == "2020";
  }

  lemma RejectsDayZero()
    ensures Validate(DateValidator, Text("00-01-2020")) == Raised(BadDate)
  {
    NumberExamples();
    var s := "00-01-2020";
    assert s[3..5] == [s[3], s[4]];
    assert s[..2] == "00" && s[3..5] == "01" && s[6..] == "2020";
  }

  lemma RejectsSlashes()
    ensures Validate(DateValidator, Text("15/05/1990")) == Raised(BadDate)
  {
  }

  /** strptime's `%d` and `%m` also take a single digit. */
  lemma AcceptsOneDigitFields()
    ensures Validate(DateValidator, Text("1-3-2000")) == Ok
  {
    NumberExamples();
    var s := "1-3-2000";
    assert s[..1] == "1" && s[2..3] == "3" && s[4..] == "2000";
  }

  lemma NumberExamples()
    ensures Number("29") == 29 && Number("31") == 31 && Number("00") == 0
    ensures Number("02") == 2 && Number("01") == 1
    ensures Number("1900") == 1900 && Number("2020") == 2020
    ensures Number("1") == 1 && Number("3") == 3 && Number("2000") == 2000
  {
    NumberOfTwo("29"); NumberOfTwo("31"); NumberOfTwo("00"); NumberOfTwo("02"); NumberOfTwo("01");
    NumberOfFour("1900"); NumberOfFour("2020"); NumberOfFour("2000");
    assert "1"[..0] == [] && "3"[..0] == [];
  }
}
