/**
 * Calendar dates and the conversion of date-of-birth text into a date (`Convert.ToDateTime`).
 * The conversion is modelled for the numeric year-month-day form only; see README.
 */
module Dates {
  import opened Wrappers

  datatype Date = Date(year: int, month: int, day: int)

  /** `DateTime.MinValue`, which `Convert.ToDateTime` returns for a null string. */
  const MIN_VALUE := Date(1, 1, 1)

  predicate IsLeapYear(y: int) {
    y % 4 == 0 && (y % 100 != 0 || y % 400 == 0)
  }

  function DaysInMonth(y: int, m: int): (n: int)
    requires 1 <= m <= 12
    ensures 28 <= n <= 31
    ensures n == 29 <==> m == 2 && IsLeapYear(y)
  {
    if m == 2 then (if IsLeapYear(y) then 29 else 28)
    else if m == 4 || m == 6 || m == 9 || m == 11 then 30
    else 31
  }

  /** A date that `DateTime` can hold: years 1 to 9999 of the Gregorian calendar. */
  predicate ValidDate(d: Date) {
    && 1 <= d.year <= 9999
    && 1 <= d.month <= 12
    && 1 <= d.day <= DaysInMonth(d.year, d.month)
  }

  predicate IsDigit(c: char) {
    '0' <= c <= '9'
  }

  function DigitValue(c: char): (n: nat)
    requires IsDigit(c)
    ensures n <= 9
  {
    c as int - '0' as int
  }

  function DigitChar(n: nat): (c: char)
    requires n <= 9
    ensures IsDigit(c) && DigitValue(c) == n
  {
    ('0' as int + n) as char
  }

  predicate IsDateSeparator(c: char) {
    c == '/' || c == '-'
  }

  /** The characters of a date text have the shape `yyyy/MM/dd` (or with `-` for both separators). */
  predicate HasDateShape(s: string) {
    && |s| == 10
    && IsDigit(s[0]) && IsDigit(s[1]) && IsDigit(s[2]) && IsDigit(s[3])
    && IsDateSeparator(s[4]) && s[7] == s[4]
    && IsDigit(s[5]) && IsDigit(s[6])
    && IsDigit(s[8]) && IsDigit(s[9])
  }

  /** Parses a date text; `None` is the `FormatException` of the conversion. */
  function ParseDate(s: string): (r: Option<Date>)
    ensures r.Some? ==> ValidDate(r.value) && HasDateShape(s)
  {
    if !HasDateShape(s) then None
    else
      var d := Date(
        1000 * DigitValue(s[0]) + 100 * DigitValue(s[1]) + 10 * DigitValue(s[2]) + DigitValue(s[3]),
        10 * DigitValue(s[5]) + DigitValue(s[6]),
        10 * DigitValue(s[8]) + DigitValue(s[9]));
      if ValidDate(d) then Some(d) else None
  }

  /** `Convert.ToDateTime(string)`: null gives `DateTime.MinValue`, any other text is parsed. */
  function ConvertToDateTime(s: Option<string>): (r: Option<Date>)
    ensures r.Some? ==> ValidDate(r.value)
    ensures s.None? ==> r == Some(MIN_VALUE)
    ensures s.Some? ==> r == ParseDate(s.value)
  {
    match s
    case None => Some(MIN_VALUE)
    case Some(text) => ParseDate(text)
  }

  /** Renders a date as `yyyy/MM/dd`, zero-padded. */
  function FormatDate(d: Date): (s: string)
    requires ValidDate(d)
    ensures HasDateShape(s) && s[4] == '/'
  {
    var y := d.year;
    [DigitChar(y / 10 / 10 / 10), DigitChar(y / 10 / 10 % 10), DigitChar(y / 10 % 10), DigitChar(y % 10),
     '/', DigitChar(d.month / 10), DigitChar(d.month % 10),
     '/', DigitChar(d.day / 10), DigitChar(d.day % 10)]
  }

  /** Division by 10 is determined by quotient and remainder. */
  lemma DivModTen(v: int, q: int, r: int)
    requires v == 10 * q + r && 0 <= r < 10
    ensures v / 10 == q && v % 10 == r
  {
  }

  /** The decimal digits of a number below 10000, as `FormatDate` extracts them. */
  lemma FourDigits(y: int, a: int, b: int, c: int, e: int)
    requires 0 <= a <= 9 && 0 <= b <= 9 && 0 <= c <= 9 && 0 <= e <= 9
    requires y == 1000 * a + 100 * b + 10 * c + e
    ensures y / 10 / 10 / 10 == a && y / 10 / 10 % 10 == b && y / 10 % 10 == c && y % 10 == e
  {
    DivModTen(y, 100 * a + 10 * b + c, e);
    DivModTen(100 * a + 10 * b + c, 10 * a + b, c);
    DivModTen(10 * a + b, a, b);
  }

  /** Every date the conversion can produce is read back from its own rendering. */
  lemma ParseFormat(d: Date)
    requires ValidDate(d)
    ensures ParseDate(FormatDate(d)) == Some(d)
  {
    var y := d.year;
    assert y == 10 * (y / 10) + y % 10;
    assert y / 10 == 10 * (y / 10 / 10) + y / 10 % 10;
    assert y / 10 / 10 == 10 * (y / 10 / 10 / 10) + y / 10 / 10 % 10;
    assert d.month == 10 * (d.month / 10) + d.month % 10;
    assert d.day == 10 * (d.day / 10) + d.day % 10;
  }

  /** A text in the `/` form that parses is exactly the rendering of its date. */
  lemma FormatParse(s: string)
    requires ParseDate(s).Some? && s[4] == '/'
    ensures FormatDate(ParseDate(s).value) == s
  {
    var d := ParseDate(s).value;
    FourDigits(d.year, DigitValue(s[0]), DigitValue(s[1]), DigitValue(s[2]), DigitValue(s[3]));
    DivModTen(d.month, DigitValue(s[5]), DigitValue(s[6]));
    DivModTen(d.day, DigitValue(s[8]), DigitValue(s[9]));
    var t := FormatDate(d);
    assert t[0] == s[0] && t[1] == s[1] && t[2] == s[2] && t[3] == s[3];
    assert t[5] == s[5] && t[6] == s[6] && t[8] == s[8] && t[9] == s[9];
  }
}
