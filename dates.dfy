/**
 * Parsing of `DD-MM-YYYY` date strings, as `pd.to_datetime(..., format="%d-%m-%Y")`
 * does it for zero-padded fields, and the chronological order on the result.
 */
module Dates {
  import opened Wrappers

  datatype Date = Date(year: int, month: int, day: int)

  predicate IsLeapYear(y: int)
  {
    y % 4 == 0 && (y % 100 != 0 || y % 400 == 0)
  }

  function DaysInMonth(y: int, m: int): int
    requires 1 <= m <= 12
  {
    if m == 2 then (if IsLeapYear(y) then 29 else 28)
    else if m == 4 || m == 6 || m == 9 || m == 11 then 30
    else 31
  }

  /** A day that exists in the Gregorian calendar. */
  predicate ValidDate(d: Date)
  {
    1 <= d.month <= 12 && 1 <= d.day <= DaysInMonth(d.year, d.month)
  }

  /** Chronological order: by year, then month, then day. */
  predicate NotAfter(a: Date, b: Date)
  {
    a.year < b.year
    || (a.year == b.year && a.month < b.month)
    || (a.year == b.year && a.month == b.month && a.day <= b.day)
  }

  lemma NotAfterTotalOrder()
    ensures forall a: Date, b: Date :: NotAfter(a, b) || NotAfter(b, a)
    ensures forall a: Date, b: Date :: NotAfter(a, b) && NotAfter(b, a) ==> a == b
    ensures forall a: Date, b: Date, c: Date :: NotAfter(a, b) && NotAfter(b, c) ==> NotAfter(a, c)
  {
  }

  /** The first and the last midnight a nanosecond pandas Timestamp can hold. */
  const FirstTimestampDay: Date := Date(1677, 9, 22)
  const LastTimestampDay: Date := Date(2262, 4, 11)

  /** A date pandas accepts: a real calendar day inside the Timestamp range. */
  predicate Representable(d: Date)
  {
    ValidDate(d) && NotAfter(FirstTimestampDay, d) && NotAfter(d, LastTimestampDay)
  }

  predicate IsDigit(c: char)
  {
    '0' <= c <= '9'
  }

  function DigitValue(c: char): (k: int)
    requires IsDigit(c)
    ensures 0 <= k <= 9
  {
    c as int - '0' as int
  }

  function DigitChar(k: int): (c: char)
    requires 0 <= k <= 9
    ensures IsDigit(c) && DigitValue(c) == k
  {
    ('0' as int + k) as char
  }

  /** `DD-MM-YYYY`: the shape of the text, before the values are checked. */
  predicate WellFormed(s: string)
  {
    && |s| == 10 && s[2] == '-' && s[5] == '-'
    && IsDigit(s[0]) && IsDigit(s[1]) && IsDigit(s[3]) && IsDigit(s[4])
    && IsDigit(s[6]) && IsDigit(s[7]) && IsDigit(s[8]) && IsDigit(s[9])
  }

  function FieldsOf(s: string): Date
    requires WellFormed(s)
  {
    Date(DigitValue(s[6]) * 1000 + DigitValue(s[7]) * 100 + DigitValue(s[8]) * 10 + DigitValue(s[9]),
         DigitValue(s[3]) * 10 + DigitValue(s[4]),
         DigitValue(s[0]) * 10 + DigitValue(s[1]))
  }

  /** The parsed date, or None where pandas raises. */
  function ParseDate(s: string): Option<Date>
  {
    if WellFormed(s) && Representable(FieldsOf(s)) then Some(FieldsOf(s)) else None
  }

  /** `strftime("%d-%m-%Y")` of a representable date. */
  function FormatDate(d: Date): (s: string)
    requires Representable(d)
    ensures WellFormed(s)
  {
    [DigitChar(d.day / 10), DigitChar(d.day % 10), '-',
     DigitChar(d.month / 10), DigitChar(d.month % 10), '-',
     DigitChar(d.year / 1000), DigitChar(d.year / 100 % 10), DigitChar(d.year / 10 % 10), DigitChar(d.year % 10)]
  }

  /** Every representable date is read back from its own text. */
  lemma ParseFormat(d: Date)
    requires Representable(d)
    ensures ParseDate(FormatDate(d)) == Some(d)
  {
    var s := FormatDate(d);
    SplitTwo(d.day);
    SplitTwo(d.month);
    SplitFour(d.year);
    assert FieldsOf(s) == d;
  }

  lemma SplitTwo(k: int)
    requires 0 <= k <= 99
    ensures k / 10 * 10 + k % 10 == k && 0 <= k / 10 <= 9
  {
  }

  lemma SplitFour(y: int)
    requires 0 <= y <= 9999
    ensures y / 1000 * 1000 + y / 100 % 10 * 100 + y / 10 % 10 * 10 + y % 10 == y
    ensures 0 <= y / 1000 <= 9
  {
    var ten, hundred := y / 10, y / 100;
    assert y == ten * 10 + y % 10;
    assert hundred == ten / 10;
    assert ten == hundred * 10 + ten % 10;
    assert y / 1000 == hundred / 10;
    assert hundred == y / 1000 * 10 + hundred % 10;
  }

  /** A text that parses is the text of the date it parses to. */
  lemma FormatParse(s: string)
    requires ParseDate(s).Some?
    ensures FormatDate(ParseDate(s).value) == s
  {
    var d := ParseDate(s).value;
    TwoDigits(DigitValue(s[0]), DigitValue(s[1]));
    TwoDigits(DigitValue(s[3]), DigitValue(s[4]));
    FourDigits(DigitValue(s[6]), DigitValue(s[7]), DigitValue(s[8]), DigitValue(s[9]));
    var t := FormatDate(d);
    DigitRoundTrip(s[0]);
    DigitRoundTrip(s[1]);
    DigitRoundTrip(s[3]);
    DigitRoundTrip(s[4]);
    DigitRoundTrip(s[6]);
    DigitRoundTrip(s[7]);
    DigitRoundTrip(s[8]);
    DigitRoundTrip(s[9]);
    assert t == s;
  }

  lemma DigitRoundTrip(c: char)
    requires IsDigit(c)
    ensures DigitChar(DigitValue(c)) == c
  {
  }

  lemma TwoDigits(a: int, b: int)
    requires 0 <= a <= 9 && 0 <= b <= 9
    ensures (a * 10 + b) / 10 == a && (a * 10 + b) % 10 == b
  {
  }

  lemma FourDigits(a: int, b: int, c: int, e: int)
    requires 0 <= a <= 9 && 0 <= b <= 9 && 0 <= c <= 9 && 0 <= e <= 9
    ensures var y := a * 1000 + b * 100 + c * 10 + e;
      y / 1000 == a && y / 100 % 10 == b && y / 10 % 10 == c && y % 10 == e
  {
    var y := a * 1000 + b * 100 + c * 10 + e;
    assert y / 10 == a * 100 + b * 10 + c;
    assert y / 100 == a * 10 + b;
  }
}
