/** Calendar dates and the strict `%Y-%m-%d` format the date pickers emit. */
module Dates {
  import opened Wrappers
  import opened Text

  datatype CalendarDate = CalendarDate(year: int, month: int, day: int)

  predicate IsLeapYear(y: int) {
    y % 4 == 0 && (y % 100 != 0 || y % 400 == 0)
  }

  function DaysInMonth(y: int, m: int): (n: int)
    requires 1 <= m <= 12
    ensures 28 <= n <= 31
  {
    if m == 2 then (if IsLeapYear(y) then 29 else 28)
    else if m == 4 || m == 6 || m == 9 || m == 11 then 30
    else 31
  }

  /** A day that Python's `datetime.date` can hold (years 1 to 9999). */
  predicate IsValid(d: CalendarDate) {
    && 1 <= d.year <= 9999
    && 1 <= d.month <= 12
    && 1 <= d.day <= DaysInMonth(d.year, d.month)
  }

  type Date = d: CalendarDate | IsValid(d) witness CalendarDate(2020, 1, 1)

  /** Shape of `YYYY-MM-DD`: ten characters, dashes at 4 and 7, digits elsewhere. */
  predicate IsIsoShape(s: string) {
    && |s| == 10
    && s[4] == '-' && s[7] == '-'
    && AllDigits(s[0..4]) && AllDigits(s[5..7]) && AllDigits(s[8..10])
  }

  /** `datetime.strptime(s, "%Y-%m-%d").date()`, strict: every field is
      zero-padded to its full width; `None` stands for the `ValueError`. */
  function ParseIsoDate(s: string): (r: Option<Date>)
    ensures r.Some? ==> IsIsoShape(s)
  {
    if !IsIsoShape(s) then None
    else
      var d := CalendarDate(ParseDigits(s[0..4]), ParseDigits(s[5..7]), ParseDigits(s[8..10]));
      if IsValid(d) then Some(d) else None
  }

  /** `date.isoformat()`, which is also `str(date)`. */
  function FormatIsoDate(d: Date): (s: string)
    ensures IsIsoShape(s)
  {
    FixedWidth(d.year, 4) + "-" + FixedWidth(d.month, 2) + "-" + FixedWidth(d.day, 2)
  }

  /** Printing a date and parsing it back gives the same date. */
  lemma ParseFormat(d: Date)
    ensures ParseIsoDate(FormatIsoDate(d)) == Some(d)
  {
    var s := FormatIsoDate(d);
    assert s[0..4] == FixedWidth(d.year, 4);
    assert s[5..7] == FixedWidth(d.month, 2);
    assert s[8..10] == FixedWidth(d.day, 2);
    ParseFixedWidth(d.year, 4);
    ParseFixedWidth(d.month, 2);
    ParseFixedWidth(d.day, 2);
  }

  /** Every string the parser accepts is the ISO text of the date it yields. */
  lemma FormatParse(s: string)
    requires ParseIsoDate(s).Some?
    ensures FormatIsoDate(ParseIsoDate(s).value) == s
  {
    var year, month, day := s[0..4], s[5..7], s[8..10];
    IsoPieces(s);
    FixedWidthParse(year);
    FixedWidthParse(month);
    FixedWidthParse(day);
  }

  /** An ISO-shaped string is its three digit groups joined by dashes. */
  lemma IsoPieces(s: string)
    requires IsIsoShape(s)
    ensures s == s[0..4] + "-" + s[5..7] + "-" + s[8..10]
  {
  }

  lemma ParseTwoDigits(s: string)
    requires |s| == 2 && AllDigits(s)
    ensures ParseDigits(s) == 10 * DigitValue(s[0]) + DigitValue(s[1])
  {
    assert s[..1][..0] == "";
  }

  lemma ParseFourDigits(s: string)
    requires |s| == 4 && AllDigits(s)
    ensures ParseDigits(s) == 1000 * DigitValue(s[0]) + 100 * DigitValue(s[1]) + 10 * DigitValue(s[2]) + DigitValue(s[3])
  {
    var s3, s2 := s[..3], s[..2];
    assert s3[..2] == s2 && s3[2] == s[2];
    ParseTwoDigits(s2);
    assert ParseDigits(s3) == 10 * ParseDigits(s2) + DigitValue(s[2]);
  }

  /** The parser rejects calendar-invalid days such as the 30th of February. */
  lemma RejectsFebruaryThirtieth()
    ensures ParseIsoDate("2020-02-30") == None
  {
    ParseFourDigits("2020");
    ParseTwoDigits("02");
    ParseTwoDigits("30");
    assert "2020-02-30"[0..4] == "2020" && "2020-02-30"[5..7] == "02" && "2020-02-30"[8..10] == "30";
  }

  /** The 29th of February is a date in a leap year ... */
  lemma AcceptsLeapDay()
    ensures ParseIsoDate("2020-02-29") == Some(CalendarDate(2020, 2, 29))
  {
    ParseFourDigits("2020");
    ParseTwoDigits("02");
    ParseTwoDigits("29");
    assert "2020-02-29"[0..4] == "2020" && "2020-02-29"[5..7] == "02" && "2020-02-29"[8..10] == "29";
  }

  /** `2021-02-29` is rejected: 2021 is not a leap year. */
  lemma RejectsLeapDayOfCommonYear()
    ensures ParseIsoDate("2021-02-29") == None
  {
    ParseFourDigits("2021");
    ParseTwoDigits("02");
    ParseTwoDigits("29");
    assert "2021-02-29"[0..4] == "2021" && "2021-02-29"[5..7] == "02" && "2021-02-29"[8..10] == "29";
  }
}
