/**
 * Calendar arithmetic used by the holiday tool: the leap-year rule of the
 * interactive driver and `datetime.strptime(s, "%Y-%m-%d")` as the parser
 * applies it to the `datetime` attribute of a holiday row.
 */
module Dates {
  import opened Wrappers

  /**
   * The driver's `is_leap`. Python's `%` floors and Dafny's is Euclidean;
   * for the positive divisors used here the two agree.
   */
  predicate IsLeap(y: int) {
    (y % 4 == 0 && y % 100 != 0) || y % 400 == 0
  }

  function DaysInMonth(y: int, m: int): (n: int)
    requires 1 <= m <= 12
    ensures 28 <= n <= 31
    ensures m == 2 ==> (n == 29 <==> IsLeap(y))
  {
    if m == 2 then (if IsLeap(y) then 29 else 28)
    else if m == 4 || m == 6 || m == 9 || m == 11 then 30
    else 31
  }

  /** Days in the months of year `y` before month `m`. */
  function DaysBeforeMonth(y: int, m: int): int
    requires 1 <= m <= 13
  {
    if m == 1 then 0 else DaysBeforeMonth(y, m - 1) + DaysInMonth(y, m - 1)
  }

  /** The driver's calendar length: 366 days in a leap year, otherwise 365. */
  function CalendarDuration(y: int): (n: int)
    ensures n == 365 || n == 366
  {
    if IsLeap(y) then 366 else 365
  }

  /** The calendar spans exactly the days of the twelve months of the year. */
  lemma CalendarDurationIsYearLength(y: int)
    ensures CalendarDuration(y) == DaysBeforeMonth(y, 13)
  {
    var feb := DaysInMonth(y, 2);
    assert DaysBeforeMonth(y, 2) == 31;
    assert DaysBeforeMonth(y, 3) == 31 + feb;
    assert DaysBeforeMonth(y, 4) == 62 + feb;
    assert DaysBeforeMonth(y, 5) == 92 + feb;
    assert DaysBeforeMonth(y, 6) == 123 + feb;
    assert DaysBeforeMonth(y, 7) == 153 + feb;
    assert DaysBeforeMonth(y, 8) == 184 + feb;
    assert DaysBeforeMonth(y, 9) == 215 + feb;
    assert DaysBeforeMonth(y, 10) == 245 + feb;
    assert DaysBeforeMonth(y, 11) == 276 + feb;
    assert DaysBeforeMonth(y, 12) == 306 + feb;
    assert DaysBeforeMonth(y, 13) == 337 + feb;
  }

  /** The leap rule repeats every 400 years (the Gregorian cycle). */
  lemma LeapCycle(y: int)
    ensures IsLeap(y + 400) == IsLeap(y)
  {
    assert (y + 400) % 4 == y % 4;
    assert (y + 400) % 100 == y % 100;
    assert (y + 400) % 400 == y % 400;
  }

  datatype Date = Date(year: int, month: int, day: int)

  /** What `datetime.date(year, month, day)` accepts (MINYEAR 1 .. MAXYEAR 9999). */
  predicate ValidDate(d: Date) {
    1 <= d.year <= 9999 && 1 <= d.month <= 12 && 1 <= d.day <= DaysInMonth(d.year, d.month)
  }

  predicate IsDigit(c: char) {
    '0' <= c <= '9'
  }

  function DigitValue(c: char): (n: nat)
    requires IsDigit(c)
    ensures n < 10
  {
    c as int - '0' as int
  }

  /**
   * `%m` is the regular expression `1[0-2]|0[1-9]|[1-9]` and is followed by
   * the literal `-` of the format. Returns the month and the number of
   * characters the field took.
   */
  function MonthField(s: string): (r: Option<(int, nat)>)
    ensures r.Some? ==> 1 <= r.value.0 <= 12 && 1 <= r.value.1 <= 2 && r.value.1 < |s| && s[r.value.1] == '-'
  {
    if |s| >= 3 && ((s[0] == '1' && '0' <= s[1] <= '2') || (s[0] == '0' && '1' <= s[1] <= '9')) && s[2] == '-' then
      Some((10 * DigitValue(s[0]) + DigitValue(s[1]), 2))
    else if |s| >= 2 && '1' <= s[0] <= '9' && s[1] == '-' then
      Some((DigitValue(s[0]), 1))
    else None
  }

  /**
   * `%d` is `3[0-1]|[1-2]\d|0[1-9]|[1-9]| [1-9]`; it ends the format, so it
   * must consume the rest of the string ("unconverted data remains" otherwise).
   */
  function DayField(s: string): (r: Option<int>)
    ensures r.Some? ==> 1 <= r.value <= 31
  {
    if |s| == 2 && ((s[0] == '3' && '0' <= s[1] <= '1') || ('1' <= s[0] <= '2' && IsDigit(s[1]))
                    || (s[0] == '0' && '1' <= s[1] <= '9')) then
      Some(10 * DigitValue(s[0]) + DigitValue(s[1]))
    else if |s| == 1 && '1' <= s[0] <= '9' then
      Some(DigitValue(s[0]))
    else if |s| == 2 && s[0] == ' ' && '1' <= s[1] <= '9' then
      Some(DigitValue(s[1]))
    else None
  }

  /** `datetime.strptime(s, "%Y-%m-%d")`: `None` where Python raises `ValueError`. */
  function ParseIsoDate(s: string): (r: Option<Date>)
    ensures r.Some? ==> ValidDate(r.value)
  {
    if |s| >= 5 && IsDigit(s[0]) && IsDigit(s[1]) && IsDigit(s[2]) && IsDigit(s[3]) && s[4] == '-' then
      var y := 1000 * DigitValue(s[0]) + 100 * DigitValue(s[1]) + 10 * DigitValue(s[2]) + DigitValue(s[3]);
      match MonthField(s[5..])
      case None => None
      case Some(mk) =>
        match DayField(s[5 + mk.1 + 1..])
        case None => None
        case Some(d) =>
          if 1 <= y && d <= DaysInMonth(y, mk.0) then Some(Date(y, mk.0, d)) else None
    else None
  }

  function Pad2(n: nat): (s: string)
    requires n < 100
    ensures |s| == 2 && IsDigit(s[0]) && IsDigit(s[1])
    ensures 10 * DigitValue(s[0]) + DigitValue(s[1]) == n
  {
    [('0' as int + n / 10) as char, ('0' as int + n % 10) as char]
  }

  function Pad4(n: nat): (s: string)
    requires n < 10000
    ensures |s| == 4 && IsDigit(s[0]) && IsDigit(s[1]) && IsDigit(s[2]) && IsDigit(s[3])
    ensures 1000 * DigitValue(s[0]) + 100 * DigitValue(s[1]) + 10 * DigitValue(s[2]) + DigitValue(s[3]) == n
  {
    Pad2(n / 100) + Pad2(n % 100)
  }

  /** The zero-padded `YYYY-MM-DD` form a holiday page writes in `datetime`. */
  function FormatIsoDate(d: Date): string
    requires ValidDate(d)
  {
    Pad4(d.year) + "-" + Pad2(d.month) + "-" + Pad2(d.day)
  }

  /** Every valid date survives formatting and parsing back. */
  lemma ParseFormatRoundTrip(d: Date)
    requires ValidDate(d)
    ensures ParseIsoDate(FormatIsoDate(d)) == Some(d)
  {
    var s := FormatIsoDate(d);
    var m := Pad2(d.month);
    var dd := Pad2(d.day);
    assert s[..4] == Pad4(d.year);
    assert s[5..] == m + "-" + dd;
    assert MonthField(s[5..]) == Some((d.month, 2));
    assert s[8..] == dd;
    assert DayField(dd) == Some(d.day);
  }

  /** `strptime` also takes unpadded and space-padded fields, and checks the calendar. */
  lemma ParseIsoDateAccepts()
    ensures ParseIsoDate("2026-03-20") == Some(Date(2026, 3, 20))
    ensures ParseIsoDate("2026-3-5") == Some(Date(2026, 3, 5))
    ensures ParseIsoDate("2026-03- 5") == Some(Date(2026, 3, 5))
    ensures ParseIsoDate("2024-02-29") == Some(Date(2024, 2, 29))
  {
    assert "2026-03-20"[5..] == "03-20";
    assert "03-20"[3..] == "20";
    assert "2026-3-5"[5..] == "3-5";
    assert "3-5"[2..] == "5";
    assert "2026-03- 5"[5..] == "03- 5";
    assert "03- 5"[3..] == " 5";
    assert "2024-02-29"[5..] == "02-29";
    assert "02-29"[3..] == "29";
  }

  /** It rejects a day beyond the month, month 13, year 0 and a field with extra digits. */
  lemma ParseIsoDateRejects()
    ensures ParseIsoDate("2026-02-29") == None
    ensures ParseIsoDate("2026-13-01") == None
    ensures ParseIsoDate("0000-01-01") == None
    ensures ParseIsoDate("2026-01-011") == None
  {
    assert "2026-02-29"[5..] == "02-29";
    assert "02-29"[3..] == "29";
    assert "2026-13-01"[5..] == "13-01";
    assert "0000-01-01"[5..] == "01-01";
    assert "01-01"[3..] == "01";
    assert "2026-01-011"[5..] == "01-011";
    assert "01-011"[3..] == "011";
  }
}
