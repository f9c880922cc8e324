/**
 * Conversion between whole seconds since the Unix epoch (UTC) and the text form
 * `YYYY-MM-DD HH:MM:SS GMT` that the archive history stores.
 *
 * The program delegates this to `time.gmtime`/`time.strftime` (formatting) and to
 * `time.strptime`/`calendar.timegm` (parsing). Here both directions are written out as
 * proleptic Gregorian arithmetic: a day number counts days from 0001-01-01, and a time
 * stamp is `(day number - EpochDay) * 86400 + seconds of the day`.
 */
module TimeFormat {
  import opened Wrappers

  const SecondsPerDay := 86400

  /** Day number of 1970-01-01, the Unix epoch. */
  const EpochDay := 719162

  const MinYear := 1
  const MaxYear := 9999

  /** Cumulative days before each month of a common year. */
  const CommonDaysBeforeMonth: seq<int> := [0, 31, 59, 90, 120, 151, 181, 212, 243, 273, 304, 334]

  predicate IsLeapYear(y: int)
  {
    y % 4 == 0 && (y % 100 != 0 || y % 400 == 0)
  }

  function DaysInYear(y: int): int
  {
    if IsLeapYear(y) then 366 else 365
  }

  function DaysInMonth(y: int, m: int): int
    requires 1 <= m <= 12
  {
    if m == 2 then (if IsLeapYear(y) then 29 else 28)
    else if m == 4 || m == 6 || m == 9 || m == 11 then 30
    else 31
  }

  /** Days of year `y` that lie before the first of month `m`. */
  function DaysBeforeMonth(y: int, m: int): int
    requires 1 <= m <= 12
  {
    CommonDaysBeforeMonth[m - 1] + (if m > 2 && IsLeapYear(y) then 1 else 0)
  }

  /** Days from 0001-01-01 to the first of January of year `y`. */
  function DaysBeforeYear(y: int): int
    requires y >= 1
  {
    var k := y - 1;
    365 * k + k / 4 - k / 100 + k / 400
  }

  /** Day number of 10000-01-01, the first day past the four-digit years. */
  const EndDay := 3652059

  /** The earliest representable time: 0001-01-01 00:00:00. */
  const MinTime := -EpochDay * SecondsPerDay

  /** The latest representable time: 9999-12-31 23:59:59. */
  const MaxTime := (EndDay - EpochDay) * SecondsPerDay - 1

  /** Times whose year has four digits, the range the text form can express. */
  predicate InTimeRange(t: int)
  {
    MinTime <= t <= MaxTime
  }

  /** A broken-down UTC time, the `struct_time` of the original program. */
  datatype DateTime = DateTime(year: int, month: int, day: int, hour: int, minute: int, second: int)

  /** A real calendar date with a four-digit year and a time of day without leap seconds. */
  predicate ValidDateTime(dt: DateTime)
  {
    && MinYear <= dt.year <= MaxYear
    && 1 <= dt.month <= 12
    && 1 <= dt.day <= DaysInMonth(dt.year, dt.month)
    && 0 <= dt.hour < 24
    && 0 <= dt.minute < 60
    && 0 <= dt.second < 60
  }

  /** The constants above are the calendar's own day numbers. */
  lemma CalendarConstants()
    ensures DaysBeforeYear(MinYear) == 0
    ensures DaysBeforeYear(1970) == EpochDay
    ensures DaysBeforeYear(MaxYear + 1) == EndDay
  {
  }

  lemma {:induction false} DaysBeforeNextYear(y: int)
    requires y >= 1
    ensures DaysBeforeYear(y + 1) == DaysBeforeYear(y) + DaysInYear(y)
  {
    var k := y - 1;
    assert (k + 1) / 4 == k / 4 + (if y % 4 == 0 then 1 else 0);
    assert (k + 1) / 100 == k / 100 + (if y % 100 == 0 then 1 else 0);
    assert (k + 1) / 400 == k / 400 + (if y % 400 == 0 then 1 else 0);
  }

  lemma {:induction false} DaysBeforeYearMonotonic(a: int, b: int)
    requires 1 <= a <= b
    ensures DaysBeforeYear(a) + 365 * (b - a) <= DaysBeforeYear(b)
    decreases b - a
  {
    if a < b {
      DaysBeforeNextYear(a);
      DaysBeforeYearMonotonic(a + 1, b);
    }
  }

  /** Day number of the date `y-m-d`, counting 0001-01-01 as day 0. */
  function DayNumber(y: int, m: int, d: int): int
    requires y >= 1 && 1 <= m <= 12
  {
    DaysBeforeYear(y) + DaysBeforeMonth(y, m) + d - 1
  }

  /**
   * calendar.timegm: the seconds since the epoch of a UTC date and time.
   */
  function TimeGm(dt: DateTime): int
    requires ValidDateTime(dt)
  {
    (DayNumber(dt.year, dt.month, dt.day) - EpochDay) * SecondsPerDay
      + dt.hour * 3600 + dt.minute * 60 + dt.second
  }

  /** The year that day number `n` falls in, searched upward from year `y`. */
  function YearFrom(y: int, n: int): (r: int)
    requires 1 <= y && DaysBeforeYear(y) <= n
    ensures y <= r && DaysBeforeYear(r) <= n < DaysBeforeYear(r + 1)
    decreases n - DaysBeforeYear(y)
  {
    DaysBeforeNextYear(y);
    if n < DaysBeforeYear(y + 1) then y else YearFrom(y + 1, n)
  }

  /** The month that the zero-based day `doy` of year `y` falls in. */
  function MonthOfDay(y: int, doy: int): (m: int)
    requires 0 <= doy < DaysInYear(y)
    ensures 1 <= m <= 12
    ensures DaysBeforeMonth(y, m) <= doy < DaysBeforeMonth(y, m) + DaysInMonth(y, m)
  {
    if doy < DaysBeforeMonth(y, 2) then 1
    else if doy < DaysBeforeMonth(y, 3) then 2
    else if doy < DaysBeforeMonth(y, 4) then 3
    else if doy < DaysBeforeMonth(y, 5) then 4
    else if doy < DaysBeforeMonth(y, 6) then 5
    else if doy < DaysBeforeMonth(y, 7) then 6
    else if doy < DaysBeforeMonth(y, 8) then 7
    else if doy < DaysBeforeMonth(y, 9) then 8
    else if doy < DaysBeforeMonth(y, 10) then 9
    else if doy < DaysBeforeMonth(y, 11) then 10
    else if doy < DaysBeforeMonth(y, 12) then 11
    else 12
  }

  /** The date and time of the second `secs` of the day with day number `n`. */
  function DateTimeOfDay(n: int, secs: int): DateTime
    requires 0 <= n
  {
    var y := YearFrom(1, n);
    DaysBeforeNextYear(y);
    var doy := n - DaysBeforeYear(y);
    var m := MonthOfDay(y, doy);
    DateTime(y, m, doy - DaysBeforeMonth(y, m) + 1, secs / 3600, secs % 3600 / 60, secs % 60)
  }

  /**
   * time.gmtime: the UTC date and time of `t` seconds since the epoch. Division rounds
   * toward minus infinity, so times before 1970 fall on the previous day, as in gmtime.
   */
  function GmTime(t: int): DateTime
    requires InTimeRange(t)
  {
    DateTimeOfDay(t / SecondsPerDay + EpochDay, t % SecondsPerDay)
  }

  /** The month found for a day is the only month whose days contain it. */
  lemma MonthOfDayUnique(y: int, doy: int, m: int)
    requires 1 <= m <= 12
    requires DaysBeforeMonth(y, m) <= doy < DaysBeforeMonth(y, m) + DaysInMonth(y, m)
    ensures 0 <= doy < DaysInYear(y) && MonthOfDay(y, doy) == m
  {
  }

  /** Every year reached from year 1 by the search is the unique year containing the day. */
  lemma {:induction false} YearFromUnique(y0: int, n: int, y: int)
    requires 1 <= y0 <= y && DaysBeforeYear(y0) <= n
    requires DaysBeforeYear(y) <= n < DaysBeforeYear(y + 1)
    ensures YearFrom(y0, n) == y
    decreases y - y0
  {
    DaysBeforeNextYear(y0);
    if y0 < y {
      DaysBeforeYearMonotonic(y0 + 1, y);
      YearFromUnique(y0 + 1, n, y);
    }
  }

  /** gmtime yields a real calendar date, and timegm takes it back to the same second. */
  lemma GmTimeInverse(t: int)
    requires InTimeRange(t)
    ensures ValidDateTime(GmTime(t))
    ensures TimeGm(GmTime(t)) == t
  {
    var n := t / SecondsPerDay + EpochDay;
    var y := YearFrom(1, n);
    if y > MaxYear {
      CalendarConstants();
      DaysBeforeYearMonotonic(MaxYear + 1, y);
      assert false;
    }
    DaysBeforeNextYear(y);
  }

  lemma SplitDay(q: int, secs: int)
    requires 0 <= secs < SecondsPerDay
    ensures (q * SecondsPerDay + secs) / SecondsPerDay == q
    ensures (q * SecondsPerDay + secs) % SecondsPerDay == secs
  {
  }

  lemma SplitSeconds(h: int, mi: int, s: int)
    requires 0 <= h < 24 && 0 <= mi < 60 && 0 <= s < 60
    ensures 0 <= h * 3600 + mi * 60 + s < SecondsPerDay
    ensures (h * 3600 + mi * 60 + s) / 3600 == h
    ensures (h * 3600 + mi * 60 + s) % 3600 / 60 == mi
    ensures (h * 3600 + mi * 60 + s) % 60 == s
  {
  }

  /** The day number of a real date lies within its year, and years 1 to 9999. */
  lemma DayNumberBounds(dt: DateTime)
    requires ValidDateTime(dt)
    ensures var n := DayNumber(dt.year, dt.month, dt.day);
      DaysBeforeYear(dt.year) <= n < DaysBeforeYear(dt.year + 1)
      && 0 <= n < EndDay
  {
    CalendarConstants();
    DaysBeforeNextYear(dt.year);
    DaysBeforeYearMonotonic(1, dt.year);
    DaysBeforeYearMonotonic(dt.year + 1, MaxYear + 1);
  }

  /** timegm splits back into the day number and the second of the day. */
  lemma TimeGmSplit(dt: DateTime)
    requires ValidDateTime(dt)
    ensures var t := TimeGm(dt);
      && t / SecondsPerDay + EpochDay == DayNumber(dt.year, dt.month, dt.day)
      && t % SecondsPerDay == dt.hour * 3600 + dt.minute * 60 + dt.second
  {
    SplitSeconds(dt.hour, dt.minute, dt.second);
    SplitDay(DayNumber(dt.year, dt.month, dt.day) - EpochDay, dt.hour * 3600 + dt.minute * 60 + dt.second);
  }

  /** The date and time of a real date's own day number and second of the day are that date. */
  lemma DateTimeOfDayInverse(dt: DateTime)
    requires ValidDateTime(dt)
    ensures DayNumber(dt.year, dt.month, dt.day) >= 0
    ensures DateTimeOfDay(DayNumber(dt.year, dt.month, dt.day), dt.hour * 3600 + dt.minute * 60 + dt.second) == dt
  {
    var y := dt.year;
    var n := DayNumber(y, dt.month, dt.day);
    DayNumberBounds(dt);
    SplitSeconds(dt.hour, dt.minute, dt.second);
    YearFromUnique(1, n, y);
    MonthOfDayUnique(y, n - DaysBeforeYear(y), dt.month);
  }

  /** timegm of a real date is in range, and gmtime takes it back to the same date. */
  lemma TimeGmInverse(dt: DateTime)
    requires ValidDateTime(dt)
    ensures InTimeRange(TimeGm(dt))
    ensures GmTime(TimeGm(dt)) == dt
  {
    DayNumberBounds(dt);
    TimeGmSplit(dt);
    SplitSeconds(dt.hour, dt.minute, dt.second);
    DateTimeOfDayInverse(dt);
  }

  // ---- Text form ----------------------------------------------------------------------

  predicate IsDigit(c: char)
  {
    '0' <= c <= '9'
  }

  function DigitValue(c: char): int
  {
    c as int - '0' as int
  }

  function Digit(n: int): char
    requires 0 <= n < 10
  {
    (n + '0' as int) as char
  }

  function Pad2(n: int): string
    requires 0 <= n < 100
  {
    [Digit(n / 10), Digit(n % 10)]
  }

  function Pad4(n: int): string
    requires 0 <= n < 10000
  {
    [Digit(n / 1000), Digit(n / 100 % 10), Digit(n / 10 % 10), Digit(n % 10)]
  }

  /** The number a string of decimal digits denotes, read left to right as `int()` does. */
  function Decimal(digits: string): int
  {
    if digits == [] then 0
    else 10 * Decimal(digits[..|digits| - 1]) + DigitValue(digits[|digits| - 1])
  }

  /** The value of the two decimal digits at `s[i..i+2]`. */
  function Num2(s: string, i: int): int
    requires 0 <= i && i + 2 <= |s|
  {
    Decimal(s[i..i + 2])
  }

  /** The value of the four decimal digits at `s[i..i+4]`. */
  function Num4(s: string, i: int): int
    requires 0 <= i && i + 4 <= |s|
  {
    Decimal(s[i..i + 4])
  }

  predicate DigitsAt(s: string, i: int, len: int)
    requires 0 <= i && i + len <= |s|
  {
    forall j | i <= j < i + len :: IsDigit(s[j])
  }

  /** Text of the shape `DDDD-DD-DD DD:DD:DD GMT`, D a decimal digit. */
  predicate CanonicalShape(s: string)
  {
    && |s| == 23
    && DigitsAt(s, 0, 4) && s[4] == '-'
    && DigitsAt(s, 5, 2) && s[7] == '-'
    && DigitsAt(s, 8, 2) && s[10] == ' '
    && DigitsAt(s, 11, 2) && s[13] == ':'
    && DigitsAt(s, 14, 2) && s[16] == ':'
    && DigitsAt(s, 17, 2) && s[19..] == " GMT"
  }

  /** time.strftime with the format `%Y-%m-%d %H:%M:%S GMT`. */
  function FormatDateTime(dt: DateTime): string
    requires ValidDateTime(dt)
  {
    var y, mo, d := Pad4(dt.year), Pad2(dt.month), Pad2(dt.day);
    var h, mi, s := Pad2(dt.hour), Pad2(dt.minute), Pad2(dt.second);
    [y[0], y[1], y[2], y[3], '-', mo[0], mo[1], '-', d[0], d[1], ' ',
     h[0], h[1], ':', mi[0], mi[1], ':', s[0], s[1], ' ', 'G', 'M', 'T']
  }

  /**
   * time.strptime with the format `%Y-%m-%d %H:%M:%S GMT`: `None` is the ValueError it
   * raises for text of another shape or for a date or time that does not exist.
   */
  function ParseDateTime(s: string): Option<DateTime>
  {
    if !CanonicalShape(s) then None
    else
      var dt := DateTime(Num4(s, 0), Num2(s, 5), Num2(s, 8), Num2(s, 11), Num2(s, 14), Num2(s, 17));
      if ValidDateTime(dt) then Some(dt) else None
  }

  /** One more digit on the right: ten times the value, plus that digit. */
  lemma DecimalSnoc(digits: string, c: char)
    ensures Decimal(digits + [c]) == 10 * Decimal(digits) + DigitValue(c)
  {
    assert (digits + [c])[..|digits|] == digits;
  }

  /** The two-digit field by place value. */
  lemma Num2Value(s: string, i: int)
    requires 0 <= i && i + 2 <= |s|
    ensures Num2(s, i) == 10 * DigitValue(s[i]) + DigitValue(s[i + 1])
  {
    assert s[i..i + 2] == [] + [s[i]] + [s[i + 1]];
    DecimalSnoc([], s[i]);
    DecimalSnoc([s[i]], s[i + 1]);
  }

  /** The four-digit field by place value. */
  lemma Num4Value(s: string, i: int)
    requires 0 <= i && i + 4 <= |s|
    ensures Num4(s, i) == 1000 * DigitValue(s[i]) + 100 * DigitValue(s[i + 1]) + 10 * DigitValue(s[i + 2]) + DigitValue(s[i + 3])
  {
    var a, b, c, d := s[i], s[i + 1], s[i + 2], s[i + 3];
    assert s[i..i + 4] == [a, b, c] + [d];
    DecimalSnoc([], a);
    assert [] + [a] == [a];
    DecimalSnoc([a], b);
    assert [a] + [b] == [a, b];
    DecimalSnoc([a, b], c);
    assert [a, b] + [c] == [a, b, c];
    DecimalSnoc([a, b, c], d);
  }

  lemma DigitInverse(n: int)
    requires 0 <= n < 10
    ensures IsDigit(Digit(n)) && DigitValue(Digit(n)) == n
  {
  }

  lemma DigitValueInverse(c: char)
    requires IsDigit(c)
    ensures 0 <= DigitValue(c) < 10 && Digit(DigitValue(c)) == c
  {
  }

  /** Two padded digits read back as the number they print. */
  lemma Pad2Inverse(n: int, s: string, i: int)
    requires 0 <= n < 100 && 0 <= i && i + 2 <= |s|
    requires s[i] == Pad2(n)[0] && s[i + 1] == Pad2(n)[1]
    ensures DigitsAt(s, i, 2) && Num2(s, i) == n
  {
    DigitInverse(n / 10);
    DigitInverse(n % 10);
    Num2Value(s, i);
  }

  /** Four padded digits read back as the number they print. */
  lemma Pad4Inverse(n: int, s: string)
    requires 0 <= n < 10000 && 4 <= |s|
    requires s[0] == Pad4(n)[0] && s[1] == Pad4(n)[1] && s[2] == Pad4(n)[2] && s[3] == Pad4(n)[3]
    ensures DigitsAt(s, 0, 4) && Num4(s, 0) == n
  {
    DigitInverse(n / 1000);
    DigitInverse(n / 100 % 10);
    DigitInverse(n / 10 % 10);
    DigitInverse(n % 10);
    Num4Value(s, 0);
    var q1 := n / 10;
    var q2 := q1 / 10;
    var q3 := q2 / 10;
    var d0, d1, d2 := n % 10, q1 % 10, q2 % 10;
    assert n == 10 * q1 + d0 && q1 == 10 * q2 + d1 && q2 == 10 * q3 + d2;
    PlaceValue(q2, 10 * d1 + d0, 100);
    PlaceValue(q3, 100 * d2 + 10 * d1 + d0, 1000);
    assert n / 100 == q2 && n / 1000 == q3;
  }

  /** Two decimal digits are the padded print of the number they denote. */
  lemma Num2Inverse(s: string, i: int)
    requires 0 <= i && i + 2 <= |s| && DigitsAt(s, i, 2)
    ensures 0 <= Num2(s, i) < 100
    ensures Pad2(Num2(s, i))[0] == s[i] && Pad2(Num2(s, i))[1] == s[i + 1]
  {
    DigitValueInverse(s[i]);
    DigitValueInverse(s[i + 1]);
    Num2Value(s, i);
  }

  /** Four decimal digits are the padded print of the number they denote. */
  lemma Num4Inverse(s: string)
    requires 4 <= |s| && DigitsAt(s, 0, 4)
    ensures 0 <= Num4(s, 0) < 10000
    ensures var p := Pad4(Num4(s, 0)); p[0] == s[0] && p[1] == s[1] && p[2] == s[2] && p[3] == s[3]
  {
    DigitValueInverse(s[0]);
    DigitValueInverse(s[1]);
    DigitValueInverse(s[2]);
    DigitValueInverse(s[3]);
    Num4Value(s, 0);
    var a, b, c, d := DigitValue(s[0]), DigitValue(s[1]), DigitValue(s[2]), DigitValue(s[3]);
    var n := Num4(s, 0);
    PlaceValue(100 * a + 10 * b + c, d, 10);
    PlaceValue(10 * a + b, 10 * c + d, 100);
    PlaceValue(a, 100 * b + 10 * c + d, 1000);
    PlaceValue(a, b, 10);
    PlaceValue(10 * a + b, c, 10);
    assert n / 1000 == a && n / 100 == 10 * a + b && n / 10 == 100 * a + 10 * b + c && n % 10 == d;
    assert n / 100 % 10 == b && n / 10 % 10 == c;
  }

  /** Division by a power of ten splits off the lower places. */
  lemma PlaceValue(q: int, r: int, b: int)
    requires b == 10 || b == 100 || b == 1000
    requires 0 <= r < b
    ensures (q * b + r) / b == q && (q * b + r) % b == r
  {
  }

  lemma FormatDateTimeShape(dt: DateTime)
    requires ValidDateTime(dt)
    ensures var s := FormatDateTime(dt);
      && CanonicalShape(s)
      && Num4(s, 0) == dt.year && Num2(s, 5) == dt.month && Num2(s, 8) == dt.day
      && Num2(s, 11) == dt.hour && Num2(s, 14) == dt.minute && Num2(s, 17) == dt.second
  {
    var s := FormatDateTime(dt);
    Pad4Inverse(dt.year, s);
    Pad2Inverse(dt.month, s, 5);
    Pad2Inverse(dt.day, s, 8);
    Pad2Inverse(dt.hour, s, 11);
    Pad2Inverse(dt.minute, s, 14);
    Pad2Inverse(dt.second, s, 17);
    assert s[19..] == " GMT";
  }

  /** Parsing the formatted text of a real date gives that date back. */
  lemma ParseFormatted(dt: DateTime)
    requires ValidDateTime(dt)
    ensures ParseDateTime(FormatDateTime(dt)) == Some(dt)
  {
    FormatDateTimeShape(dt);
  }

  /** The parser accepts only the formatter's own output: the text form is canonical. */
  lemma FormatParsed(s: string)
    requires ParseDateTime(s).Some?
    ensures ValidDateTime(ParseDateTime(s).value)
    ensures FormatDateTime(ParseDateTime(s).value) == s
  {
    var dt := ParseDateTime(s).value;
    var f := FormatDateTime(dt);
    Num4Inverse(s);
    Num2Inverse(s, 5);
    Num2Inverse(s, 8);
    Num2Inverse(s, 11);
    Num2Inverse(s, 14);
    Num2Inverse(s, 17);
    assert s[19..] == " GMT";
    assert s[19] == ' ' && s[20] == 'G' && s[21] == 'M' && s[22] == 'T';
    assert |f| == |s|;
    forall j | 0 <= j < 23
      ensures f[j] == s[j]
    {
    }
  }

  /** sec_to_str_time: the stored text of `t` seconds since the epoch. */
  function SecToStrTime(t: int): string
    requires InTimeRange(t)
  {
    GmTimeInverse(t);
    FormatDateTime(GmTime(t))
  }

  /**
   * `calendar.timegm(time.strptime(s, '%Y-%m-%d %H:%M:%S GMT'))`; `None` is the ValueError.
   */
  function StrTimeToSec(s: string): (r: Option<int>)
    ensures r.Some? ==> InTimeRange(r.value)
  {
    match ParseDateTime(s)
    case None => None
    case Some(dt) => TimeGmInverse(dt); Some(TimeGm(dt))
  }

  /** Reading back the stored text of a time gives exactly that time. */
  lemma StrTimeRoundTrip(t: int)
    requires InTimeRange(t)
    ensures StrTimeToSec(SecToStrTime(t)) == Some(t)
  {
    GmTimeInverse(t);
    ParseFormatted(GmTime(t));
  }

  /** Every text the parser accepts is the stored text of the time it denotes. */
  lemma StrTimeCanonical(s: string)
    requires StrTimeToSec(s).Some?
    ensures SecToStrTime(StrTimeToSec(s).value) == s
  {
    var dt := ParseDateTime(s).value;
    FormatParsed(s);
    TimeGmInverse(dt);
  }

  /** The stored text never reads `never`, the display string of a missing watermark. */
  lemma SecToStrTimeNotNever(t: int)
    requires InTimeRange(t)
    ensures SecToStrTime(t) != "never"
  {
    GmTimeInverse(t);
    FormatDateTimeShape(GmTime(t));
  }
}
