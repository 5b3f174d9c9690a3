/**
 * `days_to_ymd` and the time stamp of `iso_now`: from a day number to a date of
 * the proleptic Gregorian calendar that RFC 3339 uses, and from seconds to text.
 *
 * The calendar is defined on its own: leap years (Appendix C of RFC 3339), month
 * lengths (section 5.7), and counting days one year and one month at a time.
 */
module CivilDate {
  import opened Text

  datatype Date = Date(year: int, month: int, day: int)

  // ------------------------------------------------------- the calendar

  predicate IsLeap(y: int) {
    y % 4 == 0 && (y % 100 != 0 || y % 400 == 0)
  }

  function MonthLength(y: int, m: int): int
    requires 1 <= m <= 12
  {
    if m == 2 then (if IsLeap(y) then 29 else 28)
    else if m == 4 || m == 6 || m == 9 || m == 11 then 30
    else 31
  }

  function YearLength(y: int): int {
    if IsLeap(y) then 366 else 365
  }

  predicate IsDate(d: Date) {
    1 <= d.month <= 12 && 1 <= d.day <= MonthLength(d.year, d.month)
  }

  function NextDay(d: Date): Date
    requires IsDate(d)
  {
    if d.day < MonthLength(d.year, d.month) then d.(day := d.day + 1)
    else if d.month < 12 then Date(d.year, d.month + 1, 1)
    else Date(d.year + 1, 1, 1)
  }

  /** Days from 1970-01-01 to January 1 of year `y`. */
  function YearStart(y: int): int
    decreases if y < 1970 then 1970 - y else y - 1970
  {
    if y == 1970 then 0
    else if y > 1970 then YearStart(y - 1) + YearLength(y - 1)
    else YearStart(y + 1) - YearLength(y)
  }

  /** Days from January 1 to the first of month `m`. */
  function MonthStart(y: int, m: int): int
    requires 1 <= m <= 12
    decreases m
  {
    if m == 1 then 0 else MonthStart(y, m - 1) + MonthLength(y, m - 1)
  }

  /** Days from 1970-01-01 to `d`. */
  function DayNumber(d: Date): int
    requires IsDate(d)
  {
    YearStart(d.year) + MonthStart(d.year, d.month) + d.day - 1
  }

  // ------------------------------------------------------ the algorithm

  /** Division rounding toward zero, as the code divides signed integers. */
  function TruncDiv(a: int, b: int): int
    requires b > 0
  {
    if a >= 0 then a / b else -((-a) / b)
  }

  /** The value left by a cast to a 32-bit signed integer. */
  function AsI32(n: int): int {
    (n + 0x8000_0000) % 0x1_0000_0000 - 0x8000_0000
  }

  function Era(z: int): int {
    TruncDiv(if z >= 0 then z else z - 146_096, 146_097)
  }

  function YearOfEra(doe: int): int {
    (doe - doe / 1460 + doe / 36_524 - doe / 146_096) / 365
  }

  /** Days before the `mp`th month of a year that starts in March. */
  function MarchMonthStart(mp: int): int {
    (153 * mp + 2) / 5
  }

  /** The date on day `doy` of the March-based year `y`. */
  function DateInMarchYear(y: int, doy: int): Date {
    var mp := (5 * doy + 2) / 153;
    var m := if mp < 10 then mp + 3 else mp - 9;
    Date(if m <= 2 then y + 1 else y, m, doy - MarchMonthStart(mp) + 1)
  }

  /** `days_to_ymd` before the final casts. */
  function CivilFromDays(days: int): Date {
    var z := days + 719_468;
    var era := Era(z);
    var doe := z - era * 146_097;
    var yoe := YearOfEra(doe);
    DateInMarchYear(yoe + era * 400, doe - (365 * yoe + yoe / 4 - yoe / 100))
  }

  /** `days_to_ymd`. */
  function DaysToYmd(days: int): Date {
    var d := CivilFromDays(days);
    d.(year := AsI32(d.year))
  }

  // ------------------------------------------------ counting whole years

  /** Days from January 1 of year 1 to January 1 of year `y`. */
  function DaysBeforeYear(y: int): int {
    365 * (y - 1) + (y - 1) / 4 - (y - 1) / 100 + (y - 1) / 400
  }

  lemma YearStep(y: int)
    ensures DaysBeforeYear(y + 1) == DaysBeforeYear(y) + YearLength(y)
    ensures DaysBeforeYear(y + 1) == 365 * y + y / 4 - y / 100 + y / 400
  {
    DivStep(y, 4);
    DivStep(y, 100);
    DivStep(y, 400);
  }

  lemma DivStep(y: int, b: int)
    requires b == 4 || b == 100 || b == 400
    ensures y / b == (y - 1) / b + if y % b == 0 then 1 else 0
  {
  }

  lemma {:induction false} YearStartClosed(y: int)
    ensures YearStart(y) == DaysBeforeYear(y) - 719_162
    decreases if y < 1970 then 1970 - y else y - 1970
  {
    if y > 1970 {
      YearStartClosed(y - 1);
      YearStep(y - 1);
    } else if y < 1970 {
      YearStartClosed(y + 1);
      YearStep(y);
    }
  }

  // --------------------------------------------------- within an era

  /** The adjusted truncating division is floor division, also below zero. */
  lemma EraIsFloor(z: int)
    ensures Era(z) == z / 146_097
    ensures 0 <= z - Era(z) * 146_097 < 146_097
  {
  }

  /** A day of an era as centuries, four-year cycles, years and days. */
  lemma SplitEra(doe: int) returns (c: int, q: int, r: int, d: int)
    requires 0 <= doe < 146_097
    ensures 0 <= c <= 3 && 0 <= q <= 24 && 0 <= r <= 3 && 0 <= d <= 365
    ensures doe == 36_524 * c + 1461 * q + 365 * r + d
    ensures d == 365 ==> r == 3 && (q < 24 || c == 3)
  {
    c := if doe / 36_524 < 3 then doe / 36_524 else 3;
    var inCentury := doe - 36_524 * c;
    q := if inCentury / 1461 < 24 then inCentury / 1461 else 24;
    var inCycle := inCentury - 1461 * q;
    r := if inCycle / 365 < 3 then inCycle / 365 else 3;
    d := inCycle - 365 * r;
  }

  /** The year-of-era formula is right on every day of an era. */
  lemma YearOfEraIsRight(c: int, q: int, r: int, d: int)
    requires 0 <= c <= 3 && 0 <= q <= 24 && 0 <= r <= 3 && 0 <= d <= 365
    requires d == 365 ==> r == 3 && (q < 24 || c == 3)
    ensures YearOfEra(36_524 * c + 1461 * q + 365 * r + d) == 100 * c + 4 * q + r
  {
    var doe := 36_524 * c + 1461 * q + 365 * r + d;
    var rest := 24 * c + q + 365 * r + d;
    assert doe == 1460 * (25 * c + q) + rest;
    var e := if rest >= 1460 then 1 else 0;
    assert doe / 1460 == 25 * c + q + e;
    var last := if doe == 146_096 then 1 else 0;
    assert doe / 36_524 == c + last;
    assert doe / 146_096 == last;
  }

  /** The month formula finds the March-based month that contains a day of the year. */
  lemma MonthIsRight(doy: int)
    requires 0 <= doy <= 365
    ensures var mp := (5 * doy + 2) / 153;
            0 <= mp <= 11 && MarchMonthStart(mp) <= doy < MarchMonthStart(mp + 1)
  {
  }

  /** January 1 to March 1, and the March-based starts, against the calendar's month lengths. */
  lemma MonthStarts(y: int, m: int)
    requires 1 <= m <= 12
    ensures m >= 3 ==> MonthStart(y, m) == MarchMonthStart(m - 3) + 59 + (if IsLeap(y) then 1 else 0)
    ensures m <= 2 ==> MonthStart(y, m) == MarchMonthStart(m + 9) - 306
    ensures m >= 3 ==> MonthLength(y, m) == MarchMonthStart(m - 2) - MarchMonthStart(m - 3)
    ensures m == 1 ==> MonthLength(y, m) == MarchMonthStart(11) - MarchMonthStart(10)
  {
    var feb := MonthLength(y, 2);
    assert MonthStart(y, 2) == 31 && MonthStart(y, 3) == 31 + feb && MonthStart(y, 4) == 62 + feb;
    assert MonthStart(y, 5) == 92 + feb && MonthStart(y, 6) == 123 + feb && MonthStart(y, 7) == 153 + feb;
    assert MonthStart(y, 8) == 184 + feb && MonthStart(y, 9) == 215 + feb && MonthStart(y, 10) == 245 + feb;
    assert MonthStart(y, 11) == 276 + feb && MonthStart(y, 12) == 306 + feb;
  }

  lemma Remainder(k: int, b: int, rest: int)
    requires (b == 4 || b == 100 || b == 400) && 0 <= rest < b
    ensures (b * k + rest) % b == rest
  {
  }

  /** The last day of a March-based year of 366 days is the leap day of a leap year. */
  lemma LeapDay(era: int, c: int, q: int, r: int)
    requires 0 <= c <= 3 && 0 <= q <= 24 && r == 3 && (q < 24 || c == 3)
    ensures IsLeap(400 * era + 100 * c + 4 * q + r + 1)
  {
    var y := 400 * era + 100 * c + 4 * q + r + 1;
    assert y % 4 == 0 by {
      Remainder(100 * era + 25 * c + q + 1, 4, 0);
      assert y == 4 * (100 * era + 25 * c + q + 1) + 0;
    }
    if q < 24 {
      Remainder(4 * era + c, 100, 4 * (q + 1));
      assert y == 100 * (4 * era + c) + 4 * (q + 1);
    } else {
      Remainder(era + 1, 400, 0);
      assert y == 400 * (era + 1) + 0;
    }
  }

  /** Where the March-based year `y` starts, relative to January 1 of `y` and of `y + 1`. */
  lemma MarchYear(era: int, c: int, q: int, r: int)
    requires 0 <= c <= 3 && 0 <= q <= 24 && 0 <= r <= 3
    ensures var y := 400 * era + 100 * c + 4 * q + r;
            var start := 146_097 * era + 36_524 * c + 1461 * q + 365 * r - 719_468;
            && YearStart(y + 1) == start + 306
            && YearStart(y) == start - 59 - (if IsLeap(y) then 1 else 0)
  {
    var y := 400 * era + 100 * c + 4 * q + r;
    assert y / 4 == 100 * era + 25 * c + q;
    assert y / 100 == 4 * era + c;
    assert y / 400 == era;
    YearStep(y);
    YearStartClosed(y);
    YearStartClosed(y + 1);
  }

  lemma SplitDays(days: int) returns (era: int, c: int, q: int, r: int, doy: int)
    ensures 0 <= c <= 3 && 0 <= q <= 24 && 0 <= r <= 3 && 0 <= doy <= 365
    ensures doy == 365 ==> r == 3 && (q < 24 || c == 3)
    ensures days == 146_097 * era + 36_524 * c + 1461 * q + 365 * r - 719_468 + doy
    ensures CivilFromDays(days) == DateInMarchYear(400 * era + 100 * c + 4 * q + r, doy)
  {
    var z := days + 719_468;
    EraIsFloor(z);
    era := Era(z);
    var doe := z - era * 146_097;
    c, q, r, doy := EraParts(doe);
    SameDate(days, era, doe, 100 * c + 4 * q + r, doy);
  }

  lemma SameDate(days: int, era: int, doe: int, yoe: int, doy: int)
    requires era == Era(days + 719_468) && doe == days + 719_468 - era * 146_097
    requires yoe == YearOfEra(doe) && doy == doe - (365 * YearOfEra(doe) + YearOfEra(doe) / 4 - YearOfEra(doe) / 100)
    ensures CivilFromDays(days) == DateInMarchYear(400 * era + yoe, doy)
  {
  }

  lemma EraParts(doe: int) returns (c: int, q: int, r: int, doy: int)
    requires 0 <= doe < 146_097
    ensures 0 <= c <= 3 && 0 <= q <= 24 && 0 <= r <= 3 && 0 <= doy <= 365
    ensures doe == 36_524 * c + 1461 * q + 365 * r + doy
    ensures doy == 365 ==> r == 3 && (q < 24 || c == 3)
    ensures YearOfEra(doe) == 100 * c + 4 * q + r
    ensures doe - (365 * YearOfEra(doe) + YearOfEra(doe) / 4 - YearOfEra(doe) / 100) == doy
  {
    c, q, r, doy := SplitEra(doe);
    YearOfEraIsRight(c, q, r, doy);
    YearDays(c, q, r);
  }

  lemma YearDays(c: int, q: int, r: int)
    requires 0 <= c <= 3 && 0 <= q <= 24 && 0 <= r <= 3
    ensures var yoe := 100 * c + 4 * q + r;
            365 * yoe + yoe / 4 - yoe / 100 == 36_524 * c + 1461 * q + 365 * r
  {
    var yoe := 100 * c + 4 * q + r;
    assert yoe / 4 == 25 * c + q && yoe / 100 == c;
  }

  /** Day `doy` of a March-based year is a date, and its day number counts from where that year starts. */
  lemma DateInMarchYearIsRight(era: int, c: int, q: int, r: int, doy: int)
    requires 0 <= c <= 3 && 0 <= q <= 24 && 0 <= r <= 3 && 0 <= doy <= 365
    requires doy == 365 ==> r == 3 && (q < 24 || c == 3)
    ensures var d := DateInMarchYear(400 * era + 100 * c + 4 * q + r, doy);
            && IsDate(d)
            && DayNumber(d) == 146_097 * era + 36_524 * c + 1461 * q + 365 * r - 719_468 + doy
  {
    MarchYear(era, c, q, r);
    if doy == 365 {
      LeapDay(era, c, q, r);
    }
    MonthIsRight(doy);
    var d := DateInMarchYear(400 * era + 100 * c + 4 * q + r, doy);
    MonthStarts(d.year, d.month);
  }

  /** The algorithm returns a date of the calendar, and counting days leads back to its input. */
  lemma CivilFromDaysIsRight(days: int)
    ensures IsDate(CivilFromDays(days)) && DayNumber(CivilFromDays(days)) == days
  {
    var era, c, q, r, doy := SplitDays(days);
    DateInMarchYearIsRight(era, c, q, r, doy);
  }

  // ------------------------------------------------- dates and day numbers

  lemma {:induction false} YearsInOrder(y: int, y': int)
    requires y < y'
    ensures YearStart(y) + YearLength(y) <= YearStart(y')
    decreases y' - y
  {
    YearStartClosed(y);
    YearStartClosed(y + 1);
    YearStep(y);
    if y + 1 < y' {
      YearsInOrder(y + 1, y');
    }
  }

  lemma {:induction false} MonthsInOrder(y: int, m: int, m': int)
    requires 1 <= m < m' <= 12
    ensures MonthStart(y, m) + MonthLength(y, m) <= MonthStart(y, m')
    decreases m'
  {
    if m < m' - 1 {
      MonthsInOrder(y, m, m' - 1);
    }
  }

  lemma WithinYear(d: Date)
    requires IsDate(d)
    ensures YearStart(d.year) <= DayNumber(d) < YearStart(d.year) + YearLength(d.year)
  {
    if 1 < d.month {
      MonthsInOrder(d.year, 1, d.month);
    }
    if d.month < 12 {
      MonthsInOrder(d.year, d.month, 12);
    }
    MonthStarts(d.year, 12);
  }

  /** Different dates have different day numbers. */
  lemma DayNumberInjective(d: Date, d': Date)
    requires IsDate(d) && IsDate(d') && DayNumber(d) == DayNumber(d')
    ensures d == d'
  {
    WithinYear(d);
    WithinYear(d');
    if d.year < d'.year {
      YearsInOrder(d.year, d'.year);
    } else if d'.year < d.year {
      YearsInOrder(d'.year, d.year);
    }
    if d.month < d'.month {
      MonthsInOrder(d.year, d.month, d'.month);
    } else if d'.month < d.month {
      MonthsInOrder(d.year, d'.month, d.month);
    }
  }

  /** Converting a date's day number gives the date back. */
  lemma DaysFromCivilInverse(d: Date)
    requires IsDate(d)
    ensures CivilFromDays(DayNumber(d)) == d
  {
    CivilFromDaysIsRight(DayNumber(d));
    DayNumberInjective(CivilFromDays(DayNumber(d)), d);
  }

  lemma NextDayNumber(d: Date)
    requires IsDate(d)
    ensures IsDate(NextDay(d)) && DayNumber(NextDay(d)) == DayNumber(d) + 1
  {
    if d.day == MonthLength(d.year, d.month) && d.month == 12 {
      YearStartClosed(d.year);
      YearStartClosed(d.year + 1);
      YearStep(d.year);
      MonthStarts(d.year, 12);
    }
  }

  /** The day after is the next date of the calendar. */
  lemma NextDayIsNext(days: int)
    ensures IsDate(CivilFromDays(days)) && CivilFromDays(days + 1) == NextDay(CivilFromDays(days))
  {
    CivilFromDaysIsRight(days);
    CivilFromDaysIsRight(days + 1);
    NextDayNumber(CivilFromDays(days));
    DayNumberInjective(CivilFromDays(days + 1), NextDay(CivilFromDays(days)));
  }

  // ------------------------------------------------------- the final casts

  /** First day of year -2^31, and first day past year 2^31 - 1. */
  const FIRST_DAY: int := -784_353_015_833
  const END_DAY: int := 784_351_576_777

  lemma FirstI32Year()
    ensures YearStart(-0x8000_0000) == FIRST_DAY
  {
    YearStartClosed(-0x8000_0000);
  }

  lemma EndOfI32Years()
    ensures YearStart(0x8000_0000) == END_DAY
  {
    YearStartClosed(0x8000_0000);
  }

  lemma YearFits(d: Date)
    requires IsDate(d)
    ensures FIRST_DAY <= DayNumber(d) < END_DAY <==> -0x8000_0000 <= d.year < 0x8000_0000
  {
    WithinYear(d);
    FirstI32Year();
    EndOfI32Years();
    if d.year < -0x8000_0000 {
      YearsInOrder(d.year, -0x8000_0000);
    } else if -0x8000_0000 < d.year {
      YearsInOrder(-0x8000_0000, d.year);
    }
    if d.year < 0x8000_0000 {
      YearsInOrder(d.year, 0x8000_0000);
    } else if 0x8000_0000 < d.year {
      YearsInOrder(0x8000_0000, d.year);
    }
  }

  lemma CastKeepsDate(d: Date)
    requires IsDate(d)
    ensures FIRST_DAY <= DayNumber(d) < END_DAY <==> AsI32(d.year) == d.year
  {
    YearFits(d);
  }

  /** `days_to_ymd` returns the date with this day number exactly when its year fits 32 bits. */
  lemma DaysToYmdIsRight(days: int)
    ensures FIRST_DAY <= days < END_DAY <==> DaysToYmd(days) == CivilFromDays(days)
    ensures FIRST_DAY <= days < END_DAY ==> IsDate(DaysToYmd(days)) && DayNumber(DaysToYmd(days)) == days
  {
    CivilFromDaysIsRight(days);
    CastKeepsDate(CivilFromDays(days));
  }

  // -------------------------------------------------------- the time stamp

  /** A number formatted with at least `width` characters, the sign included. */
  function Padded(n: int, width: nat): string
    requires width > 0
  {
    if n >= 0 then ZeroPad(Decimal(n), width) else "-" + ZeroPad(Decimal(-n), width - 1)
  }

  /** The text of second `rem` of date `d`. */
  function Stamp(d: Date, rem: nat): string {
    Padded(d.year, 4) + "-" + Padded(d.month, 2) + "-" + Padded(d.day, 2) + "T"
    + Padded(rem / 3600, 2) + ":" + Padded(rem % 3600 / 60, 2) + ":" + Padded(rem % 60, 2) + "Z"
  }

  /** `iso_now` at `secs` seconds past the epoch. */
  function IsoText(secs: nat): string {
    Stamp(DaysToYmd(secs / 86_400), secs % 86_400)
  }

  /** The number two digits denote, or -1. */
  function TwoDigitValue(t: string): int
    requires |t| == 2
  {
    if IsDigit(t[0]) && IsDigit(t[1]) then 10 * DigitValue(t[0]) + DigitValue(t[1]) else -1
  }

  /** The two-digit field of `s` at `i`; section 5.6 of RFC 3339 lays the fields out. */
  function Field(s: string, i: nat): int
    requires i + 2 <= |s|
  {
    TwoDigitValue(s[i..i + 2])
  }

  /** The seconds past the epoch that a `YYYY-MM-DDThh:mm:ssZ` text denotes, or -1. */
  function IsoSeconds(s: string): int {
    if |s| != 20 || s[4] != '-' || s[7] != '-' || s[10] != 'T' || s[13] != ':' || s[16] != ':' || s[19] != 'Z' then -1
    else
      var d := Date(100 * Field(s, 0) + Field(s, 2), Field(s, 5), Field(s, 8));
      var hour, minute, second := Field(s, 11), Field(s, 14), Field(s, 17);
      if Field(s, 0) < 0 || Field(s, 2) < 0 || !IsDate(d)
         || !(0 <= hour < 24 && 0 <= minute < 60 && 0 <= second < 60) then -1
      else DayNumber(d) * 86_400 + hour * 3600 + minute * 60 + second
  }

  /** Padding digit by digit. */
  lemma PadStep(n: nat, width: nat)
    requires width >= 2
    ensures Padded(n, width) == Padded(n / 10, width - 1) + [Digit(n % 10)]
  {
    if n < 10 {
      PadKeepsLast("", Digit(n), width);
      assert "" + [Digit(n)] == Decimal(n);
      assert "0" + "" == Decimal(0);
    } else {
      PadKeepsLast(Decimal(n / 10), Digit(n % 10), width);
    }
  }

  lemma TwoDigits(n: int)
    requires 0 <= n < 100
    ensures Padded(n, 2) == [Digit(n / 10), Digit(n % 10)]
  {
    PadStep(n, 2);
  }

  lemma FourDigits(n: int)
    requires 0 <= n < 10_000
    ensures Padded(n, 4) == Padded(n / 100, 2) + Padded(n % 100, 2)
  {
    PadStep(n, 4);
    PadStep(n / 10, 3);
    TwoDigits(n / 100);
    TwoDigits(n % 100);
    assert n / 10 / 10 == n / 100 && n / 10 % 10 == n % 100 / 10;
  }

  lemma {:induction false} LongYear(n: nat)
    requires n >= 10_000
    ensures |Padded(n, 4)| > 4
  {
    var a := n / 10;
    var b := a / 10;
    var c := b / 10;
    assert c >= 10;
    assert |Decimal(c)| >= 2 && |Decimal(b)| >= 3 && |Decimal(a)| >= 4;
  }

  lemma ReadTwo(n: int)
    requires 0 <= n < 100
    ensures |Padded(n, 2)| == 2 && TwoDigitValue(Padded(n, 2)) == n
  {
    TwoDigits(n);
  }

  function Joined(yy: string, y: string, mo: string, d: string, h: string, mi: string, sec: string): string {
    yy + y + "-" + mo + "-" + d + "T" + h + ":" + mi + ":" + sec + "Z"
  }

  lemma DateLayout(yy: string, y: string, mo: string, d: string)
    requires |yy| == |y| == |mo| == |d| == 2
    ensures var s := yy + y + "-" + mo + "-" + d;
            && |s| == 10 && s[4] == '-' && s[7] == '-'
            && s[0..2] == yy && s[2..4] == y && s[5..7] == mo && s[8..10] == d
  {
  }

  lemma TimeLayout(h: string, mi: string, sec: string)
    requires |h| == |mi| == |sec| == 2
    ensures var s := h + ":" + mi + ":" + sec + "Z";
            && |s| == 9 && s[2] == ':' && s[5] == ':' && s[8] == 'Z'
            && s[0..2] == h && s[3..5] == mi && s[6..8] == sec
  {
  }

  /** The layout of a time stamp, field by field. */
  lemma Layout(yy: string, y: string, mo: string, d: string, h: string, mi: string, sec: string)
    requires |yy| == |y| == |mo| == |d| == |h| == |mi| == |sec| == 2
    ensures var s := Joined(yy, y, mo, d, h, mi, sec);
            && |s| == 20
            && s[4] == '-' && s[7] == '-' && s[10] == 'T' && s[13] == ':' && s[16] == ':' && s[19] == 'Z'
            && s[0..2] == yy && s[2..4] == y && s[5..7] == mo && s[8..10] == d
            && s[11..13] == h && s[14..16] == mi && s[17..19] == sec
  {
    var date, time := yy + y + "-" + mo + "-" + d, h + ":" + mi + ":" + sec + "Z";
    var s := Joined(yy, y, mo, d, h, mi, sec);
    assert s == date + "T" + time;
    DateLayout(yy, y, mo, d);
    TimeLayout(h, mi, sec);
    assert s[0..2] == date[0..2] && s[2..4] == date[2..4] && s[5..7] == date[5..7] && s[8..10] == date[8..10];
    assert s[11..13] == time[0..2] && s[14..16] == time[3..5] && s[17..19] == time[6..8];
  }

  /** Year 10000 starts 253402300800 seconds past the epoch. */
  lemma FourDigitYears(d: Date)
    requires IsDate(d)
    ensures DayNumber(d) < 2_932_897 <==> d.year < 10_000
    ensures DayNumber(d) >= 0 <==> d.year >= 1970
  {
    WithinYear(d);
    YearStartClosed(10_000);
    YearStartClosed(1970);
    if d.year < 10_000 {
      YearsInOrder(d.year, 10_000);
    } else if 10_000 < d.year {
      YearsInOrder(10_000, d.year);
    }
    if d.year < 1970 {
      YearsInOrder(d.year, 1970);
    } else if 1970 < d.year {
      YearsInOrder(1970, d.year);
    }
  }

  /** Any second of any date up to year 9999 is read back from its text; later years do not fit. */
  lemma StampIsRead(d: Date, rem: nat)
    requires IsDate(d) && 0 <= d.year && rem < 86_400
    ensures d.year < 10_000 ==> |Stamp(d, rem)| == 20 && IsoSeconds(Stamp(d, rem)) == DayNumber(d) * 86_400 + rem
    ensures d.year >= 10_000 ==> |Stamp(d, rem)| > 20
  {
    var h, mi, sec := rem / 3600, rem % 3600 / 60, rem % 60;
    assert rem == h * 3600 + mi * 60 + sec;
    ReadTwo(d.month);
    ReadTwo(d.day);
    ReadTwo(h);
    ReadTwo(mi);
    ReadTwo(sec);
    if d.year < 10_000 {
      FourDigits(d.year);
      ReadTwo(d.year / 100);
      ReadTwo(d.year % 100);
      Layout(Padded(d.year / 100, 2), Padded(d.year % 100, 2), Padded(d.month, 2), Padded(d.day, 2),
             Padded(h, 2), Padded(mi, 2), Padded(sec, 2));
    } else {
      LongYear(d.year);
    }
  }

  lemma StampOfSecond(d: Date, secs: nat)
    requires IsDate(d) && DayNumber(d) == secs / 86_400
    ensures secs < 253_402_300_800 <==> |Stamp(d, secs % 86_400)| == 20
    ensures secs < 253_402_300_800 ==> IsoSeconds(Stamp(d, secs % 86_400)) == secs
  {
    FourDigitYears(d);
    StampIsRead(d, secs % 86_400);
  }

  /** No text of the format denotes a second of year 10000 or later. */
  lemma IsoSecondsBounded(s: string)
    ensures IsoSeconds(s) < 253_402_300_800
  {
    if IsoSeconds(s) >= 0 {
      var d := Date(100 * Field(s, 0) + Field(s, 2), Field(s, 5), Field(s, 8));
      FourDigitYears(d);
    }
  }

  /**
   * Reading a time stamp of `iso_now` gives the clock's seconds back exactly through year
   * 9999, for every clock value. From year 10000 on the text is longer than the format allows,
   * until the year no longer fits 32 bits and the text may denote another time.
   */
  lemma IsoRoundTrip(secs: nat)
    ensures IsoSeconds(IsoText(secs)) == secs <==> secs < 253_402_300_800
    ensures secs < END_DAY * 86_400 ==> (|IsoText(secs)| == 20 <==> secs < 253_402_300_800)
  {
    IsoSecondsBounded(IsoText(secs));
    if secs < END_DAY * 86_400 {
      DaysToYmdIsRight(secs / 86_400);
      StampOfSecond(DaysToYmd(secs / 86_400), secs);
    }
  }

  /** The fields of a time stamp through year 9999, digit groups read as numbers. */
  lemma StampFields(secs: nat)
    requires secs < 253_402_300_800
    ensures var s, d := IsoText(secs), CivilFromDays(secs / 86_400);
            && |s| == 20
            && s[4] == '-' && s[7] == '-' && s[10] == 'T' && s[13] == ':' && s[16] == ':' && s[19] == 'Z'
            && 100 * TwoDigitValue(s[0..2]) + TwoDigitValue(s[2..4]) == d.year
            && TwoDigitValue(s[5..7]) == d.month && TwoDigitValue(s[8..10]) == d.day
            && TwoDigitValue(s[11..13]) == secs / 3600 % 24
            && TwoDigitValue(s[14..16]) == secs / 60 % 60
            && TwoDigitValue(s[17..19]) == secs % 60
  {
    var d, rem := CivilFromDays(secs / 86_400), secs % 86_400;
    CivilFromDaysIsRight(secs / 86_400);
    FourDigitYears(d);
    DaysToYmdIsRight(secs / 86_400);
    var h, mi, sec := rem / 3600, rem % 3600 / 60, rem % 60;
    ClockFields(secs);
    ReadTwo(d.month);
    ReadTwo(d.day);
    ReadTwo(h);
    ReadTwo(mi);
    ReadTwo(sec);
    FourDigits(d.year);
    ReadTwo(d.year / 100);
    ReadTwo(d.year % 100);
    Layout(Padded(d.year / 100, 2), Padded(d.year % 100, 2), Padded(d.month, 2), Padded(d.day, 2),
           Padded(h, 2), Padded(mi, 2), Padded(sec, 2));
  }

  /** Hours, minutes and seconds of the day, taken from the day's rest or from the whole count. */
  lemma ClockFields(secs: nat)
    ensures var rem := secs % 86_400;
            && rem / 3600 == secs / 3600 % 24
            && rem % 3600 / 60 == secs / 60 % 60
            && rem % 60 == secs % 60
  {
    var d, rem := secs / 86_400, secs % 86_400;
    assert secs == 86_400 * d + rem;
    HourOfDay(d, rem);
    MinuteOfHour(d, rem);
  }

  lemma Sixty(x: nat, r: nat)
    requires r < 60
    ensures (60 * x + r) / 60 == x && (60 * x + r) % 60 == r
  {
  }

  lemma HourOfDay(d: nat, rem: nat)
    requires rem < 86_400
    ensures (86_400 * d + rem) / 3600 % 24 == rem / 3600
  {
    var h, r := rem / 3600, rem % 3600;
    assert 86_400 * d + rem == 3600 * (24 * d + h) + r;
    assert (86_400 * d + rem) / 3600 == 24 * d + h;
  }

  lemma MinuteOfHour(d: nat, rem: nat)
    requires rem < 86_400
    ensures (86_400 * d + rem) / 60 % 60 == rem % 3600 / 60
  {
    var h, mi, r := rem / 3600, rem % 3600 / 60, rem % 60;
    var minutes := 60 * (24 * d + h) + mi;
    assert 86_400 * d + rem == 60 * minutes + r;
    Sixty(minutes, r);
    Sixty(24 * d + h, mi);
  }

  lemma KnownDate()
    ensures DaysToYmd(19_675) == Date(2023, 11, 14)
  {
    assert Era(739_143) == 5 && YearOfEra(8658) == 23;
    assert DateInMarchYear(2023, 258) == Date(2023, 11, 14);
  }

  lemma KnownDigits()
    ensures Padded(2023, 4) == "2023" && Padded(11, 2) == "11" && Padded(14, 2) == "14"
    ensures Padded(22, 2) == "22" && Padded(13, 2) == "13" && Padded(20, 2) == "20"
  {
    FourDigits(2023);
    TwoDigits(20);
    TwoDigits(23);
    TwoDigits(11);
    TwoDigits(14);
    TwoDigits(22);
    TwoDigits(13);
    assert Padded(20, 2) + Padded(23, 2) == "2023";
  }

  /** One second of one date, written out. */
  lemma KnownStamp()
    ensures IsoText(1_700_000_000) == "2023-11-14T22:13:20Z"
  {
    KnownDate();
    KnownDigits();
    var date, rem := Date(2023, 11, 14), 80_000;
    assert 1_700_000_000 / 86_400 == 19_675 && 1_700_000_000 % 86_400 == rem;
    assert rem / 3600 == 22 && rem % 3600 / 60 == 13 && rem % 60 == 20;
    assert Stamp(date, rem) == "2023" + "-" + "11" + "-" + "14" + "T" + "22" + ":" + "13" + ":" + "20" + "Z";
  }
}
