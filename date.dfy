/** Calendar dates stored as a Julian Day Number (base/Date.h, base/Date.cc).
    The conversions are the integer formulas of the calendar FAQ the source
    cites; C `int` division truncates toward zero, written `CDiv`. */
module Dates {
  import opened Common

  /** `Date::YearMonthDay`. */
  datatype YearMonthDay = YearMonthDay(year: int, month: int, day: int)

  /** `struct tm`, reduced to the three fields the date constructor reads:
      years since 1900, months since January, day of the month. */
  datatype Tm = Tm(tmYear: int, tmMon: int, tmMday: int)

  /** A `Date` holds only its Julian Day Number; `Date(int)` is the
      constructor itself. */
  datatype Date = Date(julianDayNumber: int)
  {
    /** `yearMonthDay()`. */
    function ToYearMonthDay(): YearMonthDay
    {
      YearMonthDayOf(julianDayNumber)
    }

    function Year(): int
    {
      ToYearMonthDay().year
    }

    function Month(): int
    {
      ToYearMonthDay().month
    }

    function Day(): int
    {
      ToYearMonthDay().day
    }

    /** `weekDay()` as written: the day number plus 4, modulo 7 with C's
        remainder. */
    function WeekDay(): int
    {
      CRem(julianDayNumber + 4, 7)
    }

    /** The day of the week, 0 for Sunday, with the offset that puts
        1970-01-01 on a Thursday. */
    function CorrectedWeekDay(): int
    {
      CRem(julianDayNumber + 1, 7)
    }
  }

  /** `Date()`: day number 0, whatever today is. */
  const DefaultDate := Date(0)

  /** `Date(year, month, day)`. */
  function FromYearMonthDay(year: int, month: int, day: int): Date
  {
    Date(JulianDayNumber(year, month, day))
  }

  /** `Date(const struct tm&)`: years since 1900 and months from 0. */
  function FromTm(t: Tm): Date
  {
    Date(JulianDayNumber(t.tmYear + 1900, t.tmMon + 1, t.tmMday))
  }

  /** `operator<`; `operator==` is the equality of the datatype, which
      compares the day numbers. */
  predicate Less(x: Date, y: Date)
  {
    x.julianDayNumber < y.julianDayNumber
  }

  // ---------------------------------------------------------------------
  // The Gregorian calendar, as an independent reference.

  predicate IsLeapYear(y: int)
  {
    y % 4 == 0 && (y % 100 != 0 || y % 400 == 0)
  }

  function DaysInMonth(y: int, m: int): int
    requires 1 <= m <= 12
  {
    if m == 2 then (if IsLeapYear(y) then 29 else 28)
    else if m == 4 || m == 6 || m == 9 || m == 11 then 30
    else 31
  }

  predicate ValidDate(ymd: YearMonthDay)
  {
    1 <= ymd.month <= 12 && 1 <= ymd.day <= DaysInMonth(ymd.year, ymd.month)
  }

  /** The calendar day after `ymd`. */
  function NextDay(ymd: YearMonthDay): (r: YearMonthDay)
    requires ValidDate(ymd)
    ensures ValidDate(r)
  {
    if ymd.day < DaysInMonth(ymd.year, ymd.month) then ymd.(day := ymd.day + 1)
    else if ymd.month < 12 then YearMonthDay(ymd.year, ymd.month + 1, 1)
    else YearMonthDay(ymd.year + 1, 1, 1)
  }

  /** 4800 years are twelve whole 400-year cycles of the leap rule. */
  lemma LeapYearShift(year: int)
    ensures IsLeapYear(year + 4800) == IsLeapYear(year)
  {
    RemainderShift(year, 4, 1200);
    RemainderShift(year, 100, 48);
    RemainderShift(year, 400, 12);
  }

  /** Adding whole multiples of `k` leaves the remainder alone. */
  lemma RemainderShift(n: int, k: int, t: int)
    requires k > 0
    ensures (n + k * t) % k == n % k
  {
    var q, r := n / k, n % k;
    assert n + k * t == k * (q + t) + r;
    DivisionUnique(n + k * t, k, q + t, r);
  }

  /** Calendar order: by year, then month, then day. */
  predicate Before(x: YearMonthDay, y: YearMonthDay)
  {
    x.year < y.year || (x.year == y.year && (x.month < y.month || (x.month == y.month && x.day < y.day)))
  }

  // ---------------------------------------------------------------------
  // The two conversions.

  /** `getJulianDayNumber`. */
  function JulianDayNumber(year: int, month: int, day: int): int
  {
    var a := CDiv(14 - month, 12);
    var y := year + 4800 - a;
    var m := month + 12 * a - 3;
    day + CDiv(153 * m + 2, 5) + y * 365 + CDiv(y, 4) - CDiv(y, 100) + CDiv(y, 400) - 32045
  }

  /** `getYearMonthDay`. */
  function YearMonthDayOf(julianDayNumber: int): YearMonthDay
  {
    var a := julianDayNumber + 32044;
    var b := CDiv(4 * a + 3, 146097);
    var c := a - CDiv(146097 * b, 4);
    var d := CDiv(4 * c + 3, 1461);
    var e := c - CDiv(1461 * d, 4);
    var m := CDiv(5 * e + 2, 153);
    YearMonthDay(100 * b + d - 4800 + CDiv(m, 10), m + 3 - 12 * CDiv(m, 10), e - CDiv(153 * m + 2, 5) + 1)
  }

  // ---------------------------------------------------------------------
  // The March-based year behind both formulas: the year starts on March 1,
  // so February, with its leap day, comes last.

  /** Days in the March-based years before year `y`: 365 each plus the
      leap days. */
  function DaysBefore(y: int): int
  {
    365 * y + y / 4 - y / 100 + y / 400
  }

  /** Days from March 1 to the first of March-based month `mm` (0 = March). */
  function MonthOffset(mm: int): int
  {
    (153 * mm + 2) / 5
  }

  /** Whether March-based year `y` (counted from 4800 BC) ends with a
      29-day February; 4800 is a multiple of 400, so this is the leap rule
      applied to `y + 1`. */
  predicate MarchYearIsLong(y: int)
  {
    IsLeapYear(y + 1)
  }

  /** Within a March-based year: day `dd` (from 0) of the year falls in
      month `mm` at day `dd - MonthOffset(mm) + 1`. */
  lemma DayOfMarchYear(mm: int, day: int)
    requires 0 <= mm <= 11
    requires 1 <= day && (if mm == 11 then day <= 29 else MonthOffset(mm) + day <= MonthOffset(mm + 1))
    ensures (5 * (MonthOffset(mm) + day - 1) + 2) / 153 == mm
  {
    if mm == 0 {} else if mm == 1 {} else if mm == 2 {} else if mm == 3 {}
    else if mm == 4 {} else if mm == 5 {} else if mm == 6 {} else if mm == 7 {}
    else if mm == 8 {} else if mm == 9 {} else if mm == 10 {} else {}
  }

  /** Splitting a day count at a 400-year cycle boundary: for `a` made of
      `y` whole March-based years and `dd` further days, the century and
      the year in it come back, and so does `dd`. */
  lemma YearsOfDayCount(y: int, dd: int)
    requires y >= 0 && 0 <= dd
    requires dd <= 364 || (dd == 365 && MarchYearIsLong(y))
    ensures var a := DaysBefore(y) + dd;
      var c := a - (146097 * (y / 100)) / 4;
      a >= 0 && c >= 0 && (4 * a + 3) / 146097 == y / 100 && (4 * c + 3) / 1461 == y % 100 && c - (1461 * (y % 100)) / 4 == dd
  {
    var cc := y / 100;
    var yy := y % 100;
    assert y == 100 * cc + yy;
    assert y / 4 == 25 * cc + yy / 4;
    assert y / 400 == cc / 4;
    var c := 365 * yy + yy / 4 + dd;
    var a := DaysBefore(y) + dd;
    assert a == 36524 * cc + cc / 4 + c;
    assert (146097 * cc) / 4 == 36524 * cc + cc / 4;
    CenturyOf(cc, c, yy, dd);
    assert (4 * a + 3) / 146097 == cc;
    assert (1461 * yy) / 4 == 365 * yy + yy / 4;
    YearOfCentury(yy, dd, cc);
  }

  lemma CenturyOf(cc: int, c: int, yy: int, dd: int)
    requires cc >= 0 && 0 <= yy <= 99 && 0 <= dd
    requires c == 365 * yy + yy / 4 + dd
    requires dd <= 364 || (dd == 365 && IsLeapYear(100 * cc + yy + 1))
    ensures (4 * (36524 * cc + cc / 4 + c) + 3) / 146097 == cc
  {
    if c == 36524 {
      assert yy == 99 && dd == 365;
      assert (100 * cc + 100) % 400 == 0;
      assert cc % 4 == 3;
    }
  }

  lemma YearOfCentury(yy: int, dd: int, cc: int)
    requires 0 <= yy <= 99 && 0 <= dd
    requires dd <= 364 || (dd == 365 && IsLeapYear(100 * cc + yy + 1))
    ensures (4 * (365 * yy + yy / 4 + dd) + 3) / 1461 == yy
  {
    if dd == 365 {
      assert (100 * cc + yy + 1) % 4 == 0;
      assert yy % 4 == 3;
    }
  }

  /** 1 for January and February, which belong to the previous March-based
      year, else 0: the value of `(14 - month) / 12`. */
  function MarchShift(month: int): int
  {
    if month <= 2 then 1 else 0
  }

  /** The March-based coordinates of a calendar date: the year counted
      from 4800 BC, the month from March = 0, and the day of that year
      from 0. */
  function MarchYear(ymd: YearMonthDay): int
  {
    ymd.year + 4800 - MarchShift(ymd.month)
  }

  function MarchMonth(ymd: YearMonthDay): int
  {
    ymd.month + 12 * MarchShift(ymd.month) - 3
  }

  function MarchDay(ymd: YearMonthDay): int
  {
    MonthOffset(MarchMonth(ymd)) + ymd.day - 1
  }

  /** `getJulianDayNumber` counts the days before the March-based year
      (365 a year plus the leap days) and the days into it. */
  lemma JulianDayNumberInMarchYears(ymd: YearMonthDay)
    requires 1 <= ymd.month <= 12 && MarchYear(ymd) >= 0
    ensures JulianDayNumber(ymd.year, ymd.month, ymd.day) == DaysBefore(MarchYear(ymd)) + MarchDay(ymd) - 32044
  {
    assert CDiv(14 - ymd.month, 12) == MarchShift(ymd.month);
    var y := MarchYear(ymd);
    var mm := MarchMonth(ymd);
    assert 0 <= mm <= 11;
    assert CDiv(153 * mm + 2, 5) == MonthOffset(mm);
    assert CDiv(y, 4) == y / 4 && CDiv(y, 100) == y / 100 && CDiv(y, 400) == y / 400;
  }

  /** The day of a valid date within its March-based year is in range. */
  lemma MarchDayInYear(ymd: YearMonthDay)
    requires ValidDate(ymd) && ymd.year >= -4799
    ensures MarchYear(ymd) >= 0 && 0 <= MarchMonth(ymd) <= 11 && 0 <= MarchDay(ymd)
    ensures MarchDay(ymd) <= 364 || (MarchDay(ymd) == 365 && MarchYearIsLong(MarchYear(ymd)))
  {
    if MarchMonth(ymd) == 11 {
      LeapYearShift(ymd.year);
    }
  }

  /** The month formula of `getYearMonthDay` recovers the March-based month
      from the day of the year. */
  lemma MarchMonthOfDay(ymd: YearMonthDay)
    requires ValidDate(ymd)
    ensures (5 * MarchDay(ymd) + 2) / 153 == MarchMonth(ymd)
    ensures MarchMonth(ymd) / 10 == MarchShift(ymd.month)
  {
    DayOfMarchYear(MarchMonth(ymd), ymd.day);
  }

  /** C division equals Euclidean division on nonnegative operands. */
  lemma CDivNonnegative(a: int, b: int)
    requires a >= 0 && b > 0
    ensures CDiv(a, b) == a / b
  {
  }

  /** The steps of `getYearMonthDay` on a day number from 4713 BC on
      (`j + 32044 >= 0`), where every C division is a Euclidean one. */
  lemma YearMonthDayOfSteps(j: int, b: int, c: int, d: int, e: int, m: int, y: int)
    requires j + 32044 >= 0 && b >= 0 && c >= 0 && d >= 0 && e >= 0 && m >= 0 && y == 100 * b + d
    requires b == (4 * (j + 32044) + 3) / 146097
    requires c == j + 32044 - (146097 * b) / 4
    requires d == (4 * c + 3) / 1461
    requires e == c - (1461 * d) / 4
    requires m == (5 * e + 2) / 153
    ensures YearMonthDayOf(j) == YearMonthDay(y - 4800 + m / 10, m + 3 - 12 * (m / 10), e - MonthOffset(m) + 1)
  {
    CDivNonnegative(4 * (j + 32044) + 3, 146097);
    CDivNonnegative(146097 * b, 4);
    CDivNonnegative(4 * c + 3, 1461);
    CDivNonnegative(1461 * d, 4);
    CDivNonnegative(5 * e + 2, 153);
    CDivNonnegative(m, 10);
    CDivNonnegative(153 * m + 2, 5);
  }

  /** `getYearMonthDay` on a day count split into March-based years `y`,
      month `mm` and day of year `dd`. */
  lemma YearMonthDayOfMarch(j: int, y: int, mm: int, dd: int)
    requires j == DaysBefore(y) + dd - 32044 && y >= 0 && 0 <= mm <= 11 && 0 <= dd
    requires dd <= 364 || (dd == 365 && MarchYearIsLong(y))
    requires (5 * dd + 2) / 153 == mm
    ensures YearMonthDayOf(j) == YearMonthDay(y - 4800 + mm / 10, mm + 3 - 12 * (mm / 10), dd - MonthOffset(mm) + 1)
  {
    YearsOfDayCount(y, dd);
    var a := DaysBefore(y) + dd;
    var c := a - (146097 * (y / 100)) / 4;
    YearMonthDayOfSteps(j, y / 100, c, y % 100, dd, mm, y);
  }

  /** Going from the March-based coordinates back to the calendar. */
  lemma MarchCoordinatesInverse(ymd: YearMonthDay)
    requires ValidDate(ymd)
    ensures var y, mm, dd := MarchYear(ymd), MarchMonth(ymd), MarchDay(ymd);
      YearMonthDay(y - 4800 + mm / 10, mm + 3 - 12 * (mm / 10), dd - MonthOffset(mm) + 1) == ymd
  {
  }

  /** `getYearMonthDay` recovers a valid date from its March-based day
      count. */
  lemma YearMonthDayOfDayCount(ymd: YearMonthDay, j: int)
    requires ValidDate(ymd) && ymd.year >= -4799
    requires j == DaysBefore(MarchYear(ymd)) + MarchDay(ymd) - 32044
    ensures YearMonthDayOf(j) == ymd
  {
    MarchDayInYear(ymd);
    MarchMonthOfDay(ymd);
    YearMonthDayOfMarch(j, MarchYear(ymd), MarchMonth(ymd), MarchDay(ymd));
    MarchCoordinatesInverse(ymd);
  }

  /** `getYearMonthDay` undoes `getJulianDayNumber` on every valid date
      from 4799 BC on, the documented years 1900 to 2500 included. */
  lemma YearMonthDayRoundTrip(ymd: YearMonthDay)
    requires ValidDate(ymd) && ymd.year >= -4799
    ensures YearMonthDayOf(JulianDayNumber(ymd.year, ymd.month, ymd.day)) == ymd
  {
    JulianDayNumberInMarchYears(ymd);
    YearMonthDayOfDayCount(ymd, JulianDayNumber(ymd.year, ymd.month, ymd.day));
  }

  // ---------------------------------------------------------------------
  // The day after, and calendar order.

  /** Within a March-based year, months 0 to 10 (March to January) are
      as long as the distance between their offsets. */
  lemma MonthOffsetStep(mm: int, year: int)
    requires 0 <= mm <= 10
    ensures MonthOffset(mm + 1) - MonthOffset(mm) == DaysInMonth(year, mm + 3 - 12 * (mm / 10))
  {
    if mm == 0 {} else if mm == 1 {} else if mm == 2 {} else if mm == 3 {}
    else if mm == 4 {} else if mm == 5 {} else if mm == 6 {} else if mm == 7 {}
    else if mm == 8 {} else if mm == 9 {} else {}
  }

  /** A March-based year has 365 days, plus one when its February is long. */
  lemma DaysBeforeStep(y: int)
    requires y >= 0
    ensures DaysBefore(y + 1) == DaysBefore(y) + 365 + (if MarchYearIsLong(y) then 1 else 0)
  {
    DivisionStep(y, 4);
    DivisionStep(y, 100);
    DivisionStep(y, 400);
    var i4 := if (y + 1) % 4 == 0 then 1 else 0;
    var i100 := if (y + 1) % 100 == 0 then 1 else 0;
    var i400 := if (y + 1) % 400 == 0 then 1 else 0;
    assert DaysBefore(y + 1) == DaysBefore(y) + 365 + i4 - i100 + i400;
    LeapDays(y + 1);
  }

  /** The leap rule as the count of multiples of 4, 100 and 400. */
  lemma LeapDays(n: int)
    ensures (if n % 4 == 0 then 1 else 0) - (if n % 100 == 0 then 1 else 0) + (if n % 400 == 0 then 1 else 0) ==
            (if IsLeapYear(n) then 1 else 0)
  {
    if n % 400 == 0 {
      var t := n / 400;
      assert n == 100 * (4 * t) && n == 4 * (100 * t);
    } else if n % 100 == 0 {
      var t := n / 100;
      assert n == 4 * (25 * t);
    }
  }

  /** Counting one year further: the number of multiples of `k` grows
      exactly when `k` divides the new count. */
  lemma DivisionStep(y: int, k: int)
    requires y >= 0 && (k == 4 || k == 100 || k == 400)
    ensures (y + 1) / k == y / k + (if (y + 1) % k == 0 then 1 else 0)
  {
    if k == 4 {
    } else if k == 100 {
    } else {
    }
  }

  lemma {:induction false} DaysBeforeMonotone(y: int, z: int)
    requires 0 <= y <= z
    ensures DaysBefore(y) + 365 * (z - y) <= DaysBefore(z)
    decreases z - y
  {
    if y < z {
      DaysBeforeStep(y);
      DaysBeforeMonotone(y + 1, z);
    }
  }

  /** The March-based day count of the day after a valid date is one
      larger. */
  lemma NextDayCount(ymd: YearMonthDay)
    requires ValidDate(ymd) && ymd.year >= -4799
    ensures DaysBefore(MarchYear(NextDay(ymd))) + MarchDay(NextDay(ymd)) == DaysBefore(MarchYear(ymd)) + MarchDay(ymd) + 1
  {
    if ymd.day < DaysInMonth(ymd.year, ymd.month) {
    } else if ymd.month == 2 {
      EndOfFebruary(ymd);
    } else {
      EndOfMonth(ymd);
    }
  }

  /** After the last day of February a new March-based year starts. */
  lemma EndOfFebruary(ymd: YearMonthDay)
    requires ValidDate(ymd) && ymd.year >= -4799 && ymd.month == 2 && ymd.day == DaysInMonth(ymd.year, 2)
    ensures DaysBefore(MarchYear(NextDay(ymd))) + MarchDay(NextDay(ymd)) == DaysBefore(MarchYear(ymd)) + MarchDay(ymd) + 1
  {
    var y := MarchYear(ymd);
    assert MarchYear(NextDay(ymd)) == y + 1 && MarchDay(NextDay(ymd)) == 0;
    LeapYearShift(ymd.year);
    assert MarchDay(ymd) == 336 + DaysInMonth(ymd.year, 2);
    DaysBeforeStep(y);
  }

  /** After the last day of any other month the next month of the same
      March-based year starts. */
  lemma EndOfMonth(ymd: YearMonthDay)
    requires ValidDate(ymd) && ymd.year >= -4799 && ymd.month != 2 && ymd.day == DaysInMonth(ymd.year, ymd.month)
    ensures DaysBefore(MarchYear(NextDay(ymd))) + MarchDay(NextDay(ymd)) == DaysBefore(MarchYear(ymd)) + MarchDay(ymd) + 1
  {
    var n := NextDay(ymd);
    assert MarchYear(n) == MarchYear(ymd) && MarchMonth(n) == MarchMonth(ymd) + 1;
    MonthOffsetStep(MarchMonth(ymd), ymd.year);
  }

  /** The day number of the day after a valid date is one larger. */
  lemma NextDayNumber(ymd: YearMonthDay)
    requires ValidDate(ymd) && ymd.year >= -4799
    ensures JulianDayNumber(NextDay(ymd).year, NextDay(ymd).month, NextDay(ymd).day) ==
            JulianDayNumber(ymd.year, ymd.month, ymd.day) + 1
  {
    JulianDayNumberInMarchYears(ymd);
    JulianDayNumberInMarchYears(NextDay(ymd));
    NextDayCount(ymd);
  }

  lemma MonthOffsetMonotone(mm: int, nn: int)
    requires 0 <= mm <= nn
    ensures MonthOffset(mm) <= MonthOffset(nn)
  {
  }

  /** A day falls before the first day of the next March-based month. */
  lemma MarchDayBeforeNextMonth(ymd: YearMonthDay)
    requires ValidDate(ymd) && MarchMonth(ymd) <= 10
    ensures MarchDay(ymd) < MonthOffset(MarchMonth(ymd) + 1)
  {
    MonthOffsetStep(MarchMonth(ymd), ymd.year);
  }

  /** Calendar order is the order of March-based year, then day of year. */
  lemma MarchOrder(x: YearMonthDay, y: YearMonthDay)
    requires ValidDate(x) && ValidDate(y) && Before(x, y)
    ensures MarchYear(x) < MarchYear(y) || (MarchYear(x) == MarchYear(y) && MarchDay(x) < MarchDay(y))
  {
    if MarchYear(x) == MarchYear(y) && MarchMonth(x) < MarchMonth(y) {
      MarchDayBeforeNextMonth(x);
      MonthOffsetMonotone(MarchMonth(x) + 1, MarchMonth(y));
    }
  }

  /** The March-based day count is strictly increasing in calendar order. */
  lemma DayCountIncreasing(x: YearMonthDay, y: YearMonthDay)
    requires ValidDate(x) && ValidDate(y) && x.year >= -4799 && y.year >= -4799
    requires Before(x, y)
    ensures DaysBefore(MarchYear(x)) + MarchDay(x) < DaysBefore(MarchYear(y)) + MarchDay(y)
  {
    MarchOrder(x, y);
    MarchDayInYear(x);
    MarchDayInYear(y);
    if MarchYear(x) < MarchYear(y) {
      DaysBeforeStep(MarchYear(x));
      DaysBeforeMonotone(MarchYear(x) + 1, MarchYear(y));
    }
  }

  /** `getJulianDayNumber` is strictly increasing in calendar order. */
  lemma JulianDayNumberIncreasing(x: YearMonthDay, y: YearMonthDay)
    requires ValidDate(x) && ValidDate(y) && x.year >= -4799 && y.year >= -4799
    requires Before(x, y)
    ensures JulianDayNumber(x.year, x.month, x.day) < JulianDayNumber(y.year, y.month, y.day)
  {
    JulianDayNumberInMarchYears(x);
    JulianDayNumberInMarchYears(y);
    DayCountIncreasing(x, y);
  }

  // ---------------------------------------------------------------------
  // From a day number back to the calendar.

  /** The day count of whole centuries `b` and further years `d` of a
      400-year cycle, as `getYearMonthDay` takes it apart. */
  lemma CenturyDays(b: int, d: int)
    requires b >= 0 && 0 <= d <= 99
    ensures DaysBefore(100 * b + d) == (146097 * b) / 4 + (1461 * d) / 4
  {
    var y := 100 * b + d;
    assert y / 4 == 25 * b + d / 4;
    assert y / 100 == b;
    assert y / 400 == b / 4;
    assert (146097 * b) / 4 == 36524 * b + b / 4;
    assert (1461 * d) / 4 == 365 * d + d / 4;
  }

  /** `getYearMonthDay` splits a day number from 4713 BC on into a
      March-based year `y`, month `m` and day of year `e`. */
  lemma DayNumberSplit(j: int) returns (y: int, m: int, e: int)
    requires j >= -32044
    ensures y >= 0 && 0 <= m <= 11 && 0 <= e <= 365 && (5 * e + 2) / 153 == m
    ensures DaysBefore(y) + e == j + 32044
    ensures YearMonthDayOf(j) == YearMonthDay(y - 4800 + m / 10, m + 3 - 12 * (m / 10), e - MonthOffset(m) + 1)
  {
    var a := j + 32044;
    var b := (4 * a + 3) / 146097;
    var c := a - (146097 * b) / 4;
    assert 0 <= c <= 36524;
    var d := (4 * c + 3) / 1461;
    assert 0 <= d <= 99;
    e := c - (1461 * d) / 4;
    assert 0 <= e <= 365;
    m := (5 * e + 2) / 153;
    y := 100 * b + d;
    YearMonthDayOfSteps(j, b, c, d, e, m, y);
    CenturyDays(b, d);
  }

  /** Day `e` of March-based month `m` is day 1 to 31 of its month. */
  lemma DayOfMonthInRange(m: int, e: int)
    requires 0 <= m <= 11 && 0 <= e <= 365 && (5 * e + 2) / 153 == m
    ensures 1 <= e - MonthOffset(m) + 1 <= 31
  {
    if m == 0 {} else if m == 1 {} else if m == 2 {} else if m == 3 {}
    else if m == 4 {} else if m == 5 {} else if m == 6 {} else if m == 7 {}
    else if m == 8 {} else if m == 9 {} else if m == 10 {} else {}
  }

  /** The date `getYearMonthDay` builds from March-based coordinates has
      those coordinates. */
  lemma MarchCoordinatesOf(y: int, m: int, e: int)
    requires y >= 0 && 0 <= m <= 11 && 0 <= e <= 365 && (5 * e + 2) / 153 == m
    ensures var r := YearMonthDay(y - 4800 + m / 10, m + 3 - 12 * (m / 10), e - MonthOffset(m) + 1);
      1 <= r.month <= 12 && 1 <= r.day <= 31 && MarchYear(r) == y && MarchMonth(r) == m && MarchDay(r) == e
  {
    DayOfMonthInRange(m, e);
  }

  /** Every day number from 4713 BC on comes back from its calendar date,
      which has a month in [1, 12] and a day in [1, 31]. */
  lemma DayNumberRoundTrip(j: int)
    requires j >= -32044
    ensures 1 <= YearMonthDayOf(j).month <= 12 && 1 <= YearMonthDayOf(j).day <= 31
    ensures JulianDayNumber(YearMonthDayOf(j).year, YearMonthDayOf(j).month, YearMonthDayOf(j).day) == j
  {
    var y, m, e := DayNumberSplit(j);
    MarchCoordinatesOf(y, m, e);
    JulianDayNumberInMarchYears(YearMonthDayOf(j));
  }

  // ---------------------------------------------------------------------
  // The `Date` class.

  /** The default date is day 0 of the Julian period, 24 November 4714 BC
      of the proleptic Gregorian calendar (year -4713 counting a year 0). */
  lemma DefaultDateIsDayZero()
    ensures DefaultDate.ToYearMonthDay() == YearMonthDay(-4713, 11, 24)
  {
    YearMonthDayOfSteps(0, 0, 32044, 87, 268, 8, 87);
  }

  /** A date built from a valid year, month and day reads them back through
      `year()`, `month()` and `day()`. */
  lemma DateFieldsRoundTrip(year: int, month: int, day: int)
    requires ValidDate(YearMonthDay(year, month, day)) && year >= -4799
    ensures FromYearMonthDay(year, month, day).Year() == year
    ensures FromYearMonthDay(year, month, day).Month() == month
    ensures FromYearMonthDay(year, month, day).Day() == day
  {
    YearMonthDayRoundTrip(YearMonthDay(year, month, day));
  }

  /** The `struct tm` constructor is the calendar constructor on
      `tm_year + 1900`, `tm_mon + 1` and `tm_mday`, so a valid `tm` reads
      back as that date. */
  lemma FromTmReadsFields(t: Tm)
    requires ValidDate(YearMonthDay(t.tmYear + 1900, t.tmMon + 1, t.tmMday)) && t.tmYear >= -6699
    ensures FromTm(t) == FromYearMonthDay(t.tmYear + 1900, t.tmMon + 1, t.tmMday)
    ensures FromTm(t).Year() == t.tmYear + 1900 && FromTm(t).Month() == t.tmMon + 1 && FromTm(t).Day() == t.tmMday
  {
    DateFieldsRoundTrip(t.tmYear + 1900, t.tmMon + 1, t.tmMday);
  }

  /** `operator<` is a strict total order and `operator==` is equality of
      day numbers. */
  lemma LessIsStrictTotalOrder(x: Date, y: Date, z: Date)
    ensures !Less(x, x)
    ensures Less(x, y) && Less(y, z) ==> Less(x, z)
    ensures Less(x, y) || x == y || Less(y, x)
    ensures x == y <==> x.julianDayNumber == y.julianDayNumber
  {
  }

  /** On valid dates, `operator<` is calendar order and `operator==` is
      equality of year, month and day. */
  lemma LessIsCalendarOrder(x: YearMonthDay, y: YearMonthDay)
    requires ValidDate(x) && ValidDate(y) && x.year >= -4799 && y.year >= -4799
    ensures Less(FromYearMonthDay(x.year, x.month, x.day), FromYearMonthDay(y.year, y.month, y.day)) <==> Before(x, y)
    ensures FromYearMonthDay(x.year, x.month, x.day) == FromYearMonthDay(y.year, y.month, y.day) <==> x == y
  {
    if Before(x, y) {
      JulianDayNumberIncreasing(x, y);
    } else if Before(y, x) {
      JulianDayNumberIncreasing(y, x);
    }
    YearMonthDayRoundTrip(x);
    YearMonthDayRoundTrip(y);
  }

  // ---------------------------------------------------------------------
  // The day of the week.

  /** From day number -4 on, `weekDay()` is in [0, 6] and advances by one,
      modulo 7, from each day to the next. */
  lemma WeekDayAdvances(d: Date)
    requires d.julianDayNumber >= -4
    ensures 0 <= d.WeekDay() <= 6
    ensures Date(d.julianDayNumber + 1).WeekDay() == (d.WeekDay() + 1) % 7
  {
  }

  /** As written, `weekDay()` puts 1970-01-01 (day number 2440588) on day 0,
      a Sunday; that day was a Thursday, day 4. */
  lemma EpochWeekDayAsWritten()
    ensures JulianDayNumber(1970, 1, 1) == 2440588
    ensures FromYearMonthDay(1970, 1, 1).WeekDay() == 0
  {
  }

  /** With offset 1, 1970-01-01 is a Thursday and day 0 of the Julian
      period (24 November 4714 BC) a Monday. */
  lemma CorrectedWeekDayOfEpoch()
    ensures FromYearMonthDay(1970, 1, 1).CorrectedWeekDay() == 4
    ensures DefaultDate.CorrectedWeekDay() == 1
  {
    assert JulianDayNumber(1970, 1, 1) == 2440588;
  }

  /** From day number -1 on, the corrected day of the week is in [0, 6]
      and advances by one, modulo 7, from each day to the next. */
  lemma CorrectedWeekDayAdvances(d: Date)
    requires d.julianDayNumber >= -1
    ensures 0 <= d.CorrectedWeekDay() <= 6
    ensures Date(d.julianDayNumber + 1).CorrectedWeekDay() == (d.CorrectedWeekDay() + 1) % 7
  {
  }
}
