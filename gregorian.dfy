/** Proleptic Gregorian calendar arithmetic as the ECMAScript Date object
    performs it (section 21.4.1 of ECMA-262): a day number counted from
    1970-01-01, the leap-year rule, the weekday of a day number, and the
    normalisation MakeDay applies to a month or a day-of-month that lies
    outside its range. Time of day and time zones are not modelled: a
    date is the triple the local getters report. */
module Gregorian {

  /** A calendar date as getFullYear, getMonth and getDate report it:
      the month counts from 0 (January) to 11 (December). */
  datatype Date = Date(year: int, month: int, day: int)

  predicate IsLeapYear(y: int) {
    y % 4 == 0 && (y % 100 != 0 || y % 400 == 0)
  }

  function DaysInYear(y: int): int {
    if IsLeapYear(y) then 366 else 365
  }

  /** Length of month `m` of year `y`; February has 29 days in a leap year. */
  function DaysInMonth(y: int, m: int): (n: int)
    requires 0 <= m < 12
    ensures 28 <= n <= 31
    ensures n == 29 <==> m == 1 && IsLeapYear(y)
  {
    if m == 1 then (if IsLeapYear(y) then 29 else 28)
    else if m == 3 || m == 5 || m == 8 || m == 10 then 30
    else 31
  }

  /** Number of days of year `y` that precede month `m` (m == 12: the whole year). */
  function DaysBeforeMonth(y: int, m: int): int
    requires 0 <= m <= 12
  {
    [0, 31, 59, 90, 120, 151, 181, 212, 243, 273, 304, 334, 365][m]
      + (if m >= 2 && IsLeapYear(y) then 1 else 0)
  }

  /** Day number of the first of January of year `y` (DayFromYear of ECMA-262).
      Dafny's `/` with a positive divisor is the floor the standard uses. */
  function DayFromYear(y: int): int {
    365 * (y - 1970) + (y - 1969) / 4 - (y - 1901) / 100 + (y - 1601) / 400
  }

  /** A date that a Date object can report: month in 0..11 and a day that the month has. */
  predicate Valid(d: Date) {
    0 <= d.month < 12 && 1 <= d.day <= DaysInMonth(d.year, d.month)
  }

  /** Days since 1970-01-01 of day `d.day` of the month, counted from that
      month's first day; a day outside the month counts on across its ends. */
  function DayNumber(d: Date): int
    requires 0 <= d.month < 12
  {
    DayFromYear(d.year) + DaysBeforeMonth(d.year, d.month) + d.day - 1
  }

  /** Weekday as getDay reports it: 0 is Sunday, 6 is Saturday
      (1970-01-01 was a Thursday). */
  function WeekDay(d: Date): (w: int)
    requires 0 <= d.month < 12
    ensures 0 <= w < 7
  {
    (DayNumber(d) + 4) % 7
  }

  /** Lexicographic order on (year, month, day). */
  predicate Before(a: Date, b: Date) {
    a.year < b.year
    || (a.year == b.year && a.month < b.month)
    || (a.year == b.year && a.month == b.month && a.day < b.day)
  }

  /** The month that follows month `m` of year `y`, with the year carry. */
  function MonthAfter(y: int, m: int): (r: (int, int))
    requires 0 <= m < 12
    ensures 0 <= r.1 < 12
    ensures r.0 * 12 + r.1 == y * 12 + m + 1
  {
    if m == 11 then (y + 1, 0) else (y, m + 1)
  }

  /** The month that precedes month `m` of year `y`, with the year borrow. */
  function MonthBefore(y: int, m: int): (r: (int, int))
    requires 0 <= m < 12
    ensures 0 <= r.1 < 12
    ensures r.0 * 12 + r.1 == y * 12 + m - 1
  {
    if m == 0 then (y - 1, 11) else (y, m - 1)
  }

  /** Stepping `x` by one raises `x / k` by one exactly when `x + 1` is a multiple of `k`. */
  lemma FloorStep(x: int, k: int)
    requires k == 4 || k == 100 || k == 400
    ensures (x + 1) / k == x / k + (if (x + 1) % k == 0 then 1 else 0)
  {
  }

  lemma YearLength(y: int)
    ensures DayFromYear(y + 1) == DayFromYear(y) + DaysInYear(y)
  {
    FloorStep(y - 1969, 4);
    FloorStep(y - 1901, 100);
    FloorStep(y - 1601, 400);
    assert (y - 1968) % 4 == y % 4;
    assert (y - 1900) % 100 == y % 100;
    assert (y - 1600) % 400 == y % 400;
  }

  lemma {:induction false} DayFromYearGrows(a: int, b: int)
    requires a <= b
    ensures DayFromYear(a) + 365 * (b - a) <= DayFromYear(b)
    decreases b - a
  {
    if a < b {
      DayFromYearGrows(a, b - 1);
      YearLength(b - 1);
    }
  }

  lemma DaysBeforeMonthStep(y: int, m: int)
    requires 0 <= m < 12
    ensures DaysBeforeMonth(y, m + 1) == DaysBeforeMonth(y, m) + DaysInMonth(y, m)
  {
  }

  lemma {:induction false} DaysBeforeMonthGrows(y: int, i: int, j: int)
    requires 0 <= i < j <= 12
    ensures DaysBeforeMonth(y, i) + DaysInMonth(y, i) <= DaysBeforeMonth(y, j)
    decreases j - i
  {
    DaysBeforeMonthStep(y, i);
    if i + 1 < j {
      DaysBeforeMonthGrows(y, i + 1, j);
    }
  }

  /** The first day of the next month is `DaysInMonth` days after the first
      day of this one, across a year end too. */
  lemma MonthLength(y: int, m: int)
    requires 0 <= m < 12
    ensures var (ny, nm) := MonthAfter(y, m);
            DayNumber(Date(ny, nm, 1)) == DayNumber(Date(y, m, 1)) + DaysInMonth(y, m)
  {
    if m < 11 {
      DaysBeforeMonthStep(y, m);
    } else {
      YearLength(y);
    }
  }

  /** Every valid date of year `y` has a day number inside that year. */
  lemma DayNumberWithinYear(d: Date)
    requires Valid(d)
    ensures DayFromYear(d.year) <= DayNumber(d) < DayFromYear(d.year + 1)
  {
    DaysBeforeMonthGrows(d.year, d.month, 12);
    YearLength(d.year);
  }

  /** Day numbers follow the calendar order: on valid dates, `a` comes
      before `b` exactly when its day number is smaller. */
  lemma DayNumberOrder(a: Date, b: Date)
    requires Valid(a) && Valid(b)
    ensures Before(a, b) <==> DayNumber(a) < DayNumber(b)
  {
    if a.year < b.year {
      DayOrderAcrossYears(a, b);
    } else if b.year < a.year {
      DayOrderAcrossYears(b, a);
    } else if a.month < b.month {
      DaysBeforeMonthGrows(a.year, a.month, b.month);
    } else if b.month < a.month {
      DaysBeforeMonthGrows(a.year, b.month, a.month);
    }
  }

  lemma DayOrderAcrossYears(a: Date, b: Date)
    requires Valid(a) && Valid(b) && a.year < b.year
    ensures DayNumber(a) < DayNumber(b)
  {
    DayNumberWithinYear(a);
    DayNumberWithinYear(b);
    DayFromYearGrows(a.year + 1, b.year);
  }

  /** Distinct valid dates have distinct day numbers. */
  lemma DayNumberInjective(a: Date, b: Date)
    requires Valid(a) && Valid(b)
    ensures DayNumber(a) == DayNumber(b) <==> a == b
  {
    DayNumberOrder(a, b);
    DayNumberOrder(b, a);
  }

  /** Brings day `d` of month `m` of year `y` into range by moving whole
      months: a day past the month's end continues into the next month, a
      day below 1 reaches back into the previous one. */
  function Normalize(y: int, m: int, d: int): (r: Date)
    requires 0 <= m < 12
    ensures Valid(r)
    ensures DayNumber(r) == DayNumber(Date(y, m, d))
    decreases if d < 1 then 1 - d else 0, if d < 1 then 0 else d
  {
    if d < 1 then
      var (py, pm) := MonthBefore(y, m);
      PreviousMonthLength(y, m);
      DayNumberShift(py, pm, d + DaysInMonth(py, pm));
      DayNumberShift(y, m, d);
      Normalize(py, pm, d + DaysInMonth(py, pm))
    else if d > DaysInMonth(y, m) then
      var (ny, nm) := MonthAfter(y, m);
      MonthLength(y, m);
      DayNumberShift(ny, nm, d - DaysInMonth(y, m));
      DayNumberShift(y, m, d);
      Normalize(ny, nm, d - DaysInMonth(y, m))
    else
      Date(y, m, d)
  }

  /** Day `d` of a month is `d - 1` days after its first. */
  lemma DayNumberShift(y: int, m: int, d: int)
    requires 0 <= m < 12
    ensures DayNumber(Date(y, m, d)) == DayNumber(Date(y, m, 1)) + d - 1
  {
  }

  /** The first of a month is as many days after the first of the month
      before it as that month is long. */
  lemma PreviousMonthLength(y: int, m: int)
    requires 0 <= m < 12
    ensures var (py, pm) := MonthBefore(y, m);
            DayNumber(Date(py, pm, 1)) + DaysInMonth(py, pm) == DayNumber(Date(y, m, 1))
  {
    var (py, pm) := MonthBefore(y, m);
    MonthLength(py, pm);
    assert MonthAfter(py, pm) == (y, m);
  }

  /** MakeDay of ECMA-262: the day number of day `date` counted from the
      first of month `month` (any integer, carried into the year) of `year`. */
  function MakeDay(year: int, month: int, date: int): int {
    DayNumber(Date(year + month / 12, month % 12, 1)) + date - 1
  }

  /** The one valid date whose day number is MakeDay(year, month, date):
      what `setMonth` produces, and what `new Date(year, month, date)`
      produces once its year has been through ConstructorYear. */
  function MakeDate(year: int, month: int, date: int): (r: Date)
    ensures Valid(r)
    ensures DayNumber(r) == MakeDay(year, month, date)
  {
    DayNumberShift(year + month / 12, month % 12, date);
    Normalize(year + month / 12, month % 12, date)
  }

  /** No other valid date has MakeDate's day number. */
  lemma MakeDateUnique(year: int, month: int, date: int, d: Date)
    requires Valid(d)
    ensures DayNumber(d) == MakeDay(year, month, date) <==> d == MakeDate(year, month, date)
  {
    DayNumberInjective(d, MakeDate(year, month, date));
  }

  /** A date that is already in range is left as it is. */
  lemma MakeDateOfValid(d: Date)
    requires Valid(d)
    ensures MakeDate(d.year, d.month, d.day) == d
  {
    assert d.month / 12 == 0 && d.month % 12 == d.month;
    MakeDateUnique(d.year, d.month, d.day, d);
  }

  /** Day 0 of the following month is the last day of this month. */
  lemma DayZeroIsLastDay(y: int, m: int)
    requires 0 <= m < 12
    ensures MakeDate(y, m + 1, 0) == Date(y, m, DaysInMonth(y, m))
  {
    var (ny, nm) := MonthAfter(y, m);
    MonthAfterCarry(y, m);
    assert MakeDay(y, m + 1, 0) == DayNumber(Date(ny, nm, 1)) - 1;
    MonthLength(y, m);
    DayNumberShift(y, m, DaysInMonth(y, m));
    MakeDateUnique(y, m + 1, 0, Date(y, m, DaysInMonth(y, m)));
  }

  /** The year the Date constructor hands to MakeDay (section 21.4.2.1 of
      ECMA-262): a year from 0 to 99 stands for 1900 to 1999. `setMonth`
      does not apply this rule. */
  function ConstructorYear(year: int): int {
    if 0 <= year <= 99 then 1900 + year else year
  }

  /** `new Date(year, month, date)`: MakeDate of the constructor's year. */
  function NewDate(year: int, month: int, date: int): (r: Date)
    ensures Valid(r)
    ensures DayNumber(r) == MakeDay(ConstructorYear(year), month, date)
  {
    MakeDate(ConstructorYear(year), month, date)
  }

  /** A day that month `m` has is built as that day of the constructor's
      year: as it is outside 0..99, and 1900 years later inside it. */
  lemma NewDateInRange(y: int, m: int, d: int)
    requires 0 <= m < 12 && 1 <= d <= DaysInMonth(ConstructorYear(y), m)
    ensures NewDate(y, m, d) == Date(ConstructorYear(y), m, d)
    ensures 0 <= y <= 99 ==> NewDate(y, m, d).year == 1900 + y
    ensures (y < 0 || 99 < y) ==> NewDate(y, m, d) == Date(y, m, d)
  {
    MakeDateOfValid(Date(ConstructorYear(y), m, d));
  }

  /** Day 0 of month `m + 1` is the last day of month `m` of the
      constructor's year, so `new Date(y, m + 1, 0).getDate()` is the
      length of that month. */
  lemma NewDateDayZero(y: int, m: int)
    requires 0 <= m < 12
    ensures NewDate(y, m + 1, 0) == Date(ConstructorYear(y), m, DaysInMonth(ConstructorYear(y), m))
  {
    DayZeroIsLastDay(ConstructorYear(y), m);
  }

  /** Year 0 is a leap year, but `new Date(0, 2, 0)` is the last day of
      February 1900, the 28th. */
  lemma TwoDigitYearFebruary()
    ensures IsLeapYear(0) && DaysInMonth(0, 1) == 29
    ensures NewDate(0, 2, 0) == Date(1900, 1, 28)
  {
    NewDateDayZero(0, 1);
  }

  /** MakeDay carries month `m + 1` into the year as MonthAfter does. */
  lemma MonthAfterCarry(y: int, m: int)
    requires 0 <= m < 12
    ensures (y + (m + 1) / 12, (m + 1) % 12) == MonthAfter(y, m)
  {
    if m == 11 {
      assert (m + 1) / 12 == 1 && (m + 1) % 12 == 0;
    } else {
      assert (m + 1) / 12 == 0 && (m + 1) % 12 == m + 1;
    }
  }

  /** MakeDay carries month `m - 1` into the year as MonthBefore does. */
  lemma MonthBeforeCarry(y: int, m: int)
    requires 0 <= m < 12
    ensures (y + (m - 1) / 12, (m - 1) % 12) == MonthBefore(y, m)
  {
    if m == 0 {
      assert (m - 1) / 12 == -1 && (m - 1) % 12 == 11;
    } else {
      assert (m - 1) / 12 == 0 && (m - 1) % 12 == m - 1;
    }
  }

  /** Consecutive days of one month have consecutive day numbers and weekdays. */
  lemma DaysOfMonthCount(y: int, m: int, i: int)
    requires 0 <= m < 12
    ensures DayNumber(Date(y, m, 1 + i)) == DayNumber(Date(y, m, 1)) + i
    ensures WeekDay(Date(y, m, 1 + i)) == (WeekDay(Date(y, m, 1)) + i) % 7
  {
    var n := DayNumber(Date(y, m, 1));
    assert DayNumber(Date(y, m, 1 + i)) == n + i;
    ModSevenSum(n + 4, i);
  }

  /** Reducing a summand modulo 7 first does not change the sum modulo 7. */
  lemma ModSevenSum(x: int, c: int)
    ensures (x % 7 + c) % 7 == (x + c) % 7
  {
    assert x == 7 * (x / 7) + x % 7;
  }
}
