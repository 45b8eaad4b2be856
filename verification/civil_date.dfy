/**
 Proleptic Gregorian civil dates and the day arithmetic that a JavaScript `Date`
 performs when `setDate` is handed a day-of-month past the end of the month (or
 before its start): the surplus rolls over into the following (or preceding)
 months and years.

 `DayNumber` is the number of days from 0001-01-01; every operation here is
 specified by its effect on `DayNumber`.
 */
module CivilDate {

  datatype Date = Date(year: int, month: int, day: int)

  predicate IsLeapYear(y: int) {
    y % 4 == 0 && (y % 100 != 0 || y % 400 == 0)
  }

  function DaysInMonth(y: int, m: int): int
    requires 1 <= m <= 12
  {
    if m == 2 then (if IsLeapYear(y) then 29 else 28)
    else if m == 4 || m == 6 || m == 9 || m == 11 then 30
    else 31
  }

  /** A date that names a real day of the calendar. */
  predicate Valid(d: Date) {
    1 <= d.month <= 12 && 1 <= d.day <= DaysInMonth(d.year, d.month)
  }

  function DaysInYear(y: int): int {
    if IsLeapYear(y) then 366 else 365
  }

  /** Days from 0001-01-01 to January 1st of year `y` (negative for earlier years). */
  function DaysBeforeYear(y: int): int
    decreases if y < 1 then 1 - y else y - 1
  {
    if y == 1 then 0
    else if y > 1 then DaysBeforeYear(y - 1) + DaysInYear(y - 1)
    else DaysBeforeYear(y + 1) - DaysInYear(y)
  }

  /** Days from January 1st of year `y` to the first day of month `m`. */
  function DaysBeforeMonth(y: int, m: int): int
    requires 1 <= m <= 12
  {
    var cumulative := [0, 31, 59, 90, 120, 151, 181, 212, 243, 273, 304, 334];
    cumulative[m - 1] + (if m > 2 && IsLeapYear(y) then 1 else 0)
  }

  /** Days from 0001-01-01 to `d`. */
  function DayNumber(d: Date): int
    requires Valid(d)
  {
    DaysBeforeYear(d.year) + DaysBeforeMonth(d.year, d.month) + d.day - 1
  }

  /** Lexicographic order on (year, month, day): `a` is an earlier day than `b`. */
  predicate Before(a: Date, b: Date) {
    || a.year < b.year
    || (a.year == b.year && a.month < b.month)
    || (a.year == b.year && a.month == b.month && a.day < b.day)
  }

  lemma DivStep(p: int)
    ensures (p + 1) / 4 == p / 4 + (if (p + 1) % 4 == 0 then 1 else 0)
    ensures (p + 1) / 100 == p / 100 + (if (p + 1) % 100 == 0 then 1 else 0)
    ensures (p + 1) / 400 == p / 400 + (if (p + 1) % 400 == 0 then 1 else 0)
  {
  }

  lemma DivisibleBy100(y: int)
    requires y % 100 == 0
    ensures y % 4 == 0
  {
    var q := y / 100;
    assert y == 4 * (25 * q);
  }

  lemma DivisibleBy400(y: int)
    requires y % 400 == 0
    ensures y % 100 == 0
  {
    var q := y / 400;
    assert y == 100 * (4 * q);
  }

  lemma YearLength(y: int)
    ensures DaysBeforeYear(y + 1) == DaysBeforeYear(y) + DaysInYear(y)
  {
  }

  /** The usual closed form: 365 days a year plus the leap days of the Gregorian rule. */
  lemma {:induction false} DaysBeforeYearClosedForm(y: int)
    ensures DaysBeforeYear(y) == 365 * (y - 1) + (y - 1) / 4 - (y - 1) / 100 + (y - 1) / 400
    decreases if y < 1 then 1 - y else y - 1
  {
    if y > 1 {
      DaysBeforeYearClosedForm(y - 1);
      LeapDayCount(y - 1);
    } else if y < 1 {
      DaysBeforeYearClosedForm(y + 1);
      LeapDayCount(y);
    }
  }

  /** The leap-day terms of the closed form grow by one exactly across a leap year. */
  lemma LeapDayCount(y: int)
    ensures y / 4 - y / 100 + y / 400 == (y - 1) / 4 - (y - 1) / 100 + (y - 1) / 400 + DaysInYear(y) - 365
  {
    DivStep(y - 1);
    if y % 100 == 0 { DivisibleBy100(y); }
    if y % 400 == 0 { DivisibleBy400(y); }
  }

  lemma MonthLength(y: int, m: int)
    requires 1 <= m < 12
    ensures DaysBeforeMonth(y, m + 1) == DaysBeforeMonth(y, m) + DaysInMonth(y, m)
  {
  }

  lemma DecemberEndsYear(y: int)
    ensures DaysBeforeMonth(y, 12) + DaysInMonth(y, 12) == DaysInYear(y)
  {
  }

  /** The day after `d`. */
  function NextDay(d: Date): (r: Date)
    requires Valid(d)
    ensures Valid(r)
    ensures DayNumber(r) == DayNumber(d) + 1
  {
    if d.day < DaysInMonth(d.year, d.month) then
      Date(d.year, d.month, d.day + 1)
    else if d.month < 12 then
      MonthLength(d.year, d.month);
      Date(d.year, d.month + 1, 1)
    else
      DecemberEndsYear(d.year);
      YearLength(d.year);
      Date(d.year + 1, 1, 1)
  }

  /** The day before `d`. */
  function PrevDay(d: Date): (r: Date)
    requires Valid(d)
    ensures Valid(r)
    ensures DayNumber(r) + 1 == DayNumber(d)
  {
    if d.day > 1 then
      Date(d.year, d.month, d.day - 1)
    else if d.month > 1 then
      MonthLength(d.year, d.month - 1);
      Date(d.year, d.month - 1, DaysInMonth(d.year, d.month - 1))
    else
      DecemberEndsYear(d.year - 1);
      YearLength(d.year - 1);
      Date(d.year - 1, 12, 31)
  }

  /** A later year starts at least 365 days later. */
  lemma {:induction false} YearsIncrease(y1: int, y2: int)
    requires y1 < y2
    ensures DaysBeforeYear(y1) + 365 <= DaysBeforeYear(y2)
    decreases y2 - y1
  {
    YearLength(y1);
    if y1 + 1 < y2 {
      YearsIncrease(y1 + 1, y2);
    }
  }

  lemma MonthsIncrease(y: int, m1: int, m2: int)
    requires 1 <= m1 < m2 <= 12
    ensures DaysBeforeMonth(y, m1) + DaysInMonth(y, m1) <= DaysBeforeMonth(y, m2)
  {
  }

  /** The day number of `d` lies inside the span of its own year. */
  lemma WithinYear(d: Date)
    requires Valid(d)
    ensures DaysBeforeYear(d.year) <= DayNumber(d) < DaysBeforeYear(d.year + 1)
  {
    YearLength(d.year);
    if d.month < 12 {
      MonthsIncrease(d.year, d.month, 12);
    }
    DecemberEndsYear(d.year);
  }

  /** Calendar order and day-number order agree. */
  lemma {:induction false} BeforeIsDayNumberOrder(a: Date, b: Date)
    requires Valid(a) && Valid(b)
    ensures Before(a, b) <==> DayNumber(a) < DayNumber(b)
  {
    if a.year != b.year {
      var (lo, hi) := if a.year < b.year then (a, b) else (b, a);
      WithinYear(lo);
      WithinYear(hi);
      if lo.year + 1 < hi.year {
        YearsIncrease(lo.year + 1, hi.year);
      }
    } else if a.month != b.month {
      if a.month < b.month {
        MonthsIncrease(a.year, a.month, b.month);
      } else {
        MonthsIncrease(a.year, b.month, a.month);
      }
    }
  }

  /** Distinct valid dates have distinct day numbers. */
  lemma DayNumberInjective(a: Date, b: Date)
    requires Valid(a) && Valid(b)
    ensures DayNumber(a) == DayNumber(b) <==> a == b
  {
    BeforeIsDayNumberOrder(a, b);
    BeforeIsDayNumberOrder(b, a);
  }

  lemma PrevNextInverse(d: Date)
    requires Valid(d)
    ensures PrevDay(NextDay(d)) == d
    ensures NextDay(PrevDay(d)) == d
  {
  }

  /** The date `n` days after `d` (before it when `n` is negative). */
  function AddDays(d: Date, n: int): (r: Date)
    requires Valid(d)
    ensures Valid(r)
    ensures DayNumber(r) == DayNumber(d) + n
    decreases if n < 0 then -n else n
  {
    if n == 0 then d
    else if n > 0 then AddDays(NextDay(d), n - 1)
    else AddDays(PrevDay(d), n + 1)
  }

  /** Moving `a` days and then `b` days is moving `a + b` days. */
  lemma AddDaysCompose(d: Date, a: int, b: int)
    requires Valid(d)
    ensures AddDays(AddDays(d, a), b) == AddDays(d, a + b)
  {
    DayNumberInjective(AddDays(AddDays(d, a), b), AddDays(d, a + b));
  }

  /** Dates `n` days apart are consecutive; a later offset is a later day. */
  lemma AddDaysOrder(d: Date, i: int, j: int)
    requires Valid(d)
    ensures AddDays(d, i + 1) == NextDay(AddDays(d, i))
    ensures i < j <==> Before(AddDays(d, i), AddDays(d, j))
  {
    DayNumberInjective(AddDays(d, i + 1), NextDay(AddDays(d, i)));
    BeforeIsDayNumberOrder(AddDays(d, i), AddDays(d, j));
  }

  /** Less than a year's worth of days forward moves the year by at most one. */
  lemma AddDaysYearBound(d: Date, n: int)
    requires Valid(d) && 0 <= n <= 365
    ensures d.year <= AddDays(d, n).year <= d.year + 1
  {
    var r := AddDays(d, n);
    WithinYear(d);
    WithinYear(r);
    if r.year + 1 < d.year {
      YearsIncrease(r.year + 1, d.year);
    }
    if r.year > d.year + 1 {
      YearsIncrease(d.year + 1, r.year);
    }
  }

  /**
   The effect of `setDate(n)` on a date `base`: day `n` of `base`'s month, where a
   day-of-month past the month's last day (or below 1) overflows into the
   following (or preceding) months.
   */
  function SetDate(base: Date, n: int): (r: Date)
    requires Valid(base)
    ensures Valid(r)
    ensures DayNumber(r) == DayNumber(base) + (n - base.day)
    ensures 1 <= n <= DaysInMonth(base.year, base.month) ==> r == Date(base.year, base.month, n)
  {
    var first := Date(base.year, base.month, 1);
    var r := AddDays(first, n - 1);
    if 1 <= n <= DaysInMonth(base.year, base.month) then
      DayNumberInjective(r, Date(base.year, base.month, n));
      r
    else
      r
  }

  /**
   Setting a day-of-month `k` days past the month's last day gives day `k` of
   the next month, which in December is January of the next year.
   */
  lemma SetDatePastMonthEnd(base: Date, k: int)
    requires Valid(base) && 1 <= k <= 28
    ensures SetDate(base, DaysInMonth(base.year, base.month) + k)
         == if base.month < 12 then Date(base.year, base.month + 1, k) else Date(base.year + 1, 1, k)
  {
    var next := if base.month < 12 then Date(base.year, base.month + 1, k) else Date(base.year + 1, 1, k);
    if base.month < 12 {
      MonthLength(base.year, base.month);
    } else {
      DecemberEndsYear(base.year);
      YearLength(base.year);
    }
    DayNumberInjective(SetDate(base, DaysInMonth(base.year, base.month) + k), next);
  }

  /** Setting the day-of-month to today's plus `i` lands `i` days after today. */
  lemma SetDateAdvances(today: Date, i: int)
    requires Valid(today)
    ensures SetDate(today, today.day + i) == AddDays(today, i)
  {
    DayNumberInjective(SetDate(today, today.day + i), AddDays(today, i));
  }

  /** Day of the week in the 0 = Sunday .. 6 = Saturday numbering; 0001-01-01 was a Monday. */
  function Weekday(d: Date): (w: int)
    requires Valid(d)
    ensures 0 <= w < 7
  {
    (DayNumber(d) + 1) % 7
  }

  /** Weekdays advance by one each day. */
  lemma WeekdayNext(d: Date)
    requires Valid(d)
    ensures Weekday(NextDay(d)) == (Weekday(d) + 1) % 7
  {
    var k := DayNumber(d) + 1;
    assert DayNumber(NextDay(d)) + 1 == k + 1;
    ModSevenStep(k);
  }

  /** Weekdays repeat every seven days. */
  lemma WeekdayPeriod(d: Date, n: int)
    requires Valid(d)
    ensures Weekday(AddDays(d, 7 * n)) == Weekday(d)
  {
    var k := DayNumber(d) + 1;
    ModSevenShift(k, n);
    assert DayNumber(AddDays(d, 7 * n)) + 1 == k + 7 * n;
  }

  lemma ModSevenStep(k: int)
    ensures (k + 1) % 7 == (k % 7 + 1) % 7
  {
  }

  lemma {:induction false} ModSevenShift(k: int, n: int)
    ensures (k + 7 * n) % 7 == k % 7
    decreases if n < 0 then -n else n
  {
    if n > 0 {
      ModSevenShift(k, n - 1);
    } else if n < 0 {
      ModSevenShift(k, n + 1);
    }
  }

  /** Calibration against a known day: 2025-01-01 was a Wednesday. */
  lemma WeekdayOfNewYear2025()
    ensures Weekday(Date(2025, 1, 1)) == 3
  {
    DaysBeforeYearClosedForm(2025);
    assert DayNumber(Date(2025, 1, 1)) == 739251;
  }
}
