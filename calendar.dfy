/** The proleptic Gregorian calendar from 1970 on: the UTC date a count of whole days
    since the Unix epoch falls on, as chrono's `NaiveDateTime::from_timestamp_opt` works
    it out, and the day count of a date. */
module Calendar {

  const Epoch: int := 1970

  datatype Date = Date(year: int, month: int, day: int)

  predicate IsLeap(y: int) {
    y % 4 == 0 && (y % 100 != 0 || y % 400 == 0)
  }

  function DaysInYear(y: int): nat {
    if IsLeap(y) then 366 else 365
  }

  function DaysInMonth(y: int, m: int): nat
    requires 1 <= m <= 12
  {
    if m == 2 then (if IsLeap(y) then 29 else 28)
    else if m == 4 || m == 6 || m == 9 || m == 11 then 30
    else 31
  }

  /** The day-of-year offset of the first day of month `m` (13 stands for the year's end). */
  function DaysBeforeMonth(y: int, m: int): nat
    requires 1 <= m <= 13
  {
    [0, 31, 59, 90, 120, 151, 181, 212, 243, 273, 304, 334, 365][m - 1]
    + if m > 2 && IsLeap(y) then 1 else 0
  }

  /** Each month starts where the previous one ends. */
  lemma BeforeMonthStep(y: int, m: int)
    requires 1 <= m <= 12
    ensures DaysBeforeMonth(y, m + 1) == DaysBeforeMonth(y, m) + DaysInMonth(y, m)
  {
  }

  lemma MonthsFillYear(y: int)
    ensures DaysBeforeMonth(y, 13) == DaysInYear(y)
  {
  }

  /** The days in the whole years from `from` up to, not including, `to`. */
  function YearsSpan(from: int, to: int): nat
    decreases to - from
  {
    if from >= to then 0 else DaysInYear(from) + YearsSpan(from + 1, to)
  }

  predicate Valid(d: Date) {
    d.year >= Epoch && 1 <= d.month <= 12 && 1 <= d.day <= DaysInMonth(d.year, d.month)
  }

  /** The number of days from 1970-01-01 to `d`. */
  function DaysFromCivil(d: Date): nat
    requires Valid(d)
  {
    YearsSpan(Epoch, d.year) + DaysBeforeMonth(d.year, d.month) + d.day - 1
  }

  /** The date `days` days into year `y`, counting months from `m`. */
  function MonthWalk(y: int, m: int, days: nat): (d: Date)
    requires 1 <= m <= 12 && days < DaysBeforeMonth(y, 13) - DaysBeforeMonth(y, m)
    ensures d.year == y && m <= d.month <= 12 && 1 <= d.day <= DaysInMonth(y, d.month)
    decreases 12 - m
  {
    if days < DaysInMonth(y, m) then Date(y, m, days + 1)
    else MonthWalk(y, m + 1, days - DaysInMonth(y, m))
  }

  /** The date `days` days after the first of January of year `y`. */
  function YearWalk(y: int, days: nat): (d: Date)
    requires y >= Epoch
    ensures Valid(d) && d.year >= y
    decreases days
  {
    if days < DaysInYear(y) then
      MonthsFillYear(y);
      MonthWalk(y, 1, days)
    else YearWalk(y + 1, days - DaysInYear(y))
  }

  /** The date `days` days after 1970-01-01. */
  function CivilFromDays(days: nat): (d: Date)
    ensures Valid(d)
  {
    YearWalk(Epoch, days)
  }

  lemma {:induction false} MonthWalkCount(y: int, m: int, days: nat)
    requires 1 <= m <= 12 && days < DaysBeforeMonth(y, 13) - DaysBeforeMonth(y, m)
    ensures var d := MonthWalk(y, m, days);
            DaysBeforeMonth(y, d.month) + d.day - 1 == DaysBeforeMonth(y, m) + days
    decreases 12 - m
  {
    BeforeMonthStep(y, m);
    if days >= DaysInMonth(y, m) {
      MonthWalkCount(y, m + 1, days - DaysInMonth(y, m));
    }
  }

  lemma {:induction false} YearWalkCount(y: int, days: nat)
    requires y >= Epoch
    ensures var d := YearWalk(y, days);
            YearsSpan(y, d.year) + DaysBeforeMonth(d.year, d.month) + d.day - 1 == days
    decreases days
  {
    if days < DaysInYear(y) {
      MonthsFillYear(y);
      MonthWalkCount(y, 1, days);
    } else {
      YearWalkCount(y + 1, days - DaysInYear(y));
    }
  }

  /** Counting the days back from the date of a day count gives that count. */
  lemma DaysOfCivil(days: nat)
    ensures DaysFromCivil(CivilFromDays(days)) == days
  {
    YearWalkCount(Epoch, days);
  }

  lemma {:induction false} MonthWalkOfDate(y: int, m: int, d: Date, days: nat)
    requires 1 <= m <= d.month <= 12 && d.year == y && 1 <= d.day <= DaysInMonth(y, d.month)
    requires DaysBeforeMonth(y, m) + days == DaysBeforeMonth(y, d.month) + d.day - 1
    ensures days < DaysBeforeMonth(y, 13) - DaysBeforeMonth(y, m)
    ensures MonthWalk(y, m, days) == d
    decreases d.month - m
  {
    BeforeMonthStep(y, m);
    if m < d.month {
      MonthWalkOfDate(y, m + 1, d, days - DaysInMonth(y, m));
    } else {
      BeforeMonthStep(y, d.month);
      BeforeMonthGrows(y, d.month + 1, 13);
    }
  }

  lemma {:induction false} BeforeMonthGrows(y: int, m: int, n: int)
    requires 1 <= m <= n <= 13
    ensures DaysBeforeMonth(y, m) <= DaysBeforeMonth(y, n)
  {
  }

  lemma {:induction false} YearWalkOfDate(y: int, d: Date)
    requires Epoch <= y <= d.year && Valid(d)
    ensures YearWalk(y, YearsSpan(y, d.year) + DaysBeforeMonth(d.year, d.month) + d.day - 1) == d
    decreases d.year - y
  {
    var days := YearsSpan(y, d.year) + DaysBeforeMonth(d.year, d.month) + d.day - 1;
    if y < d.year {
      YearWalkOfDate(y + 1, d);
    } else {
      MonthsFillYear(y);
      MonthWalkOfDate(y, 1, d, days);
    }
  }

  /** The date of a date's day count is that date. */
  lemma CivilOfDays(d: Date)
    requires Valid(d)
    ensures CivilFromDays(DaysFromCivil(d)) == d
  {
    YearWalkOfDate(Epoch, d);
  }

  /** Different day counts fall on different dates. */
  lemma CivilInjective(a: nat, b: nat)
    ensures CivilFromDays(a) == CivilFromDays(b) <==> a == b
  {
    DaysOfCivil(a);
    DaysOfCivil(b);
  }

  lemma {:induction false} YearsSpanSplit(a: int, b: int, c: int)
    requires a <= b <= c
    ensures YearsSpan(a, c) == YearsSpan(a, b) + YearsSpan(b, c)
    decreases b - a
  {
    if a < b {
      YearsSpanSplit(a + 1, b, c);
    }
  }

  /** The day counts that fall before year `y` are exactly those below the days of the
      years from 1970 to `y`. */
  lemma YearBound(days: nat, y: int)
    requires y >= Epoch
    ensures CivilFromDays(days).year < y <==> days < YearsSpan(Epoch, y)
  {
    var d := CivilFromDays(days);
    YearWalkCount(Epoch, days);
    BeforeMonthStep(d.year, d.month);
    BeforeMonthGrows(d.year, d.month + 1, 13);
    MonthsFillYear(d.year);
    if d.year < y {
      YearsSpanSplit(Epoch, d.year, y);
      assert YearsSpan(d.year, y) == DaysInYear(d.year) + YearsSpan(d.year + 1, y);
    } else {
      YearsSpanSplit(Epoch, y, d.year);
    }
  }
}
