/**
 The proleptic Gregorian calendar that the date library of the service
 works in: leap years, month lengths, the day of the year (ordinal), and a
 day count running across years, so that the number of whole days between
 two dates is the difference of their day counts.
 */
module Calendar {

  import opened RustInt

  /** A calendar date; `month` runs 1..12 and `day` from 1. Years use astronomical numbering. */
  datatype Date = Date(year: int, month: int, day: int) {

    /** True if the date exists in the proleptic Gregorian calendar. */
    predicate Valid() {
      1 <= month <= 12 && 1 <= day <= DaysInMonth(year, month)
    }
  }

  /** Leap rule: divisible by 4, except centuries not divisible by 400. */
  predicate IsLeapYear(y: int) {
    y % 4 == 0 && (y % 100 != 0 || y % 400 == 0)
  }

  function YearLength(y: int): int {
    if IsLeapYear(y) then 366 else 365
  }

  function DaysInMonth(y: int, m: int): (n: int)
    requires 1 <= m <= 12
    ensures 28 <= n <= 31
    ensures n == 29 <==> m == 2 && IsLeapYear(y)
  {
    if m == 2 then (if IsLeapYear(y) then 29 else 28)
    else if m == 4 || m == 6 || m == 9 || m == 11 then 30
    else 31
  }

  /** Cumulative month lengths: days of year `y` that lie before month `m` (13 stands for the year's end). */
  function DaysBeforeMonth(y: int, m: int): (n: int)
    requires 1 <= m <= 13
  {
    var table := [0, 31, 59, 90, 120, 151, 181, 212, 243, 273, 304, 334, 365];
    table[m - 1] + (if m > 2 && IsLeapYear(y) then 1 else 0)
  }

  /** Reference definition of `DaysBeforeMonth`: the month lengths added up one by one. */
  function MonthLengthsBefore(y: int, m: int): nat
    requires 1 <= m <= 13
  {
    if m == 1 then 0 else MonthLengthsBefore(y, m - 1) + DaysInMonth(y, m - 1)
  }

  /** The cumulative table agrees with adding up the month lengths, and so spans the whole year. */
  lemma {:induction false} CumulativeTableIsSum(y: int, m: int)
    requires 1 <= m <= 13
    ensures DaysBeforeMonth(y, m) == MonthLengthsBefore(y, m)
    ensures DaysBeforeMonth(y, 13) == YearLength(y)
  {
    if m > 1 {
      CumulativeTableIsSum(y, m - 1);
      MonthStep(y, m - 1);
    }
  }

  /** One month further on, the cumulative count grows by that month's length. */
  lemma MonthStep(y: int, m: int)
    requires 1 <= m <= 12
    ensures DaysBeforeMonth(y, m + 1) == DaysBeforeMonth(y, m) + DaysInMonth(y, m)
  {
  }

  /** Day of the year, 1 on January 1 (the library's `ordinal`). */
  function Ordinal(d: Date): (n: int)
    requires d.Valid()
    ensures 1 <= n <= 366
    ensures n == 366 ==> IsLeapYear(d.year)
    ensures n == 1 <==> d.month == 1 && d.day == 1
  {
    MonthStep(d.year, d.month);
    MonthStep(d.year, 12);
    DaysBeforeMonth(d.year, d.month) + d.day
  }

  /** Days of all years before `y`, counted from January 1 of year 1. */
  function DaysBeforeYear(y: int): int {
    var p := y - 1;
    365 * p + p / 4 - p / 100 + p / 400
  }

  /** Running day count: 1 on January 1 of year 1, one more for every following day. */
  function DayNumber(d: Date): int
    requires d.Valid()
  {
    DaysBeforeYear(d.year) + Ordinal(d)
  }

  /** Days in the years from `a` up to, not including, `b`; negative when `b` comes first. */
  function YearSpan(a: int, b: int): int
    decreases if a <= b then b - a else a - b
  {
    if a == b then 0
    else if a < b then YearSpan(a, b - 1) + YearLength(b - 1)
    else YearSpan(a - 1, b) - YearLength(a - 1)
  }

  /**
   Whole days from `from` to `to`, negative when `to` comes first (the
   library's `signed_duration_since(..).num_days()` on two dates): the
   lengths of the years in between, corrected by the two days of the year.
   */
  function DaysBetween(to: Date, from: Date): (days: int)
    requires to.Valid() && from.Valid()
    ensures to.year == from.year ==> days == Ordinal(to) - Ordinal(from)
  {
    YearSpan(from.year, to.year) + Ordinal(to) - Ordinal(from)
  }

  /** The day after `d`. */
  function NextDay(d: Date): (e: Date)
    requires d.Valid()
    ensures e.Valid()
  {
    if d.day < DaysInMonth(d.year, d.month) then Date(d.year, d.month, d.day + 1)
    else if d.month < 12 then Date(d.year, d.month + 1, 1)
    else Date(d.year + 1, 1, 1)
  }

  /** `(y / k) - ((y - 1) / k)` is 1 exactly when `k` divides `y`. */
  lemma FloorStep(y: int, k: int)
    requires k > 0
    ensures y / k - (y - 1) / k == (if y % k == 0 then 1 else 0)
  {
    var q, r := y / k, y % k;
    assert y == k * q + r && 0 <= r < k;
    if r == 0 {
      assert y - 1 == k * (q - 1) + (k - 1);
      DivUnique(y - 1, k, q - 1, k - 1);
    } else {
      assert y - 1 == k * q + (r - 1);
      DivUnique(y - 1, k, q, r - 1);
    }
  }

  lemma DivUnique(a: int, k: int, q: int, r: int)
    requires k > 0 && 0 <= r < k && a == k * q + r
    ensures a / k == q
  {
    var q' := a / k;
    MulMonotone(q' + 1, q, k);
    MulMonotone(q + 1, q', k);
  }

  /** The year count steps by exactly the length of the year just passed. */
  lemma {:induction false} YearStep(y: int)
    ensures DaysBeforeYear(y + 1) == DaysBeforeYear(y) + YearLength(y)
  {
    FloorStep(y, 4);
    FloorStep(y, 100);
    FloorStep(y, 400);
  }

  /** Adding up year lengths agrees with the closed form of the day count. */
  lemma {:induction false} YearSpanClosedForm(a: int, b: int)
    ensures YearSpan(a, b) == DaysBeforeYear(b) - DaysBeforeYear(a)
    decreases if a <= b then b - a else a - b
  {
    if a < b {
      YearSpanClosedForm(a, b - 1);
      YearStep(b - 1);
    } else if a > b {
      YearSpanClosedForm(a - 1, b);
      YearStep(a - 1);
    }
  }

  /** The whole-day difference of two dates is the difference of their day numbers. */
  lemma DaysBetweenIsDayNumberDifference(to: Date, from: Date)
    requires to.Valid() && from.Valid()
    ensures DaysBetween(to, from) == DayNumber(to) - DayNumber(from)
  {
    YearSpanClosedForm(from.year, to.year);
  }

  /**
   The whole-day difference counts days: from any valid date to the next
   one, December 31 to January 1 included, it is exactly one.
   */
  lemma {:induction false} DaysBetweenNext(d: Date)
    requires d.Valid()
    ensures DayNumber(NextDay(d)) == DayNumber(d) + 1
    ensures DaysBetween(NextDay(d), d) == 1
  {
    MonthStep(d.year, d.month);
    if d.day == DaysInMonth(d.year, d.month) && d.month == 12 {
      YearStep(d.year);
      CumulativeTableIsSum(d.year, 13);
    }
    DaysBetweenIsDayNumberDifference(NextDay(d), d);
  }

  /** `a` is on or before `b`, both in one year. */
  predicate OnOrBefore(a: Date, b: Date) {
    a.year == b.year && (a.month < b.month || (a.month == b.month && a.day <= b.day))
  }

  lemma DaysBeforeMonthMonotone(y: int, m1: int, m2: int)
    requires 1 <= m1 <= m2 <= 13
    ensures DaysBeforeMonth(y, m1) <= DaysBeforeMonth(y, m2)
  {
  }

  /** Within one year the ordinal follows calendar order, in both directions. */
  lemma OrdinalOrder(a: Date, b: Date)
    requires a.Valid() && b.Valid() && a.year == b.year
    ensures OnOrBefore(a, b) <==> Ordinal(a) <= Ordinal(b)
  {
    if a.month < b.month {
      MonthStep(a.year, a.month);
      DaysBeforeMonthMonotone(a.year, a.month + 1, b.month);
    } else if b.month < a.month {
      MonthStep(a.year, b.month);
      DaysBeforeMonthMonotone(a.year, b.month + 1, a.month);
    }
  }

  /** Two valid dates of one year with the same ordinal are the same date. */
  lemma OrdinalInjective(a: Date, b: Date)
    requires a.Valid() && b.Valid() && a.year == b.year
    requires Ordinal(a) == Ordinal(b)
    ensures a == b
  {
    OrdinalOrder(a, b);
    OrdinalOrder(b, a);
  }

  /** The date of year `y` whose ordinal is `n`, searching from month `m` on. */
  function DateOfOrdinalFrom(y: int, n: int, m: int): (d: Date)
    requires 1 <= m <= 12
    requires DaysBeforeMonth(y, m) < n <= YearLength(y)
    ensures d.Valid() && d.year == y && m <= d.month
    ensures Ordinal(d) == n
    decreases 12 - m
  {
    MonthStep(y, m);
    MonthStep(y, 12);
    if m == 12 || n <= DaysBeforeMonth(y, m + 1) then Date(y, m, n - DaysBeforeMonth(y, m))
    else DateOfOrdinalFrom(y, n, m + 1)
  }

  /** Inverse of `Ordinal`: the date of year `y` that is day `n` of that year. */
  function DateOfOrdinal(y: int, n: int): (d: Date)
    requires 1 <= n <= YearLength(y)
    ensures d.Valid() && d.year == y && Ordinal(d) == n
  {
    DateOfOrdinalFrom(y, n, 1)
  }

  /** `Ordinal` and `DateOfOrdinal` are mutually inverse, so a year's days are numbered 1..YearLength without gaps or repeats. */
  lemma OrdinalRoundTrip(d: Date)
    requires d.Valid()
    ensures DateOfOrdinal(d.year, Ordinal(d)) == d
  {
    OrdinalInjective(DateOfOrdinal(d.year, Ordinal(d)), d);
  }
}
