/** Calendar arithmetic (kernel/util/timestamp.c) against the formula of section 4.16 of the
    POSIX.1-2017 Base Definitions. */
module Timestamp {
  const DAY := 86400

  datatype Date = Date(year: nat, month: nat, day: nat, hour: nat, minute: nat, second: nat) {
    /** A date that exists, from 1970 on, with the widths of the fields. */
    predicate Valid() {
      && 1970 <= year < 65536 && 1 <= month <= 12 && 1 <= day <= DaysInMonth(month, year)
      && hour < 24 && minute < 60 && second < 60
    }
  }

  predicate Leap(y: nat) { (y % 4 == 0 && y % 100 != 0) || y % 400 == 0 }

  /** `__days_in_month` */
  function DaysInMonth(m: nat, y: nat): nat {
    if m in {1, 3, 5, 7, 8, 10, 12} then 31
    else if m in {4, 6, 9, 11} then 30
    else if m == 2 then if Leap(y) then 29 else 28
    else 0
  }

  // ---- the formula

  /** Days before January 1 of the year, by the formula. */
  function DaysToYear(y: nat): int { 365 * (y - 1970) + (y - 1969) / 4 - (y - 1901) / 100 + (y - 1601) / 400 }

  /** Days before the month in a year that is not a leap year. */
  function DaysToMonth(m: nat): nat
    requires 1 <= m <= 13
  {
    [0, 31, 59, 90, 120, 151, 181, 212, 243, 273, 304, 334, 365][m - 1]
  }

  /** Days since January 1. */
  function YearDay(d: Date): int
    requires d.Valid()
  {
    DaysToMonth(d.month) + (if d.month > 2 && Leap(d.year) then 1 else 0) + d.day - 1
  }

  function Posix(d: Date): int
    requires d.Valid()
  {
    d.second + d.minute * 60 + d.hour * 3600 + YearDay(d) * DAY + DaysToYear(d.year) * DAY
  }

  // ---- the loops

  lemma YearStep(y: nat)
    requires y >= 1970
    ensures DaysToYear(y + 1) - DaysToYear(y) == if Leap(y) then 366 else 365
  {
    hide Leap;
    Step4(y);
    Step100(y);
    Step400(y);
    Nested(y);
  }

  lemma Step4(y: nat)
    ensures (y - 1968) / 4 == (y - 1969) / 4 + if y % 4 == 0 then 1 else 0
  {
  }

  lemma Step100(y: nat)
    ensures (y - 1900) / 100 == (y - 1901) / 100 + if y % 100 == 0 then 1 else 0
  {
  }

  lemma Step400(y: nat)
    ensures (y - 1600) / 400 == (y - 1601) / 400 + if y % 400 == 0 then 1 else 0
  {
  }

  lemma Nested(y: nat)
    ensures (if Leap(y) then 1 else 0) ==
            (if y % 4 == 0 then 1 else 0) - (if y % 100 == 0 then 1 else 0) + if y % 400 == 0 then 1 else 0
  {
    if y % 400 == 0 { assert y == 100 * (4 * (y / 400)); }
    if y % 100 == 0 { assert y == 4 * (25 * (y / 100)); }
  }

  /** Days before month `m` of year `y`, by the table. */
  function DaysBefore(m: nat, y: nat): nat
    requires 1 <= m <= 13
  {
    DaysToMonth(m) + if m > 2 && Leap(y) then 1 else 0
  }

  lemma MonthStep(m: nat, y: nat)
    requires 1 <= m <= 12
    ensures DaysBefore(m + 1, y) - DaysBefore(m, y) == DaysInMonth(m, y)
  {
  }

  /** `timestamp_calc` agrees with the formula on every date from 1970 on. */
  method Calc(d: Date) returns (res: int)
    requires d.Valid()
    ensures res == Posix(d)
  {
    res := 0;
    var i := 1970;
    while i < d.year
      invariant 1970 <= i <= d.year && res == DaysToYear(i) * DAY
    {
      YearStep(i);
      res := res + if Leap(i) then 366 * DAY else 365 * DAY;
      i := i + 1;
    }
    i := 1;
    while i < d.month
      invariant 1 <= i <= d.month && res == (DaysToYear(d.year) + DaysBefore(i, d.year)) * DAY
    {
      MonthStep(i, d.year);
      res := res + DaysInMonth(i, d.year) * DAY;
      i := i + 1;
    }
    res := res + (d.day - 1) * DAY;
    res := res + d.hour * 3600;
    res := res + d.minute * 60;
    res := res + d.second;
  }

  // ---- order

  predicate Before(a: Date, b: Date) {
    || a.year < b.year
    || (a.year == b.year && (a.month < b.month
        || (a.month == b.month && (a.day < b.day
            || (a.day == b.day
               && a.hour * 3600 + a.minute * 60 + a.second < b.hour * 3600 + b.minute * 60 + b.second)))))
  }

  lemma {:induction false} YearsAscend(y: nat, z: nat)
    requires 1970 <= y < z
    ensures DaysToYear(y) + (if Leap(y) then 366 else 365) <= DaysToYear(z)
    decreases z - y
  {
    YearStep(y);
    if y + 1 < z { YearsAscend(y + 1, z); }
  }

  lemma {:induction false} MonthsAscend(m: nat, n: nat, y: nat)
    requires 1 <= m < n <= 13
    ensures DaysBefore(m, y) + DaysInMonth(m, y) <= DaysBefore(n, y)
    decreases n - m
  {
    MonthStep(m, y);
    if m + 1 < n { MonthsAscend(m + 1, n, y); }
  }

  /** Later dates have greater timestamps, so distinct dates have distinct ones. */
  lemma Ascending(a: Date, b: Date)
    requires a.Valid() && b.Valid()
    ensures Posix(a) < Posix(b) <==> Before(a, b)
    ensures Posix(a) == Posix(b) ==> a == b
  {
    hide Posix, Before;
    if Before(a, b) {
      Later(a, b);
    } else if Before(b, a) {
      Later(b, a);
    } else {
      Split(a, b);
    }
  }

  lemma Split(a: Date, b: Date)
    requires a.Valid() && b.Valid() && !Before(a, b) && !Before(b, a)
    ensures a == b
  {
    var x, y := a.hour * 60 + a.minute, b.hour * 60 + b.minute;
    assert x == y && a.second == b.second;
  }

  lemma Later(a: Date, b: Date)
    requires a.Valid() && b.Valid() && Before(a, b)
    ensures Posix(a) < Posix(b)
  {
    hide DaysToYear, DaysToMonth, DaysInMonth;
    MonthsAscend(a.month, 13, a.year);
    YearLength(a.year);
    if a.year < b.year { YearsAscend(a.year, b.year); }
    if a.month < b.month { MonthsAscend(a.month, b.month, b.year); }
  }

  lemma YearLength(y: nat)
    ensures DaysBefore(13, y) == if Leap(y) then 366 else 365
  {
  }
}
