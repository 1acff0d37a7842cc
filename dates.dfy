/** Calendar days of the proleptic Gregorian calendar, with no time of day.
    A date is paired with its day number (day 0 is 1 January of year 1), so
    that adding days, comparing dates and taking the weekday are integer
    arithmetic, as they are on the millisecond time value of a JavaScript Date. */
module Dates {

  /** A calendar day: month 1..12, day of the month 1..31. */
  datatype Date = Date(year: int, month: int, day: int)

  /** The value `getDay()` gives for a Sunday. */
  const Sunday := 0
  /** The value `getDay()` gives for a Wednesday. */
  const Wednesday := 3

  predicate IsLeapYear(y: int)
  {
    y % 4 == 0 && (y % 100 != 0 || y % 400 == 0)
  }

  function DaysInYear(y: int): int
  {
    if IsLeapYear(y) then 366 else 365
  }

  function DaysInMonth(y: int, m: int): (n: int)
    requires 1 <= m <= 12
    ensures 28 <= n <= 31
  {
    if m == 2 then (if IsLeapYear(y) then 29 else 28)
    else if m == 4 || m == 6 || m == 9 || m == 11 then 30
    else 31
  }

  /** A date of year 1 or later whose day exists in its month. */
  predicate ValidDate(d: Date)
  {
    d.year >= 1 && 1 <= d.month <= 12 && 1 <= d.day <= DaysInMonth(d.year, d.month)
  }

  /** Number of days of year y that come before the first of month m;
      m == 13 stands for the day after the year's last day. */
  function DaysBeforeMonth(y: int, m: int): (n: int)
    requires 1 <= m <= 13
  {
    var leapDay := if m > 2 && IsLeapYear(y) then 1 else 0;
    leapDay +
    (if m == 1 then 0 else if m == 2 then 31 else if m == 3 then 59
     else if m == 4 then 90 else if m == 5 then 120 else if m == 6 then 151
     else if m == 7 then 181 else if m == 8 then 212 else if m == 9 then 243
     else if m == 10 then 273 else if m == 11 then 304 else if m == 12 then 334
     else 365)
  }

  lemma DaysBeforeMonthStep(y: int, m: int)
    requires 1 <= m <= 12
    ensures DaysBeforeMonth(y, m + 1) == DaysBeforeMonth(y, m) + DaysInMonth(y, m)
    ensures DaysBeforeMonth(y, 1) == 0 && DaysBeforeMonth(y, 13) == DaysInYear(y)
  {
  }

  /** Day number of 1 January of year y: the lengths of the years before it. */
  function YearStart(y: int): (n: int)
    requires y >= 1
    ensures n >= 0
    decreases y
  {
    if y == 1 then 0 else YearStart(y - 1) + DaysInYear(y - 1)
  }

  /** One year on, the day number has advanced by the length of the year. */
  lemma YearStartStep(y: int)
    requires y >= 1
    ensures YearStart(y + 1) == YearStart(y) + DaysInYear(y)
  {
  }

  /** The closed form: 365 days a year plus one for each leap year before y. */
  lemma {:induction false} YearStartClosedForm(y: int)
    requires y >= 1
    ensures var p := y - 1; YearStart(y) == 365 * p + p / 4 - p / 100 + p / 400
    decreases y
  {
    if y > 1 {
      YearStartClosedForm(y - 1);
      var p := y - 1;
      LeapYearByQuotients(p);
      assert YearStart(y) == YearStart(p) + DaysInYear(p);
    }
  }

  /** Whether year y is a leap year, read off the quotients of y and y - 1 by
      4, 100 and 400. */
  lemma LeapYearByQuotients(y: int)
    ensures var p := y - 1;
      (if IsLeapYear(y) then 1 else 0) == (y / 4 - p / 4) - (y / 100 - p / 100) + (y / 400 - p / 400)
  {
    var p := y - 1;
    assert y / 4 - p / 4 == if y % 4 == 0 then 1 else 0;
    assert y / 100 - p / 100 == if y % 100 == 0 then 1 else 0;
    assert y / 400 - p / 400 == if y % 400 == 0 then 1 else 0;
  }

  lemma {:induction false} YearStartMonotone(a: int, b: int)
    requires 1 <= a <= b
    ensures YearStart(a) + 365 * (b - a) <= YearStart(b) <= YearStart(a) + 366 * (b - a)
    decreases b - a
  {
    if a < b {
      YearStartMonotone(a, b - 1);
    }
  }

  /** The year, from y on, whose days include day number n. */
  function YearFrom(n: int, y: int): (r: int)
    requires y >= 1 && YearStart(y) <= n
    ensures r >= y && YearStart(r) <= n < YearStart(r + 1)
    decreases n - YearStart(y)
  {
    if n < YearStart(y + 1) then y else YearFrom(n, y + 1)
  }

  /** The year whose days include day number n. */
  function YearOf(n: int): (r: int)
    requires n >= 0
    ensures r >= 1 && YearStart(r) <= n < YearStart(r + 1)
  {
    var p := n / 366;
    YearStartMonotone(1, p + 1);
    YearFrom(n, p + 1)
  }

  /** The month, from m on, of the r-th day (from 0) of year y. */
  function MonthFrom(y: int, r: int, m: int): (k: int)
    requires 1 <= m <= 12 && DaysBeforeMonth(y, m) <= r < DaysInYear(y)
    ensures m <= k <= 12 && DaysBeforeMonth(y, k) <= r < DaysBeforeMonth(y, k + 1)
    decreases 12 - m
  {
    if m == 12 || r < DaysBeforeMonth(y, m + 1) then m else MonthFrom(y, r, m + 1)
  }

  /** The date whose day number is n. */
  function FromDayNumber(n: int): (d: Date)
    requires n >= 0
    ensures ValidDate(d) && DayNumber(d) == n
  {
    var y := YearOf(n);
    var r := n - YearStart(y);
    var m := MonthFrom(y, r, 1);
    DaysBeforeMonthStep(y, m);
    Date(y, m, r - DaysBeforeMonth(y, m) + 1)
  }

  /** Days since 1 January of year 1: the model of a Date's time value. */
  function DayNumber(d: Date): (n: int)
    requires ValidDate(d)
    ensures n >= 0
  {
    YearStart(d.year) + DaysBeforeMonth(d.year, d.month) + d.day - 1
  }

  /** A date lies in its year: its day number is at least the year's first and
      below the next year's first. */
  lemma DayNumberInYear(d: Date)
    requires ValidDate(d)
    ensures YearStart(d.year) <= DayNumber(d) < YearStart(d.year + 1)
  {
    DaysBeforeMonthStep(d.year, d.month);
    if d.month < 12 {
      DaysBeforeMonthStep(d.year, 12);
    }
  }

  lemma {:induction false} DaysBeforeMonthMonotone(y: int, a: int, b: int)
    requires 1 <= a <= b <= 13
    ensures DaysBeforeMonth(y, a) <= DaysBeforeMonth(y, b)
    decreases b - a
  {
    if a < b {
      DaysBeforeMonthMonotone(y, a, b - 1);
      DaysBeforeMonthStep(y, b - 1);
    }
  }

  /** Only one year contains a given day number. */
  lemma YearOfUnique(n: int, y: int)
    requires y >= 1 && YearStart(y) <= n < YearStart(y + 1)
    ensures n >= 0 && YearOf(n) == y
  {
    YearStartMonotone(1, y);
    var x := YearOf(n);
    if x < y {
      YearStartMonotone(x + 1, y);
    } else if x > y {
      YearStartMonotone(y + 1, x);
    }
  }

  /** Only one month of a year contains a given day of that year. */
  lemma MonthFromUnique(y: int, r: int, m: int)
    requires 1 <= m <= 12 && DaysBeforeMonth(y, m) <= r < DaysBeforeMonth(y, m + 1)
    ensures 0 <= r < DaysInYear(y) && MonthFrom(y, r, 1) == m
  {
    DaysBeforeMonthMonotone(y, 1, m);
    DaysBeforeMonthMonotone(y, m + 1, 13);
    DaysBeforeMonthStep(y, 1);
    var k := MonthFrom(y, r, 1);
    if k < m {
      DaysBeforeMonthMonotone(y, k + 1, m);
    } else if k > m {
      DaysBeforeMonthMonotone(y, m + 1, k);
    }
  }

  /** Decoding the day number of a date gives the date back. */
  lemma FromDayNumberOfDate(d: Date)
    requires ValidDate(d)
    ensures DayNumber(d) >= 0 && FromDayNumber(DayNumber(d)) == d
  {
    var n := DayNumber(d);
    DayNumberInYear(d);
    YearOfUnique(n, d.year);
    var r := n - YearStart(d.year);
    DaysBeforeMonthStep(d.year, d.month);
    MonthFromUnique(d.year, r, d.month);
  }

  /** A date whose day number lies in year y's days is a date of year y. */
  lemma YearOfDate(d: Date, y: int)
    requires ValidDate(d) && y >= 1 && YearStart(y) <= DayNumber(d) < YearStart(y + 1)
    ensures d.year == y
  {
    DayNumberInYear(d);
    YearOfUnique(DayNumber(d), d.year);
    YearOfUnique(DayNumber(d), y);
  }

  /** Two valid dates are the same date exactly when their day numbers agree. */
  lemma DayNumberInjective(a: Date, b: Date)
    requires ValidDate(a) && ValidDate(b)
    ensures a == b <==> DayNumber(a) == DayNumber(b)
  {
    FromDayNumberOfDate(a);
    FromDayNumberOfDate(b);
  }

  /** The weekday as `getDay()` numbers it: 0 is Sunday, 6 is Saturday
      (1 January of year 1 was a Monday). */
  function Weekday(d: Date): (w: int)
    requires ValidDate(d)
    ensures 0 <= w < 7
  {
    (DayNumber(d) + 1) % 7
  }

  /** The weekday of a date read off its day number. */
  lemma WeekdayOfDayNumber(d: Date, n: int)
    requires ValidDate(d) && DayNumber(d) == n
    ensures Weekday(d) == (n + 1) % 7
  {
  }

  /** `addDays(date, days)`: the date `days` days later (earlier when negative),
      as `setDate(getDate() + days)` on a copy normalises it. */
  function AddDays(d: Date, days: int): (r: Date)
    requires ValidDate(d) && DayNumber(d) + days >= 0
    ensures ValidDate(r) && DayNumber(r) == DayNumber(d) + days
  {
    FromDayNumber(DayNumber(d) + days)
  }

  /** `isSameDay(a, b)`: equal full year, month and day of the month. */
  predicate IsSameDay(a: Date, b: Date)
    ensures IsSameDay(a, b) <==> a == b
  {
    a.year == b.year && a.month == b.month && a.day == b.day
  }

  /** For valid dates the same day is equality of day numbers; like equality
      of dates, it is reflexive and symmetric. */
  lemma SameDayIsEquality(a: Date, b: Date)
    requires ValidDate(a) && ValidDate(b)
    ensures IsSameDay(a, b) <==> DayNumber(a) == DayNumber(b)
    ensures IsSameDay(a, a) && (IsSameDay(a, b) <==> IsSameDay(b, a))
  {
    DayNumberInjective(a, b);
  }

  /** Adding n days and then -n days gives back the same day. */
  lemma AddDaysInverse(d: Date, n: int)
    requires ValidDate(d) && DayNumber(d) + n >= 0
    ensures DayNumber(AddDays(d, n)) - n >= 0
    ensures AddDays(AddDays(d, n), -n) == d
    ensures IsSameDay(AddDays(AddDays(d, n), -n), d)
  {
    var e := AddDays(d, n);
    AddDaysByDayNumber(e, -n, d);
  }

  /** The date `days` days after d is the valid date whose day number is
      that many more: it is determined by its day number. */
  lemma AddDaysByDayNumber(d: Date, days: int, e: Date)
    requires ValidDate(d) && ValidDate(e) && DayNumber(e) == DayNumber(d) + days
    ensures AddDays(d, days) == e
  {
    FromDayNumberOfDate(e);
  }

  /** Adding days moves the weekday round the week by the same amount. */
  lemma AddDaysWeekday(d: Date, n: int)
    requires ValidDate(d) && DayNumber(d) + n >= 0
    ensures Weekday(AddDays(d, n)) == (Weekday(d) + n) % 7
  {
    WeekdayShift(d, n, AddDays(d, n));
  }

  /** A date n days after another is n weekdays further round the week. */
  lemma WeekdayShift(a: Date, n: int, b: Date)
    requires ValidDate(a) && ValidDate(b) && DayNumber(b) == DayNumber(a) + n
    ensures Weekday(b) == (Weekday(a) + n) % 7
  {
    var x := DayNumber(a) + 1;
    WeekdayOfDayNumber(a, DayNumber(a));
    WeekdayOfDayNumber(b, DayNumber(b));
    assert x + n == 7 * (x / 7) + (x % 7 + n);
    ModSevenShift(x / 7, x % 7 + n);
  }

  lemma ModSevenShift(k: int, t: int)
    ensures (7 * k + t) % 7 == t % 7
  {
  }
}
