/** UTC calendar dates as day numbers counted from 1970-01-01, and the
    `YYYY-MM-DD` rendering of a day (`toISO` in dashboard.service.js). A
    JavaScript `Date` cursor moved with `setUTCDate(getUTCDate() ± 1)` is a day
    number moved by one; `NextDayIsNextDate` shows the day numbering is the
    Gregorian calendar. */
module Calendar {
  import opened Strings

  const EpochYear: int := 1970

  predicate IsLeapYear(y: int) {
    y % 4 == 0 && (y % 100 != 0 || y % 400 == 0)
  }

  function DaysInYear(y: int): nat {
    if IsLeapYear(y) then 366 else 365
  }

  function DaysInMonth(y: int, m: int): nat
    requires 1 <= m <= 12
  {
    if m == 2 then (if IsLeapYear(y) then 29 else 28)
    else if m == 4 || m == 6 || m == 9 || m == 11 then 30
    else 31
  }

  /** Days of year `y` that come before the first of month `m` (13 = the whole year). */
  function DaysBeforeMonth(y: int, m: int): nat
    requires 1 <= m <= 13
  {
    [0, 31, 59, 90, 120, 151, 181, 212, 243, 273, 304, 334, 365][m - 1]
      + (if IsLeapYear(y) && m > 2 then 1 else 0)
  }

  lemma MonthStep(y: int, m: int)
    requires 1 <= m <= 12
    ensures DaysBeforeMonth(y, m + 1) == DaysBeforeMonth(y, m) + DaysInMonth(y, m)
    ensures DaysBeforeMonth(y, 13) == DaysInYear(y)
  {
  }

  datatype Date = Date(year: int, month: int, day: int)

  predicate ValidDate(c: Date) {
    1 <= c.month <= 12 && 1 <= c.day <= DaysInMonth(c.year, c.month)
  }

  /** Days from the first of January of year `a` to that of year `b`. */
  function DaysBetweenYears(a: int, b: int): int
    requires a <= b
    decreases b - a
  {
    if a == b then 0 else DaysInYear(a) + DaysBetweenYears(a + 1, b)
  }

  /** The day number of a date, counted from 1970-01-01. */
  function DayOfDate(c: Date): int
    requires c.year >= EpochYear && ValidDate(c)
  {
    DaysBetweenYears(EpochYear, c.year) + DaysBeforeMonth(c.year, c.month) + c.day - 1
  }

  /** The date `n` days after the first of month `m` of year `y`, within that year. */
  function MonthWalk(y: int, m: int, n: nat): (c: Date)
    requires 1 <= m <= 12 && DaysBeforeMonth(y, m) + n < DaysInYear(y)
    ensures ValidDate(c) && c.year == y && m <= c.month
    ensures DaysBeforeMonth(y, c.month) + c.day - 1 == DaysBeforeMonth(y, m) + n
    decreases 12 - m
  {
    MonthStep(y, m);
    if n < DaysInMonth(y, m) then Date(y, m, n + 1)
    else MonthWalk(y, m + 1, n - DaysInMonth(y, m))
  }

  /** The date `n` days after the first of January of year `y`. */
  function YearWalk(y: int, n: nat): (c: Date)
    ensures ValidDate(c) && c.year >= y
    ensures DaysBetweenYears(y, c.year) + DaysBeforeMonth(c.year, c.month) + c.day - 1 == n
    decreases n
  {
    MonthStep(y, 12);
    if n < DaysInYear(y) then MonthWalk(y, 1, n)
    else YearWalk(y + 1, n - DaysInYear(y))
  }

  /** The UTC calendar date of day number `n`. */
  function DateOfDay(n: nat): (c: Date)
    ensures ValidDate(c) && c.year >= EpochYear
    ensures DayOfDate(c) == n
  {
    YearWalk(EpochYear, n)
  }

  /** The calendar's next date: what `setUTCDate(getUTCDate() + 1)` does to a date. */
  function NextDate(c: Date): Date
    requires ValidDate(c)
  {
    if c.day < DaysInMonth(c.year, c.month) then Date(c.year, c.month, c.day + 1)
    else if c.month < 12 then Date(c.year, c.month + 1, 1)
    else Date(c.year + 1, 1, 1)
  }

  lemma {:induction false} MonthWalkNext(y: int, m: int, n: nat)
    requires 1 <= m <= 12 && DaysBeforeMonth(y, m) + n + 1 < DaysInYear(y)
    ensures MonthWalk(y, m, n + 1) == NextDate(MonthWalk(y, m, n))
    decreases 12 - m
  {
    MonthStep(y, m);
    if n + 1 < DaysInMonth(y, m) {
    } else if n + 1 == DaysInMonth(y, m) {
      assert MonthWalk(y, m + 1, 0) == Date(y, m + 1, 1);
    } else {
      MonthWalkNext(y, m + 1, n - DaysInMonth(y, m));
    }
  }

  lemma {:induction false} MonthWalkLast(y: int, m: int, n: nat)
    requires 1 <= m <= 12 && DaysBeforeMonth(y, m) + n + 1 == DaysInYear(y)
    ensures MonthWalk(y, m, n) == Date(y, 12, 31)
    decreases 12 - m
  {
    MonthStep(y, m);
    if n >= DaysInMonth(y, m) {
      MonthWalkLast(y, m + 1, n - DaysInMonth(y, m));
    }
  }

  lemma {:induction false} YearWalkNext(y: int, n: nat)
    ensures YearWalk(y, n + 1) == NextDate(YearWalk(y, n))
    decreases n
  {
    MonthStep(y, 12);
    if n + 1 < DaysInYear(y) {
      MonthWalkNext(y, 1, n);
    } else if n + 1 == DaysInYear(y) {
      MonthWalkLast(y, 1, n);
      assert YearWalk(y + 1, 0) == MonthWalk(y + 1, 1, 0) == Date(y + 1, 1, 1);
    } else {
      YearWalkNext(y + 1, n - DaysInYear(y));
    }
  }

  /** Day number `n + 1` is the calendar date after day number `n`. */
  lemma NextDayIsNextDate(n: nat)
    ensures DateOfDay(n + 1) == NextDate(DateOfDay(n))
  {
    YearWalkNext(EpochYear, n);
  }

  /** A date as `toISO` renders it: the year, then the two-digit month and day,
      separated by dashes. */
  function FormatDate(c: Date): (r: string)
    requires c.year >= 0 && ValidDate(c)
    ensures |r| == |Decimal(c.year)| + 6
  {
    Decimal(c.year) + "-" + Pad2(c.month) + "-" + Pad2(c.day)
  }

  lemma FormatDateInjective(c: Date, e: Date)
    requires c.year >= 0 && ValidDate(c) && e.year >= 0 && ValidDate(e)
    requires FormatDate(c) == FormatDate(e)
    ensures c == e
  {
    var s := FormatDate(c);
    var n := |Decimal(c.year)|;
    assert Decimal(c.year) == s[..n] == Decimal(e.year);
    DecimalInjective(c.year, e.year);
    assert Pad2(c.month) == s[n + 1..n + 3] == Pad2(e.month);
    assert Pad2(c.day) == s[n + 4..n + 6] == Pad2(e.day);
  }

  /** `toISO(d)`: the `YYYY-MM-DD` string of a day number. */
  function ToISO(d: nat): (r: string)
  {
    FormatDate(DateOfDay(d))
  }

  /** Different days never share an ISO string, so dates are usable as keys. */
  lemma ToISOInjective(a: nat, b: nat)
    requires ToISO(a) == ToISO(b)
    ensures a == b
  {
    FormatDateInjective(DateOfDay(a), DateOfDay(b));
  }
}
