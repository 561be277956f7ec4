/**
  Calendar dates as the booking widget sees them through JavaScript's `Date`:
  a year, a month numbered 0 to 11 and a day of the month, on the proleptic
  Gregorian calendar. Day numbers follow ECMAScript's time arithmetic (day 0 is
  1 January 1970, a Thursday), so weekdays and comparisons are those of
  `getDay()` and of `<` on two `Date` objects.
*/
module Dates {

  datatype Date = Date(year: int, month: int, day: int)

  /** The instant `new Date()` returns: a local date and the milliseconds since its midnight. */
  datatype Now = Now(date: Date, msOfDay: int)

  const MsPerDay: int := 86400000

  predicate IsLeapYear(y: int) {
    y % 4 == 0 && (y % 100 != 0 || y % 400 == 0)
  }

  function DaysInYear(y: int): int {
    if IsLeapYear(y) then 366 else 365
  }

  function DaysInMonth(y: int, m: int): (n: int)
    requires 0 <= m < 12
    ensures 28 <= n <= 31
    ensures m == 1 ==> (n == 29 <==> IsLeapYear(y))
  {
    if m == 1 then (if IsLeapYear(y) then 29 else 28)
    else if m == 3 || m == 5 || m == 8 || m == 10 then 30
    else 31
  }

  predicate ValidDate(d: Date) {
    0 <= d.month < 12 && 1 <= d.day <= DaysInMonth(d.year, d.month)
  }

  predicate ValidNow(n: Now) {
    ValidDate(n.date) && 0 <= n.msOfDay < MsPerDay
  }

  /** ECMAScript's DayFromYear: the day number of 1 January of year `y`. */
  function DayFromYear(y: int): int {
    365 * (y - 1970) + (y - 1969) / 4 - (y - 1901) / 100 + (y - 1601) / 400
  }

  /** Days of year `y` before the first of month `m` (`m == 12` gives the whole year). */
  function DaysBeforeMonth(y: int, m: int): int
    requires 0 <= m <= 12
  {
    [0, 31, 59, 90, 120, 151, 181, 212, 243, 273, 304, 334, 365][m]
      + (if m > 1 && IsLeapYear(y) then 1 else 0)
  }

  /** The day number of the first of month `m` of year `y`. */
  function MonthStart(y: int, m: int): int
    requires 0 <= m < 12
  {
    DayFromYear(y) + DaysBeforeMonth(y, m)
  }

  /** The day number of a date, ECMAScript's MakeDay for an in-range month and day. */
  function DayNumber(d: Date): int
    requires 0 <= d.month < 12
  {
    MonthStart(d.year, d.month) + d.day - 1
  }

  /** `getDay()`: 0 is Sunday, 6 is Saturday. */
  function Weekday(d: Date): (w: int)
    requires 0 <= d.month < 12
    ensures 0 <= w < 7
  {
    (DayNumber(d) + 4) % 7
  }

  predicate IsWeekend(d: Date)
    requires 0 <= d.month < 12
  {
    Weekday(d) == 0 || Weekday(d) == 6
  }

  /** Calendar order on dates: by year, then month, then day. */
  predicate Before(a: Date, b: Date) {
    a.year < b.year
    || (a.year == b.year && a.month < b.month)
    || (a.year == b.year && a.month == b.month && a.day < b.day)
  }

  /** `isSameDay` (script.js:115-119): the day, the month and the full year agree. */
  predicate IsSameDay(a: Date, b: Date)
    ensures IsSameDay(a, b) <==> a == b
  {
    a.day == b.day && a.month == b.month && a.year == b.year
  }

  lemma IsSameDayReflexiveSymmetric(a: Date, b: Date)
    ensures IsSameDay(a, a)
    ensures IsSameDay(a, b) <==> IsSameDay(b, a)
  {
  }

  /**
    `currentDay < today` (script.js:103): the time value of the local midnight
    of `d` is below the time value of the instant `now`.
  */
  predicate IsPast(d: Date, now: Now)
    requires 0 <= d.month < 12 && 0 <= now.date.month < 12
  {
    DayNumber(d) * MsPerDay < DayNumber(now.date) * MsPerDay + now.msOfDay
  }

  // ---------------------------------------------------------------------------
  // Year and month arithmetic

  function NextMonthOf(y: int, m: int): (r: (int, int))
    requires 0 <= m < 12
    ensures 0 <= r.1 < 12
    ensures r.0 * 12 + r.1 == y * 12 + m + 1
  {
    if m == 11 then (y + 1, 0) else (y, m + 1)
  }

  function PrevMonthOf(y: int, m: int): (r: (int, int))
    requires 0 <= m < 12
    ensures 0 <= r.1 < 12
    ensures r.0 * 12 + r.1 == y * 12 + m - 1
  {
    if m == 0 then (y - 1, 11) else (y, m - 1)
  }

  lemma YearStep(y: int)
    ensures DayFromYear(y + 1) == DayFromYear(y) + DaysInYear(y)
  {
    assert (y - 1968) / 4 - (y - 1969) / 4 == (if y % 4 == 0 then 1 else 0);
    assert (y - 1900) / 100 - (y - 1901) / 100 == (if y % 100 == 0 then 1 else 0);
    assert (y - 1600) / 400 - (y - 1601) / 400 == (if y % 400 == 0 then 1 else 0);
  }

  lemma {:induction false} YearsAdvance(y1: int, y2: int)
    requires y1 < y2
    ensures DayFromYear(y1) + DaysInYear(y1) <= DayFromYear(y2)
    decreases y2 - y1
  {
    YearStep(y1);
    if y1 + 1 < y2 {
      YearsAdvance(y1 + 1, y2);
    }
  }

  lemma MonthsAdvance(y: int, m1: int, m2: int)
    requires 0 <= m1 < m2 <= 12
    ensures DaysBeforeMonth(y, m1) + DaysInMonth(y, m1) <= DaysBeforeMonth(y, m2)
  {
  }

  /** The first of the next month is `DaysInMonth` days after the first of this one. */
  lemma MonthStep(y: int, m: int)
    requires 0 <= m < 12
    ensures MonthStart(NextMonthOf(y, m).0, NextMonthOf(y, m).1) == MonthStart(y, m) + DaysInMonth(y, m)
  {
    if m == 11 {
      YearStep(y);
    }
  }

  /** Day numbers are strictly increasing in calendar order. */
  lemma {:induction false} DayNumberMonotone(a: Date, b: Date)
    requires ValidDate(a) && ValidDate(b) && Before(a, b)
    ensures DayNumber(a) < DayNumber(b)
  {
    if a.year < b.year {
      MonthsAdvance(a.year, a.month, 12);
      YearsAdvance(a.year, b.year);
    } else if a.month < b.month {
      MonthsAdvance(a.year, a.month, b.month);
    }
  }

  /** Equal day numbers mean equal dates; together with monotonicity, the day number orders dates. */
  lemma DayNumberOrder(a: Date, b: Date)
    requires ValidDate(a) && ValidDate(b)
    ensures Before(a, b) <==> DayNumber(a) < DayNumber(b)
    ensures a == b <==> DayNumber(a) == DayNumber(b)
  {
    if Before(a, b) {
      DayNumberMonotone(a, b);
    } else if Before(b, a) {
      DayNumberMonotone(b, a);
    } else {
      assert a == b;
    }
  }

  /**
    At the level of dates, `currentDay < today` holds exactly for the days before
    today's date and for today itself once the clock is past midnight.
  */
  lemma IsPastIff(d: Date, now: Now)
    requires ValidDate(d) && ValidNow(now)
    ensures IsPast(d, now) <==> Before(d, now.date) || (d == now.date && now.msOfDay > 0)
  {
    DayNumberOrder(d, now.date);
  }

  // ---------------------------------------------------------------------------
  // JavaScript's normalisation of out-of-range months and days

  /**
    The date `d - 1` days after the first of month `m` of year `y`; a day below 1
    borrows from the months before, a day past the end spills into the months after.
  */
  function AddDays(y: int, m: int, d: int): (r: Date)
    requires 0 <= m < 12
    ensures ValidDate(r)
    ensures DayNumber(r) == MonthStart(y, m) + d - 1
    decreases if d < 1 then 1 - d else 0, d
  {
    if d < 1 then
      var p := PrevMonthOf(y, m);
      MonthStep(p.0, p.1);
      AddDays(p.0, p.1, d + DaysInMonth(p.0, p.1))
    else if d > DaysInMonth(y, m) then
      var n := NextMonthOf(y, m);
      MonthStep(y, m);
      AddDays(n.0, n.1, d - DaysInMonth(y, m))
    else
      Date(y, m, d)
  }

  /**
    `new Date(y, m, d)` and `setMonth`: ECMAScript's MakeDay first folds the month
    into the year (`y + floor(m / 12)`, `m mod 12`), then counts `d - 1` days from
    the first of that month.
  */
  function MakeDate(y: int, m: int, d: int): (r: Date)
    ensures ValidDate(r)
    ensures DayNumber(r) == MonthStart(y + m / 12, m % 12) + d - 1
  {
    AddDays(y + m / 12, m % 12, d)
  }

  /** A date already in range is its own normalisation. */
  lemma MakeDateInRange(d: Date)
    requires ValidDate(d)
    ensures MakeDate(d.year, d.month, d.day) == d
  {
    assert d.year + d.month / 12 == d.year && d.month % 12 == d.month;
    DayNumberOrder(MakeDate(d.year, d.month, d.day), d);
  }

  /** The "day 0 of next month" trick (script.js:79) yields the last day of the month. */
  lemma LastDayOfMonth(y: int, m: int)
    requires 0 <= m < 12
    ensures MakeDate(y, m + 1, 0) == Date(y, m, DaysInMonth(y, m))
  {
    var n := NextMonthOf(y, m);
    assert y + (m + 1) / 12 == n.0 && (m + 1) % 12 == n.1;
    MonthStep(y, m);
    DayNumberOrder(MakeDate(y, m + 1, 0), Date(y, m, DaysInMonth(y, m)));
  }

  /** `setMonth(getMonth() + delta)` on a date that keeps its day of the month (script.js:26, 32). */
  function ShiftMonth(c: Date, delta: int): (r: Date)
    ensures ValidDate(r)
  {
    MakeDate(c.year, c.month + delta, c.day)
  }

  /** A month index `12 * year + month` names one (year, month) pair. */
  lemma MonthIndexUnique(a: (int, int), b: (int, int))
    requires 0 <= a.1 < 12 && 0 <= b.1 < 12
    requires a.0 * 12 + a.1 == b.0 * 12 + b.1
    ensures a == b
  {
  }

  /** The month a shift by `delta` aims at, as (year, month). */
  function TargetMonth(c: Date, delta: int): (t: (int, int))
    ensures 0 <= t.1 < 12
    ensures t.0 * 12 + t.1 == c.year * 12 + c.month + delta
  {
    (c.year + (c.month + delta) / 12, (c.month + delta) % 12)
  }

  /**
    A shift lands in the target month, keeping the day, exactly when the day
    exists there; otherwise it spills into the month after, by the excess.
  */
  lemma ShiftMonthLanding(c: Date, delta: int)
    requires ValidDate(c)
    ensures var t := TargetMonth(c, delta);
      (c.day <= DaysInMonth(t.0, t.1) <==> ShiftMonth(c, delta) == Date(t.0, t.1, c.day))
    ensures var t := TargetMonth(c, delta); var n := NextMonthOf(t.0, t.1);
      c.day > DaysInMonth(t.0, t.1) ==> ShiftMonth(c, delta) == Date(n.0, n.1, c.day - DaysInMonth(t.0, t.1))
  {
    var t := TargetMonth(c, delta);
    var r := ShiftMonth(c, delta);
    if c.day <= DaysInMonth(t.0, t.1) {
      DayNumberOrder(r, Date(t.0, t.1, c.day));
    } else {
      var n := NextMonthOf(t.0, t.1);
      MonthStep(t.0, t.1);
      DayNumberOrder(r, Date(n.0, n.1, c.day - DaysInMonth(t.0, t.1)));
    }
  }

  /** For days that every month has, a shift by `delta` keeps the day and moves the month by `delta`. */
  lemma ShiftMonthKeepsEarlyDay(c: Date, delta: int)
    requires ValidDate(c) && c.day <= 28
    ensures var t := TargetMonth(c, delta); ShiftMonth(c, delta) == Date(t.0, t.1, c.day)
  {
    ShiftMonthLanding(c, delta);
  }

  /** For days that every month has, "next" then "previous" returns to the same date, and back. */
  lemma NextThenPrevious(c: Date)
    requires ValidDate(c) && c.day <= 28
    ensures ShiftMonth(ShiftMonth(c, 1), -1) == c
    ensures ShiftMonth(ShiftMonth(c, -1), 1) == c
  {
    var n := ShiftMonth(c, 1);
    ShiftMonthKeepsEarlyDay(c, 1);
    ShiftMonthKeepsEarlyDay(n, -1);
    MonthIndexUnique(TargetMonth(n, -1), (c.year, c.month));
    var p := ShiftMonth(c, -1);
    ShiftMonthKeepsEarlyDay(c, -1);
    ShiftMonthKeepsEarlyDay(p, 1);
    MonthIndexUnique(TargetMonth(p, 1), (c.year, c.month));
  }

  /**
    As written, "next month" from 31 January skips February: the cursor keeps
    day 31, which February lacks, so the shift spills into March.
  */
  lemma NextMonthSkipsFebruary()
    ensures ShiftMonth(Date(2026, 0, 31), 1) == Date(2026, 2, 3)
  {
    ShiftMonthLanding(Date(2026, 0, 31), 1);
  }

  /** Likewise "previous month" from 31 March stays in March. */
  lemma PreviousMonthStaysInMarch()
    ensures ShiftMonth(Date(2026, 2, 31), -1) == Date(2026, 2, 3)
  {
    ShiftMonthLanding(Date(2026, 2, 31), -1);
  }

  /** Month navigation as intended: the cursor moves to the first of the target month. */
  function ShiftMonthFromFirst(c: Date, delta: int): (r: Date)
    ensures ValidDate(r)
  {
    MakeDate(c.year, c.month + delta, 1)
  }

  /** The corrected shift always lands on the first of the month it aims at. */
  lemma ShiftMonthFromFirstLands(c: Date, delta: int)
    ensures var t := TargetMonth(c, delta); ShiftMonthFromFirst(c, delta) == Date(t.0, t.1, 1)
  {
    var t := TargetMonth(c, delta);
    DayNumberOrder(ShiftMonthFromFirst(c, delta), Date(t.0, t.1, 1));
  }

  /** With the corrected shift, "next" then "previous" always returns to the first of the same month. */
  lemma ShiftMonthFromFirstReturns(c: Date)
    requires 0 <= c.month < 12
    ensures ShiftMonthFromFirst(ShiftMonthFromFirst(c, 1), -1) == Date(c.year, c.month, 1)
  {
    var n := ShiftMonthFromFirst(c, 1);
    ShiftMonthFromFirstLands(c, 1);
    ShiftMonthFromFirstLands(n, -1);
    MonthIndexUnique(TargetMonth(n, -1), (c.year, c.month));
  }

  // ---------------------------------------------------------------------------
  // Concrete dates

  lemma EpochIsThursday()
    ensures DayNumber(Date(1970, 0, 1)) == 0 && Weekday(Date(1970, 0, 1)) == 4
  {
    assert DayFromYear(1970) == 0;
    assert DaysBeforeMonth(1970, 0) == 0;
  }

  lemma Examples()
    ensures Weekday(Date(2026, 9, 14)) == 3
    ensures Weekday(Date(2000, 1, 29)) == 2
    ensures DaysInMonth(2000, 1) == 29 && DaysInMonth(1900, 1) == 28 && DaysInMonth(2024, 1) == 29
  {
  }
}
