/**
  The month grid `renderCalendar` draws (script.js:64-113): seven weekday
  headings, one blank cell for each weekday before the first of the month, then
  one cell per day of the month. A day cell is marked as today when it is the
  current date, and is unavailable, with no click handler, when its midnight
  lies before the current instant or it falls on a Saturday or a Sunday.
*/
module Calendar {
  import opened Dates

  datatype Cell =
    | HeaderCell(name: string)
    | BlankCell
    | DayCell(date: Date, today: bool, unavailable: bool)

  const DayHeaders: seq<string> := ["Sun", "Mon", "Tue", "Wed", "Thu", "Fri", "Sat"]

  /** The cell for one day of the month, seen at instant `now` (script.js:95-109). */
  function DayCellFor(date: Date, now: Now): Cell
    requires ValidDate(date) && ValidNow(now)
  {
    DayCell(date, IsSameDay(date, now.date), IsPast(date, now) || Weekday(date) == 0 || Weekday(date) == 6)
  }

  function Headers(): seq<Cell> {
    seq(7, k requires 0 <= k < 7 => HeaderCell(DayHeaders[k]))
  }

  function Blanks(count: nat): seq<Cell> {
    seq(count, _ => BlankCell)
  }

  /** The cells of days 1 to `count` of month `m` of year `y`. */
  function DayCells(y: int, m: int, now: Now, count: nat): seq<Cell>
    requires 0 <= m < 12 && count <= DaysInMonth(y, m) && ValidNow(now)
  {
    seq(count, i requires 0 <= i < count => DayCellFor(Date(y, m, i + 1), now))
  }

  /** The grid of month `m` of year `y`, in the order the cells are appended. */
  function CalendarGrid(y: int, m: int, now: Now): seq<Cell>
    requires 0 <= m < 12 && ValidNow(now)
  {
    Headers() + Blanks(Weekday(Date(y, m, 1))) + DayCells(y, m, now, DaysInMonth(y, m))
  }

  /** A day cell takes clicks exactly when it has no `unavailable` mark. */
  predicate Selectable(c: Cell) {
    c.DayCell? && !c.unavailable
  }

  // ---------------------------------------------------------------------------
  // Building the grid

  /**
    `renderCalendar` for the month of cursor `c`: the headings, then blanks up to
    the weekday of the first, then the days up to the date of "day 0 of next
    month" (script.js:78-79).
  */
  method RenderGrid(c: Date, now: Now) returns (cells: seq<Cell>)
    requires ValidDate(c) && ValidNow(now)
    ensures cells == CalendarGrid(c.year, c.month, now)
  {
    var firstDay := MakeDate(c.year, c.month, 1);
    var lastDay := MakeDate(c.year, c.month + 1, 0);
    MakeDateInRange(Date(c.year, c.month, 1));
    LastDayOfMonth(c.year, c.month);
    assert firstDay == Date(c.year, c.month, 1) && lastDay.day == DaysInMonth(c.year, c.month);
    var headers := RenderHeaders();
    var blanks := RenderBlanks(Weekday(firstDay));
    var days := RenderDays(c.year, c.month, lastDay.day, now);
    cells := headers + blanks + days;
  }

  /** The blank cells before the first of the month (script.js:83-87). */
  method RenderBlanks(count: nat) returns (cells: seq<Cell>)
    ensures cells == Blanks(count)
  {
    cells := [];
    for i := 0 to count
      invariant cells == Blanks(i)
    {
      assert Blanks(i + 1) == Blanks(i) + [BlankCell];
      cells := cells + [BlankCell];
    }
  }

  /** One cell per day from 1 to `last`, each built from `new Date(y, m, day)` (script.js:90-112). */
  method RenderDays(y: int, m: int, last: int, now: Now) returns (cells: seq<Cell>)
    requires 0 <= m < 12 && last == DaysInMonth(y, m) && ValidNow(now)
    ensures cells == DayCells(y, m, now, last)
  {
    cells := [];
    for day := 1 to last + 1
      invariant cells == DayCells(y, m, now, day - 1)
    {
      var currentDay := MakeDate(y, m, day);
      MakeDateInRange(Date(y, m, day));
      DayCellsStep(y, m, now, day - 1);
      cells := cells + [DayCellFor(currentDay, now)];
    }
  }

  /** The weekday headings, appended one by one (script.js:69-75). */
  method RenderHeaders() returns (cells: seq<Cell>)
    ensures cells == Headers()
  {
    cells := [];
    for k := 0 to 7
      invariant cells == Headers()[..k]
    {
      assert Headers()[..k + 1] == Headers()[..k] + [HeaderCell(DayHeaders[k])];
      cells := cells + [HeaderCell(DayHeaders[k])];
    }
    assert Headers()[..7] == Headers();
  }

  lemma DayCellsStep(y: int, m: int, now: Now, count: nat)
    requires 0 <= m < 12 && count < DaysInMonth(y, m) && ValidNow(now)
    ensures DayCells(y, m, now, count + 1) == DayCells(y, m, now, count) + [DayCellFor(Date(y, m, count + 1), now)]
  {
  }

  // ---------------------------------------------------------------------------
  // Properties of the grid

  /** `(a + b) % 7` depends on `a` only through `a % 7`. */
  lemma ModSevenShift(a: int, b: int)
    ensures (a + b) % 7 == (a % 7 + b) % 7
  {
    var q := a / 7;
    assert a == 7 * q + a % 7;
    assert a + b == 7 * q + (a % 7 + b);
  }

  /** Consecutive days of a month have consecutive weekdays. */
  lemma WeekdayOfDay(y: int, m: int, d: int)
    requires ValidDate(Date(y, m, d))
    ensures Weekday(Date(y, m, d)) == (Weekday(Date(y, m, 1)) + d - 1) % 7
  {
    ModSevenShift(DayNumber(Date(y, m, 1)) + 4, d - 1);
  }

  /**
    The grid has seven headings, exactly as many blanks as the weekday of the
    first, then one cell per day of the month, for days 1 to N in order; every
    day cell sits in the column (index modulo 7) of its weekday.
  */
  lemma GridShape(y: int, m: int, now: Now)
    requires 0 <= m < 12 && ValidNow(now)
    ensures var g := CalendarGrid(y, m, now); var w := Weekday(Date(y, m, 1));
      |g| == 7 + w + DaysInMonth(y, m)
      && (forall k | 0 <= k < 7 :: g[k] == HeaderCell(DayHeaders[k]))
      && (forall k | 7 <= k < 7 + w :: g[k] == BlankCell)
      && (forall k | 7 + w <= k < |g| ::
            g[k] == DayCellFor(Date(y, m, k - 6 - w), now) && k % 7 == Weekday(g[k].date))
  {
    var g := CalendarGrid(y, m, now);
    var w := Weekday(Date(y, m, 1));
    forall k | 7 + w <= k < |g|
      ensures g[k] == DayCellFor(Date(y, m, k - 6 - w), now) && k % 7 == Weekday(g[k].date)
    {
      WeekdayOfDay(y, m, k - 6 - w);
      ModSevenShift(7, k - 7);
    }
  }

  /**
    A day can be picked exactly when it is neither a weekend day nor past:
    past meaning before today, or today itself once the clock has left midnight.
  */
  lemma SelectableIff(date: Date, now: Now)
    requires ValidDate(date) && ValidNow(now)
    ensures Selectable(DayCellFor(date, now)) <==>
      !IsWeekend(date) && (Before(now.date, date) || (date == now.date && now.msOfDay == 0))
  {
    IsPastIff(date, now);
    DayNumberOrder(date, now.date);
    DayNumberOrder(now.date, date);
  }

  /** Saturdays and Sundays are never selectable. */
  lemma WeekendsUnavailable(date: Date, now: Now)
    requires ValidDate(date) && ValidNow(now) && IsWeekend(date)
    ensures !Selectable(DayCellFor(date, now))
  {
  }

  /** The cell of today carries the today mark, and only it does. */
  lemma TodayMarkIff(date: Date, now: Now)
    requires ValidDate(date) && ValidNow(now)
    ensures DayCellFor(date, now).today <==> date == now.date
  {
  }

  /** Past midnight, today's own cell is unavailable even though it is marked as today. */
  lemma TodayUnavailableAfterMidnight(now: Now)
    requires ValidNow(now) && now.msOfDay > 0
    ensures DayCellFor(now.date, now).today && !Selectable(DayCellFor(now.date, now))
  {
  }

  /** Every day after today that is a weekday is selectable, whatever the time. */
  lemma FutureWeekdaysSelectable(date: Date, now: Now)
    requires ValidDate(date) && ValidNow(now) && Before(now.date, date) && !IsWeekend(date)
    ensures Selectable(DayCellFor(date, now))
  {
    SelectableIff(date, now);
  }
}
