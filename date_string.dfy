/**
  The texts the widget prints for dates: the month label above the calendar
  (`updateCurrentMonth`) and `Date.prototype.toDateString`, which names the
  chosen day in the hidden date-time field. `toDateString` follows ECMAScript's
  DateString: weekday, month, two-digit day and signed four-digit year,
  separated by single spaces.
*/
module DateString {
  import opened Wrappers
  import opened Dates
  import opened Text

  const MonthNames: seq<string> := [
    "January", "February", "March", "April", "May", "June",
    "July", "August", "September", "October", "November", "December"
  ]

  const MonthAbbrs: seq<string> := [
    "Jan", "Feb", "Mar", "Apr", "May", "Jun", "Jul", "Aug", "Sep", "Oct", "Nov", "Dec"
  ]

  const DayAbbrs: seq<string> := ["Sun", "Mon", "Tue", "Wed", "Thu", "Fri", "Sat"]

  /** The heading `updateCurrentMonth` writes (script.js:54-62): full month name, a space, the year. */
  function MonthLabel(c: Date): string
    requires 0 <= c.month < 12
  {
    MonthNames[c.month] + " " + IntToString(c.year)
  }

  /** The year as DateString prints it: a '-' for a negative year, then at least four digits. */
  function YearString(y: int): (s: string)
    ensures |s| >= 4
  {
    if y < 0 then "-" + ZeroPadded(-y, 4) else ZeroPadded(y, 4)
  }

  /** `toDateString()`, as in "Wed Oct 14 2026". */
  function ToDateString(d: Date): (s: string)
    requires ValidDate(d)
    ensures |s| >= 15
  {
    NatToStringShort(d.day);
    DayAbbrs[Weekday(d)] + " " + MonthAbbrs[d.month] + " " + ZeroPadded(d.day, 2) + " " + YearString(d.year)
  }

  /** The text `selectTimeSlot` stores in the hidden field (script.js:172). */
  function DateTimeString(d: Date, time: string): (s: string)
    requires ValidDate(d)
    ensures |s| == |ToDateString(d)| + 4 + |time|
    ensures s[..|ToDateString(d)|] == ToDateString(d) && s[|s| - |time|..] == time
  {
    ToDateString(d) + " at " + time
  }

  lemma {:induction false} NatToStringShort(n: nat)
    requires n < 100
    ensures |NatToString(n)| <= 2
  {
    if n >= 10 {
      assert NatToString(n) == NatToString(n / 10) + [DigitChar(n % 10)];
    }
  }

  // ---------------------------------------------------------------------------
  // Reading a date string back

  /** The index of a month abbreviation, looked up from `from` on. */
  function MonthIndexFrom(m: string, from: nat): (r: Option<int>)
    requires from <= 12
    ensures r.Some? ==> from <= r.value < 12 && MonthAbbrs[r.value] == m
    ensures r.None? ==> forall k | from <= k < 12 :: MonthAbbrs[k] != m
    decreases 12 - from
  {
    if from == 12 then None
    else if MonthAbbrs[from] == m then Some(from)
    else MonthIndexFrom(m, from + 1)
  }

  predicate AllDigits(s: string) {
    forall k | 0 <= k < |s| :: IsDigit(s[k])
  }

  /** The year of a DateString's year field, if it is one. */
  function ParseYear(s: string): (r: Option<int>) {
    if |s| > 0 && s[0] == '-' then
      if AllDigits(s[1..]) then Some(-(DecimalValue(s[1..]) as int)) else None
    else if AllDigits(s) then Some(DecimalValue(s)) else None
  }

  /**
    The date a `toDateString` text names: the month from its abbreviation, the
    day from the two digits after it and the year from the rest; the weekday
    name is skipped, since the date determines it.
  */
  function ParseDateString(s: string): (r: Option<Date>)
    ensures r.Some? ==> 0 <= r.value.month < 12
  {
    if |s| < 12 || s[3] != ' ' || s[7] != ' ' || s[10] != ' ' || !AllDigits(s[8..10]) then None
    else
      match MonthIndexFrom(s[4..7], 0)
      case None => None
      case Some(m) =>
        match ParseYear(s[11..])
        case None => None
        case Some(y) => Some(Date(y, m, DecimalValue(s[8..10])))
  }

  lemma YearRoundTrip(y: int)
    ensures ParseYear(YearString(y)) == Some(y)
  {
    var s := YearString(y);
    if y < 0 {
      var n: nat := -y;
      var p := ZeroPadded(n, 4);
      ZeroPaddedValue(n, 4);
      assert s == "-" + p;
      var tail := s[1..];
      assert tail == p;
      assert AllDigits(tail) && DecimalValue(tail) == n;
    } else {
      var p := ZeroPadded(y, 4);
      ZeroPaddedValue(y, 4);
      assert s == p;
      assert AllDigits(s) && s[0] != '-' && DecimalValue(s) == y;
    }
  }

  /** The abbreviations are distinct, so each one is found at its own month. */
  lemma MonthIndexOfAbbr(k: int)
    requires 0 <= k < 12
    ensures MonthIndexFrom(MonthAbbrs[k], 0) == Some(k)
  {
    var r := MonthIndexFrom(MonthAbbrs[k], 0);
    assert r.Some?;
    var j := r.value;
    assert MonthAbbrs[j][0] == MonthAbbrs[k][0] && MonthAbbrs[j][1] == MonthAbbrs[k][1] && MonthAbbrs[j][2] == MonthAbbrs[k][2];
  }

  /** Where the fields of a date string sit. */
  lemma FieldPositions(w: string, m: string, dd: string, ys: string)
    requires |w| == 3 && |m| == 3 && |dd| == 2 && |ys| >= 1
    ensures var s := w + " " + m + " " + dd + " " + ys;
      |s| >= 12 && s[3] == ' ' && s[7] == ' ' && s[10] == ' '
      && s[4..7] == m && s[8..10] == dd && s[11..] == ys
  {
  }

  /** Every valid date can be read back from the text `toDateString` gives it. */
  lemma DateStringRoundTrip(d: Date)
    requires ValidDate(d)
    ensures ParseDateString(ToDateString(d)) == Some(d)
  {
    NatToStringShort(d.day);
    var m := MonthAbbrs[d.month];
    var dd := ZeroPadded(d.day, 2);
    FieldPositions(DayAbbrs[Weekday(d)], m, dd, YearString(d.year));
    MonthIndexOfAbbr(d.month);
    ZeroPaddedValue(d.day, 2);
    YearRoundTrip(d.year);
  }

  /** Two different days never print the same date string. */
  lemma DateStringInjective(a: Date, b: Date)
    requires ValidDate(a) && ValidDate(b)
    ensures ToDateString(a) == ToDateString(b) <==> a == b
  {
    DateStringRoundTrip(a);
    DateStringRoundTrip(b);
  }

  // ---------------------------------------------------------------------------
  // Reading the month heading back

  /** Every month name begins with its three-letter abbreviation. */
  lemma MonthNamePrefix(k: int)
    requires 0 <= k < 12
    ensures |MonthNames[k]| >= 3 && MonthNames[k][..3] == MonthAbbrs[k]
  {
  }

  /**
    The month and year a heading names: the month from the first three letters,
    provided its full name follows, then a space and the year as `${year}` prints it.
  */
  function ParseMonthLabel(s: string): (r: Option<(int, int)>)
    ensures r.Some? ==> 0 <= r.value.1 < 12
  {
    if |s| < 3 then None
    else
      match MonthIndexFrom(s[..3], 0)
      case None => None
      case Some(m) =>
        var n := |MonthNames[m]|;
        if |s| <= n || s[..n] != MonthNames[m] || s[n] != ' ' then None
        else
          match ParseYear(s[n + 1..])
          case None => None
          case Some(y) => Some((y, m))
  }

  /** The text of `${year}` reads back as the year. */
  lemma IntToStringRoundTrip(y: int)
    ensures ParseYear(IntToString(y)) == Some(y)
  {
    var s := IntToString(y);
    if y < 0 {
      var n: nat := -y;
      var p := NatToString(n);
      NatToStringValue(n);
      assert s == "-" + p;
      var tail := s[1..];
      assert tail == p;
      assert AllDigits(tail) && DecimalValue(tail) == n;
    } else {
      var p := NatToString(y);
      assert s == p;
      NatToStringValue(y);
      assert AllDigits(s) && s[0] != '-' && DecimalValue(s) == y;
    }
  }

  /** The heading `updateCurrentMonth` writes names the cursor's month and year. */
  lemma MonthLabelRoundTrip(c: Date)
    requires 0 <= c.month < 12
    ensures ParseMonthLabel(MonthLabel(c)) == Some((c.year, c.month))
  {
    var name := MonthNames[c.month];
    var s := MonthLabel(c);
    MonthNamePrefix(c.month);
    assert s[..3] == name[..3];
    MonthIndexOfAbbr(c.month);
    assert s[..|name|] == name && s[|name|] == ' ';
    assert s[|name| + 1..] == IntToString(c.year);
    IntToStringRoundTrip(c.year);
  }

  /** Two cursors get the same heading exactly when they share year and month. */
  lemma MonthLabelInjective(a: Date, b: Date)
    requires 0 <= a.month < 12 && 0 <= b.month < 12
    ensures MonthLabel(a) == MonthLabel(b) <==> a.year == b.year && a.month == b.month
  {
    MonthLabelRoundTrip(a);
    MonthLabelRoundTrip(b);
  }

  lemma DateStringExample()
    ensures ToDateString(Date(2026, 9, 14)) == "Wed Oct 14 2026"
    ensures MonthLabel(Date(2026, 9, 14)) == "October 2026"
  {
    Examples();
  }
}
