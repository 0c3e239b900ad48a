/** Extension methods on DateTime: the SQL Server range check, truncation to
    the start and end of a calendar unit, and enumeration of hours, seconds
    and days.  A callback (Action<DateTime>) is modelled by the sequence of
    arguments it is invoked with, in invocation order. */
module DateTimeExtensions {
  import opened Wrappers
  import opened Calendar

  /** 1753-01-01 00:00:00, the exclusive lower bound of the check (see SqlBoundDays). */
  const MinimumSqlDateTime: DateTime := 552_877_920_000_000_000
  /** 9999-12-31 00:00:00, the exclusive upper bound of the check (see SqlBoundDays). */
  const MaximumSqlDateTime: DateTime := 3_155_378_112_000_000_000

  /** The lower bound is the first instant of 1753. */
  lemma MinimumSqlDateTimeIs1753()
    ensures MinimumSqlDateTime == NewDateTime(1753, 1, 1, 0, 0, 0)
  {
    assert DateTimeTicks(1753, 1, 1, 0, 0, 0) == 552_877_920_000_000_000;
  }

  /** The upper bound is the first instant of the last day of 9999. */
  lemma MaximumSqlDateTimeIs9999()
    ensures MaximumSqlDateTime == NewDateTime(9999, 12, 31, 0, 0, 0)
  {
    assert DateTimeTicks(9999, 12, 31, 0, 0, 0) == 3_155_378_112_000_000_000;
  }

  /** The two bounds as midnights of day numbers. */
  lemma SqlBoundDays()
    ensures MinimumSqlDateTime == DaysBeforeYear(1753) * TicksPerDay
    ensures MaximumSqlDateTime == (DaysTo10000 - 1) * TicksPerDay
    ensures DateToDays(9999, 12, 31) == DaysTo10000 - 1
  {
  }

  /** The DateTime overload.  Its null test can never succeed for a struct,
      and DateTime.MinValue (tick 0) is below the lower bound anyway. */
  function IsValidSqlDateTime(t: DateTime): (r: bool)
    ensures r <==> MinimumSqlDateTime < t < MaximumSqlDateTime
  {
    if t == 0 then false
    else if t <= MinimumSqlDateTime then false
    else if t >= MaximumSqlDateTime then false
    else true
  }

  /** The Nullable<DateTime> overload. */
  function IsValidNullableSqlDateTime(t: Option<DateTime>): (r: bool)
    ensures r <==> t.Some? && MinimumSqlDateTime < t.value < MaximumSqlDateTime
  {
    if t.None? then false else IsValidSqlDateTime(t.value)
  }

  /** Past the lower bound exactly when the year is after 1753, or is 1753
      and the instant is not its first. */
  lemma {:induction false} AboveSqlMinimum(t: DateTime)
    ensures MinimumSqlDateTime < t <==>
      Year(t) > 1753 || (Year(t) == 1753 && t != MinimumSqlDateTime)
  {
    SqlBoundDays();
    var y, n := Year(t), Days(t);
    assert DaysBeforeYear(y) <= n < DaysBeforeYear(y) + DaysInYear(y);
    DaysBeforeNextYear(y);
    if y < 1753 {
      DaysBeforeYearMonotonic(y + 1, 1753);
      MidnightOrder(t, DaysBeforeYear(1753));
    } else if y > 1753 {
      DaysBeforeNextYear(1753);
      DaysBeforeYearMonotonic(1754, y);
      MidnightOrder(t, DaysBeforeYear(1753) + 1);
    } else {
      MidnightOrder(t, DaysBeforeYear(1753));
    }
  }

  /** Before the upper bound exactly when the date is not 9999-12-31. */
  lemma {:induction false} BelowSqlMaximum(t: DateTime)
    ensures t < MaximumSqlDateTime <==> !(Year(t) == 9999 && Month(t) == 12 && Day(t) == 31)
  {
    SqlBoundDays();
    var last := DaysTo10000 - 1;
    MidnightOrder(t, last);
    if Days(t) == last {
      ComposeDays(9999, 12, 31);
    } else {
      DecomposeDays(Days(t));
    }
  }

  /** In calendar terms: a DateTime passes exactly when it lies after the
      first instant of 1753 and before the last calendar day of 9999. */
  lemma SqlRangeInCalendarTerms(t: DateTime)
    ensures IsValidSqlDateTime(t) <==>
      && (Year(t) > 1753 || (Year(t) == 1753 && t != MinimumSqlDateTime))
      && !(Year(t) == 9999 && Month(t) == 12 && Day(t) == 31)
  {
    AboveSqlMinimum(t);
    BelowSqlMaximum(t);
  }

  // ---------------------------------------------------------------------
  // Start of a unit
  // ---------------------------------------------------------------------

  function BeginOfYear(t: DateTime): (r: DateTime)
    ensures Year(r) == Year(t) && Month(r) == 1 && Day(r) == 1
    ensures r % TicksPerDay == 0
    ensures r <= t
  {
    NewDateTime(Year(t), 1, 1, 0, 0, 0)
  }

  function BeginOfMonth(t: DateTime): (r: DateTime)
    ensures Year(r) == Year(t) && Month(r) == Month(t) && Day(r) == 1
    ensures r % TicksPerDay == 0
    ensures r <= t
  {
    Fields(t);
    NewDateTime(Year(t), Month(t), 1, 0, 0, 0)
  }

  function BeginOfDay(t: DateTime): (r: DateTime)
    ensures r == t - t % TicksPerDay && r == Days(t) * TicksPerDay
    ensures Year(r) == Year(t) && Month(r) == Month(t) && Day(r) == Day(t)
    ensures Hour(r) == 0 && Minute(r) == 0 && Second(r) == 0 && Millisecond(r) == 0
  {
    Fields(t);
    NewDateTime(Year(t), Month(t), Day(t), 0, 0, 0)
  }

  function BeginOfHour(t: DateTime): (r: DateTime)
    ensures r == t - t % TicksPerHour && r == Days(t) * TicksPerDay + Hour(t) * TicksPerHour
    ensures Year(r) == Year(t) && Month(r) == Month(t) && Day(r) == Day(t) && Hour(r) == Hour(t)
    ensures Minute(r) == 0 && Second(r) == 0 && Millisecond(r) == 0
  {
    Fields(t);
    var rest := Minute(t) * TicksPerMinute + Second(t) * TicksPerSecond
                + Millisecond(t) * TicksPerMillisecond + t % TicksPerMillisecond;
    DivModUnique(t, TicksPerHour, Days(t) * 24 + Hour(t), rest);
    NewDateTime(Year(t), Month(t), Day(t), Hour(t), 0, 0)
  }

  function BeginOfMinute(t: DateTime): (r: DateTime)
    ensures r == t - t % TicksPerMinute
    ensures r == Days(t) * TicksPerDay + Hour(t) * TicksPerHour + Minute(t) * TicksPerMinute
    ensures Year(r) == Year(t) && Month(r) == Month(t) && Day(r) == Day(t)
    ensures Hour(r) == Hour(t) && Minute(r) == Minute(t)
    ensures Second(r) == 0 && Millisecond(r) == 0
  {
    Fields(t);
    var rest := Second(t) * TicksPerSecond + Millisecond(t) * TicksPerMillisecond
                + t % TicksPerMillisecond;
    DivModUnique(t, TicksPerMinute, (Days(t) * 24 + Hour(t)) * 60 + Minute(t), rest);
    NewDateTime(Year(t), Month(t), Day(t), Hour(t), Minute(t), 0)
  }

  function BeginOfSecond(t: DateTime): (r: DateTime)
    ensures r == t - t % TicksPerSecond
    ensures r == Days(t) * TicksPerDay + Hour(t) * TicksPerHour + Minute(t) * TicksPerMinute
                 + Second(t) * TicksPerSecond
    ensures Year(r) == Year(t) && Month(r) == Month(t) && Day(r) == Day(t)
    ensures Hour(r) == Hour(t) && Minute(r) == Minute(t) && Second(r) == Second(t)
    ensures Millisecond(r) == 0
  {
    Fields(t);
    var rest := Millisecond(t) * TicksPerMillisecond + t % TicksPerMillisecond;
    DivModUnique(t, TicksPerSecond, ((Days(t) * 24 + Hour(t)) * 60 + Minute(t)) * 60 + Second(t), rest);
    NewDateTime(Year(t), Month(t), Day(t), Hour(t), Minute(t), Second(t))
  }

  /** Truncating twice is truncating once. */
  lemma BeginOfIdempotent(t: DateTime)
    ensures BeginOfYear(BeginOfYear(t)) == BeginOfYear(t)
    ensures BeginOfMonth(BeginOfMonth(t)) == BeginOfMonth(t)
    ensures BeginOfDay(BeginOfDay(t)) == BeginOfDay(t)
    ensures BeginOfHour(BeginOfHour(t)) == BeginOfHour(t)
    ensures BeginOfMinute(BeginOfMinute(t)) == BeginOfMinute(t)
    ensures BeginOfSecond(BeginOfSecond(t)) == BeginOfSecond(t)
  {
  }

  // ---------------------------------------------------------------------
  // End of a unit: the start of the next unit, one millisecond earlier
  // (for a month: one day earlier)
  // ---------------------------------------------------------------------

  /** EndOfYear: 31 December of the same year at 23:59:59.999.  The year
      after must exist, or AddYears throws. */
  function EndOfYear(t: DateTime): (r: DateTime)
    requires Year(t) < 9999
    ensures Year(r) == Year(t) && Month(r) == 12 && Day(r) == 31
    ensures Hour(r) == 23 && Minute(r) == 59 && Second(r) == 59 && Millisecond(r) == 999
    ensures t < r + TicksPerMillisecond
    ensures r + TicksPerMillisecond == NewDateTime(Year(t) + 1, 1, 1, 0, 0, 0)
  {
    var next := AddYears(BeginOfYear(t), 1);
    MidnightAfterYear(Year(t), next);
    var r := AddMilliseconds(next, -1);
    YearEndFields(Year(t), r);
    NotAfterYearEnd(t);
    FirstOfNextMonth(Year(t), 12);
    r
  }

  /** Midnight of 1 January of year y + 1 is the day after 31 December of y. */
  lemma MidnightAfterYear(y: int, next: DateTime)
    requires 1 <= y < 9999
    requires Year(next) == y + 1 && Month(next) == 1 && Day(next) == 1
    requires next % TicksPerDay == 0
    ensures next == (DateToDays(y, 12, 31) + 1) * TicksPerDay
  {
    DecomposeDays(Days(next));
    FirstOfNextMonth(y, 12);
  }

  lemma YearEndFields(y: int, r: int)
    requires 1 <= y < 9999
    requires r == (DateToDays(y, 12, 31) + 1) * TicksPerDay - TicksPerMillisecond
    ensures 0 <= r <= MaxTicks
    ensures Year(r) == y && Month(r) == 12 && Day(r) == 31
    ensures Hour(r) == 23 && Minute(r) == 59 && Second(r) == 59 && Millisecond(r) == 999
  {
    var n := DateToDays(y, 12, 31);
    assert r == n * TicksPerDay + 23 * TicksPerHour + 59 * TicksPerMinute
                + 59 * TicksPerSecond + 999 * TicksPerMillisecond + 0;
    TimeOfDay(n, 23, 59, 59, 999, 0);
    ComposeDays(y, 12, 31);
  }

  /** Every instant of a year lies before the midnight that ends it. */
  lemma NotAfterYearEnd(t: DateTime)
    ensures t < (DateToDays(Year(t), 12, 31) + 1) * TicksPerDay
  {
    var n := DateToDays(Year(t), 12, 31);
    DecomposeDays(Days(t));
    DateNotAfterYearEnd(Year(t), Month(t), Day(t));
    MidnightOrder(t, Days(t) + 1);
    MulOrder(Days(t) + 1, n + 1, TicksPerDay);
  }

  /** EndOfMonth: midnight at the start of the last day of the month (one day
      before the first of the next month).  The next month must exist, or
      AddMonths throws. */
  function EndOfMonth(t: DateTime): (r: DateTime)
    requires !(Year(t) == 9999 && Month(t) == 12)
    ensures Year(r) == Year(t) && Month(r) == Month(t)
    ensures Day(r) == DaysInMonth(Year(t), Month(t))
    ensures r % TicksPerDay == 0
    ensures BeginOfMonth(t) <= r
  {
    var next := AddMonths(BeginOfMonth(t), 1);
    MidnightAfterMonth(Year(t), Month(t), next);
    var r := AddDays(next, -1);
    MonthEndFields(Year(t), Month(t), r);
    r
  }

  /** Midnight of the first of the month after y-m is the day after the
      last day of y-m. */
  lemma MidnightAfterMonth(y: int, m: int, next: DateTime)
    requires 1 <= y <= 9999 && 1 <= m <= 12 && !(y == 9999 && m == 12)
    requires Year(next) == y + m / 12 && Month(next) == m % 12 + 1 && Day(next) == 1
    requires next % TicksPerDay == 0
    ensures next == (DateToDays(y, m, DaysInMonth(y, m)) + 1) * TicksPerDay
  {
    var n := Days(next);
    var ny, nm := Year(next), Month(next);
    DecomposeDays(n);
    assert n == DateToDays(ny, nm, 1);
    FirstOfNextMonth(y, m);
    if m < 12 {
      assert m / 12 == 0 && m % 12 == m;
      assert ny == y && nm == m + 1;
    } else {
      assert ny == y + 1 && nm == 1;
    }
    assert next == n * TicksPerDay;
  }

  lemma MonthEndFields(y: int, m: int, r: int)
    requires 1 <= y <= 9999 && 1 <= m <= 12
    requires r == DateToDays(y, m, DaysInMonth(y, m)) * TicksPerDay
    ensures 0 <= r <= MaxTicks && r % TicksPerDay == 0
    ensures Year(r) == y && Month(r) == m && Day(r) == DaysInMonth(y, m)
    ensures DateTimeTicks(y, m, 1, 0, 0, 0) <= r
  {
    var n := DateToDays(y, m, DaysInMonth(y, m));
    MidnightOf(n);
    ComposeDays(y, m, DaysInMonth(y, m));
    MulOrder(DateToDays(y, m, 1), n, TicksPerDay);
  }

  /** A tick count on t's day at h:mi:s.999 has t's date and those fields. */
  lemma LastMillisecondOf(t: DateTime, r: int, h: int, mi: int, s: int)
    requires 0 <= h < 24 && 0 <= mi < 60 && 0 <= s < 60
    requires r == Days(t) * TicksPerDay + h * TicksPerHour + mi * TicksPerMinute
                  + s * TicksPerSecond + 999 * TicksPerMillisecond
    ensures 0 <= r <= MaxTicks
    ensures Days(r) == Days(t) && Year(r) == Year(t) && Month(r) == Month(t) && Day(r) == Day(t)
    ensures Hour(r) == h && Minute(r) == mi && Second(r) == s
    ensures Millisecond(r) == 999 && r % TicksPerMillisecond == 0
  {
    TimeOfDay(Days(t), h, mi, s, 999, 0);
  }

  /** EndOfDay: 23:59:59.999 of the same day.  The next day must exist, or
      AddDays throws. */
  function EndOfDay(t: DateTime): (r: DateTime)
    requires t - t % TicksPerDay + TicksPerDay <= MaxTicks
    ensures r == BeginOfDay(t) + TicksPerDay - TicksPerMillisecond
    ensures Year(r) == Year(t) && Month(r) == Month(t) && Day(r) == Day(t)
    ensures Hour(r) == 23 && Minute(r) == 59 && Second(r) == 59 && Millisecond(r) == 999
    ensures t < r + TicksPerMillisecond
  {
    var r := AddMilliseconds(AddDays(BeginOfDay(t), 1), -1);
    LastMillisecondOf(t, r, 23, 59, 59);
    r
  }

  /** EndOfHour: minute 59, second 59, millisecond 999 of the same hour. */
  function EndOfHour(t: DateTime): (r: DateTime)
    requires t - t % TicksPerHour + TicksPerHour <= MaxTicks
    ensures r == BeginOfHour(t) + TicksPerHour - TicksPerMillisecond
    ensures Year(r) == Year(t) && Month(r) == Month(t) && Day(r) == Day(t) && Hour(r) == Hour(t)
    ensures Minute(r) == 59 && Second(r) == 59 && Millisecond(r) == 999
    ensures t < r + TicksPerMillisecond
  {
    Fields(t);
    var r := AddMilliseconds(AddHours(BeginOfHour(t), 1), -1);
    LastMillisecondOf(t, r, Hour(t), 59, 59);
    r
  }

  /** EndOfMinute: second 59, millisecond 999 of the same minute. */
  function EndOfMinute(t: DateTime): (r: DateTime)
    requires t - t % TicksPerMinute + TicksPerMinute <= MaxTicks
    ensures r == BeginOfMinute(t) + TicksPerMinute - TicksPerMillisecond
    ensures Year(r) == Year(t) && Month(r) == Month(t) && Day(r) == Day(t)
    ensures Hour(r) == Hour(t) && Minute(r) == Minute(t)
    ensures Second(r) == 59 && Millisecond(r) == 999
    ensures t < r + TicksPerMillisecond
  {
    Fields(t);
    var r := AddMilliseconds(AddMinutes(BeginOfMinute(t), 1), -1);
    LastMillisecondOf(t, r, Hour(t), Minute(t), 59);
    r
  }

  /** EndOfSecond: millisecond 999 of the same second. */
  function EndOfSecond(t: DateTime): (r: DateTime)
    requires t - t % TicksPerSecond + TicksPerSecond <= MaxTicks
    ensures r == BeginOfSecond(t) + TicksPerSecond - TicksPerMillisecond
    ensures Year(r) == Year(t) && Month(r) == Month(t) && Day(r) == Day(t)
    ensures Hour(r) == Hour(t) && Minute(r) == Minute(t) && Second(r) == Second(t)
    ensures Millisecond(r) == 999
    ensures t < r + TicksPerMillisecond
  {
    Fields(t);
    var r := AddMilliseconds(AddSeconds(BeginOfSecond(t), 1), -1);
    LastMillisecondOf(t, r, Hour(t), Minute(t), Second(t));
    r
  }

  /** The end of a unit is the start of its last millisecond, not its last
      tick: an instant inside that millisecond lies after it. */
  lemma EndOfSecondPrecedesSubMillisecondTicks(t: DateTime)
    requires t - t % TicksPerSecond + TicksPerSecond <= MaxTicks
    requires Millisecond(t) == 999 && t % TicksPerMillisecond != 0
    ensures EndOfSecond(t) < t
  {
    Fields(t);
  }

  /** The end of a unit lies in that unit: truncating it gives the unit's
      beginning back, and one millisecond later the next unit begins. */
  lemma EndOfStaysInUnit(t: DateTime)
    ensures Year(t) < 9999 ==>
      BeginOfYear(EndOfYear(t)) == BeginOfYear(t)
      && EndOfYear(t) + TicksPerMillisecond == BeginOfYear(t) + DaysInYear(Year(t)) * TicksPerDay
    ensures BeginOfDay(t) + TicksPerDay <= MaxTicks ==>
      BeginOfDay(EndOfDay(t)) == BeginOfDay(t)
      && EndOfDay(t) + TicksPerMillisecond == BeginOfDay(t) + TicksPerDay
    ensures BeginOfHour(t) + TicksPerHour <= MaxTicks ==>
      BeginOfHour(EndOfHour(t)) == BeginOfHour(t)
      && EndOfHour(t) + TicksPerMillisecond == BeginOfHour(t) + TicksPerHour
    ensures BeginOfMinute(t) + TicksPerMinute <= MaxTicks ==>
      BeginOfMinute(EndOfMinute(t)) == BeginOfMinute(t)
      && EndOfMinute(t) + TicksPerMillisecond == BeginOfMinute(t) + TicksPerMinute
    ensures BeginOfSecond(t) + TicksPerSecond <= MaxTicks ==>
      BeginOfSecond(EndOfSecond(t)) == BeginOfSecond(t)
      && EndOfSecond(t) + TicksPerMillisecond == BeginOfSecond(t) + TicksPerSecond
  {
    if Year(t) < 9999 {
      EndOfYearStaysInYear(t);
    }
    if BeginOfDay(t) + TicksPerDay <= MaxTicks {
      LastMillisecondTruncates(t, TicksPerDay);
    }
    if BeginOfHour(t) + TicksPerHour <= MaxTicks {
      LastMillisecondTruncates(t, TicksPerHour);
    }
    if BeginOfMinute(t) + TicksPerMinute <= MaxTicks {
      LastMillisecondTruncates(t, TicksPerMinute);
    }
    if BeginOfSecond(t) + TicksPerSecond <= MaxTicks {
      LastMillisecondTruncates(t, TicksPerSecond);
    }
  }

  /** The year clause of EndOfStaysInUnit. */
  lemma EndOfYearStaysInYear(t: DateTime)
    requires Year(t) < 9999
    ensures BeginOfYear(EndOfYear(t)) == BeginOfYear(t)
    ensures EndOfYear(t) + TicksPerMillisecond == BeginOfYear(t) + DaysInYear(Year(t)) * TicksPerDay
  {
    var y := Year(t);
    var d0 := DateToDays(y, 1, 1);
    YearLength(y);
    assert BeginOfYear(t) == d0 * TicksPerDay;
    assert EndOfYear(t) + TicksPerMillisecond == (d0 + DaysInYear(y)) * TicksPerDay;
  }

  /** From 1 January of y to 1 January of y + 1 is the length of year y. */
  lemma YearLength(y: int)
    requires 1 <= y < 9999
    ensures DateToDays(y + 1, 1, 1) == DateToDays(y, 1, 1) + DaysInYear(y)
  {
    DaysBeforeNextYear(y);
  }

  /** Truncating the last millisecond of t's unit gives t truncated. */
  lemma LastMillisecondTruncates(t: int, unit: int)
    requires 0 <= t && TicksPerMillisecond < unit
    ensures var e := t - t % unit + unit - TicksPerMillisecond;
      e - e % unit == t - t % unit
  {
    var q := t / unit;
    var e := t - t % unit + unit - TicksPerMillisecond;
    assert e == q * unit + (unit - TicksPerMillisecond);
    DivModUnique(e, unit, q, unit - TicksPerMillisecond);
  }

  // ---------------------------------------------------------------------
  // Enumeration
  // ---------------------------------------------------------------------

  /** ForEachHourInDay: the action runs for midnight and then every hour up
      to and including the next midnight (the do-while test is "<="), 25
      calls in all.  The hour after the next midnight is computed before the
      loop stops, so it must exist. */
  method ForEachHourInDay(date: DateTime) returns (calls: seq<DateTime>)
    requires date - date % TicksPerDay + TicksPerDay + TicksPerHour <= MaxTicks
    ensures |calls| == 25
    ensures forall k :: 0 <= k < |calls| ==> calls[k] == BeginOfDay(date) + k * TicksPerHour
  {
    var start: DateTime := date - date % TicksPerDay;  // BeginOfDay(date)
    DivModUnique(start, TicksPerDay, date / TicksPerDay, 0);
    var d: DateTime := start;
    assert Date(d) == d;
    var nextDay: DateTime := AddDays(Date(d), 1);
    calls := [];
    while true
      invariant |calls| <= 24
      invariant d == start + |calls| * TicksPerHour
      invariant forall k :: 0 <= k < |calls| ==> calls[k] == start + k * TicksPerHour
      decreases 24 - |calls|
    {
      calls := calls + [d];
      d := AddHours(d, 1);
      if !(d <= nextDay) {
        break;
      }
    }
  }

  /** The first 24 calls of ForEachHourInDay fall on hours 0 to 23 of the
      date; the last is midnight of the next day. */
  lemma HourlyCallsCoverTheDay(date: DateTime, k: int)
    requires date - date % TicksPerDay + TicksPerDay + TicksPerHour <= MaxTicks
    requires 0 <= k <= 24
    ensures var c := BeginOfDay(date) + k * TicksPerHour;
      && 0 <= c <= MaxTicks
      && (k < 24 ==> Date(c) == Date(date) && Hour(c) == k && Minute(c) == 0 && Second(c) == 0)
      && (k == 24 ==> c == Date(date) + TicksPerDay)
  {
    var n := Days(date);
    var c := BeginOfDay(date) + k * TicksPerHour;
    assert c == n * TicksPerDay + k * TicksPerHour;
    if k < 24 {
      var hours := n * 24 + k;
      DivModUnique(c, TicksPerDay, n, k * TicksPerHour);
      DivModUnique(c, TicksPerHour, hours, 0);
      DivModUnique(hours, 24, n, k);
      DivModUnique(c, TicksPerMinute, hours * 60, 0);
      DivModUnique(hours * 60, 60, hours, 0);
      DivModUnique(c, TicksPerSecond, hours * 3600, 0);
      DivModUnique(hours * 3600, 60, hours * 60, 0);
    }
  }

  /** How many times ForEachSecondInTimespan runs its action: once for start
      and once more for every whole second that still fits before end. */
  function SecondsVisited(start: DateTime, end: DateTime): (n: int)
    ensures n >= 1
    ensures end < start ==> n == 1
  {
    if end < start then 1 else (end - start) / TicksPerSecond + 1
  }

  /** ForEachSecondInTimespan: a do-while loop, so the action runs for start
      even when end lies before it; every later call is at most end, and
      the loop stops at the first step past end.  That step must exist. */
  method ForEachSecondInTimespan(start: DateTime, end: DateTime) returns (calls: seq<DateTime>)
    requires start + SecondsVisited(start, end) * TicksPerSecond <= MaxTicks
    ensures |calls| == SecondsVisited(start, end)
    ensures forall k :: 0 <= k < |calls| ==> calls[k] == start + k * TicksPerSecond
    ensures calls[0] == start
    ensures forall k :: 1 <= k < |calls| ==> calls[k] <= end
    ensures end < start + |calls| * TicksPerSecond
  {
    var n := SecondsVisited(start, end);
    var d := start;
    calls := [];
    while true
      invariant |calls| < n
      invariant d == start + |calls| * TicksPerSecond
      invariant forall k :: 0 <= k < |calls| ==> calls[k] == start + k * TicksPerSecond
      invariant forall k :: 1 <= k < |calls| ==> calls[k] <= end
      decreases n - |calls|
    {
      calls := calls + [d];
      MulOrder(|calls|, n, TicksPerSecond);
      d := AddSeconds(d, 1);
      if !(d <= end) {
        StepsWithin(start, end, |calls|);
        break;
      }
      StepsWithin(start, end, |calls|);
    }
  }

  /** Step j of ForEachSecondInTimespan is at most end exactly when fewer
      than SecondsVisited steps came before it. */
  lemma StepsWithin(start: DateTime, end: DateTime, j: int)
    requires 1 <= j
    ensures start + j * TicksPerSecond <= end <==> j < SecondsVisited(start, end)
  {
    if start <= end {
      MulDivOrder(end - start, TicksPerSecond, j);
    } else {
      assert j * TicksPerSecond >= TicksPerSecond;
    }
  }

  /** Number of days EachDay yields: every date from from's to thru's
      inclusive, none when thru's date lies before from's. */
  function DaysSpanned(from: DateTime, thru: DateTime): (n: int)
    ensures n >= 0
    ensures Days(thru) < Days(from) <==> n == 0
  {
    if Days(thru) < Days(from) then 0 else Days(thru) - Days(from) + 1
  }

  /** Date is midnight of the day number. */
  lemma DateIsMidnight(t: DateTime)
    ensures Date(t) == Days(t) * TicksPerDay
  {
  }

  /** Step j of EachDay is a midnight, in range, and on or before thru's
      date exactly when fewer than DaysSpanned steps came before it. */
  lemma EachDayStep(from: DateTime, thru: DateTime, j: int)
    requires Date(thru) < Date(from) || Date(thru) + TicksPerDay <= MaxTicks
    requires 0 <= j <= DaysSpanned(from, thru)
    ensures var d := Date(from) + j * TicksPerDay;
      && 0 <= d <= MaxTicks
      && d % TicksPerDay == 0
      && (d <= Date(thru) <==> j < DaysSpanned(from, thru))
  {
    var df, dt := Days(from), Days(thru);
    DateIsMidnight(from);
    DateIsMidnight(thru);
    var d := Date(from) + j * TicksPerDay;
    assert d == (df + j) * TicksPerDay;
    MulOrder(df + j, dt, TicksPerDay);
    MulOrder(dt, df, TicksPerDay);
    if j > 0 {
      MulOrder(df + j, dt + 1, TicksPerDay);
      MulOrder(DaysTo10000, df + j, TicksPerDay);
    }
    MidnightOf(df + j);
  }

  /** EachDay: midnight of every date from from's to thru's, inclusive.  The
      step after the last yielded day is computed before the test, so it
      must exist when any day is yielded. */
  method EachDay(from: DateTime, thru: DateTime) returns (days: seq<DateTime>)
    requires Date(thru) < Date(from) || Date(thru) + TicksPerDay <= MaxTicks
    ensures |days| == DaysSpanned(from, thru)
    ensures forall k :: 0 <= k < |days| ==> days[k] == Date(from) + k * TicksPerDay
    ensures forall k :: 0 <= k < |days| ==> days[k] % TicksPerDay == 0
    ensures Date(from) <= Date(thru) ==> days[0] == Date(from) && days[|days| - 1] == Date(thru)
  {
    var n := DaysSpanned(from, thru);
    var day := Date(from);
    days := [];
    EachDayStep(from, thru, 0);
    while Date(day) <= Date(thru)
      invariant |days| <= n
      invariant day == Date(from) + |days| * TicksPerDay
      invariant day % TicksPerDay == 0 && (day <= Date(thru) <==> |days| < n)
      invariant forall k :: 0 <= k < |days| ==> days[k] == Date(from) + k * TicksPerDay
      invariant forall k :: 0 <= k < |days| ==> days[k] % TicksPerDay == 0
      decreases n - |days|
    {
      days := days + [day];
      EachDayStep(from, thru, |days|);
      day := AddDays(day, 1);
    }
    DateIsMidnight(from);
    DateIsMidnight(thru);
    MulOrder(Days(thru), Days(from), TicksPerDay);
  }

  /** IsDifferentHour compares only the hour of the day; the dates play no
      part. */
  function IsDifferentHour(start: DateTime, end: DateTime): (r: bool)
    ensures r <==> (start % TicksPerDay) / TicksPerHour != (end % TicksPerDay) / TicksPerHour
  {
    HourOfDay(start);
    HourOfDay(end);
    Hour(start) != Hour(end)
  }

  /** The hour is the whole hours elapsed since midnight. */
  lemma HourOfDay(t: DateTime)
    ensures Hour(t) == (t % TicksPerDay) / TicksPerHour
  {
    Fields(t);
    var rest := Minute(t) * TicksPerMinute + Second(t) * TicksPerSecond
                + Millisecond(t) * TicksPerMillisecond + t % TicksPerMillisecond;
    DivModUnique(t, TicksPerDay, Days(t), Hour(t) * TicksPerHour + rest);
    DivModUnique(t % TicksPerDay, TicksPerHour, Hour(t), rest);
  }

  /** The documented example: 15:10 on 2000-01-01 and 15:50:12 on 2010-08-10
      are in the same hour. */
  lemma IsDifferentHourExample()
    ensures !IsDifferentHour(NewDateTime(2000, 1, 1, 15, 10, 0), NewDateTime(2010, 8, 10, 15, 50, 12))
  {
  }
}
