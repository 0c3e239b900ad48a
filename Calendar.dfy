/** The .NET DateTime value the extension methods work on, as a tick count:
    100-nanosecond ticks since 0001-01-01 00:00:00 in the proleptic Gregorian
    calendar, up to 9999-12-31 23:59:59.9999999.  Calendar fields are
    derived from the tick count; constructing a DateTime from fields and the
    Add* operations are tick arithmetic that must stay inside the range
    (the runtime throws ArgumentOutOfRangeException otherwise, which is a
    precondition here). */
module Calendar {

  const TicksPerMillisecond: int := 10_000
  const TicksPerSecond: int := 10_000_000
  const TicksPerMinute: int := 600_000_000
  const TicksPerHour: int := 36_000_000_000
  const TicksPerDay: int := 864_000_000_000

  /** Days from 0001-01-01 to 10000-01-01. */
  const DaysTo10000: int := 3_652_059
  /** Ticks of DateTime.MaxValue, 9999-12-31 23:59:59.9999999. */
  const MaxTicks: int := 3_155_378_975_999_999_999

  type DateTime = t: int | 0 <= t <= MaxTicks

  // ---------------------------------------------------------------------
  // Division by a positive constant, stated once so that callers stay linear
  // ---------------------------------------------------------------------

  lemma MulAtLeast(a: int, k: int)
    requires 1 <= a && 0 < k
    ensures a * k >= k
  {
  }

  /** Quotient and remainder are determined by x == q * k + r, 0 <= r < k. */
  lemma DivModUnique(x: int, k: int, q: int, r: int)
    requires 0 < k && x == q * k + r && 0 <= r < k
    ensures x / k == q && x % k == r
  {
    var q', r' := x / k, x % k;
    assert x == q' * k + r';
    if q' < q {
      assert (q - q') * k == q * k - q' * k;
      MulAtLeast(q - q', k);
      assert false;
    } else if q < q' {
      assert (q' - q) * k == q' * k - q * k;
      MulAtLeast(q' - q, k);
      assert false;
    }
  }

  /** How the quotient and remainder by k change from n to n + 1. */
  lemma DivModSucc(n: int, k: int)
    requires 0 <= n && 0 < k
    ensures (n + 1) / k == if n % k == k - 1 then n / k + 1 else n / k
    ensures ((n + 1) % k == 0) == (n % k == k - 1)
  {
    var q, r := n / k, n % k;
    assert n == q * k + r;
    if r == k - 1 {
      DivModUnique(n + 1, k, q + 1, 0);
    } else {
      DivModUnique(n + 1, k, q, r + 1);
    }
  }

  /** Comparing a multiple of k with x is comparing the factor with x / k. */
  lemma MulDivOrder(x: int, k: int, j: int)
    requires 0 <= x && 0 < k
    ensures j * k <= x <==> j <= x / k
  {
    var q, r := x / k, x % k;
    assert x == q * k + r;
    if j <= q {
      assert j * k <= q * k;
    } else {
      assert j * k >= (q + 1) * k;
    }
  }

  /** Multiplying by a positive constant keeps the order. */
  lemma MulOrder(a: int, b: int, k: int)
    requires 0 < k
    ensures a * k <= b * k <==> a <= b
  {
    if a <= b {
      assert b * k == a * k + (b - a) * k;
    } else {
      assert a * k == b * k + (a - b) * k;
    }
  }

  // ---------------------------------------------------------------------
  // The Gregorian calendar on day numbers
  // ---------------------------------------------------------------------

  predicate IsLeapYear(y: int) {
    y % 4 == 0 && (y % 100 != 0 || y % 400 == 0)
  }

  function DaysInYear(y: int): int {
    if IsLeapYear(y) then 366 else 365
  }

  /** Days in the months of year y before month m (m == 13: the whole year). */
  function DaysBeforeMonth(y: int, m: int): int
    requires 1 <= m <= 13
  {
    var common :=
      if m == 1 then 0 else if m == 2 then 31 else if m == 3 then 59
      else if m == 4 then 90 else if m == 5 then 120 else if m == 6 then 151
      else if m == 7 then 181 else if m == 8 then 212 else if m == 9 then 243
      else if m == 10 then 273 else if m == 11 then 304 else if m == 12 then 334
      else 365;
    common + if IsLeapYear(y) && m > 2 then 1 else 0
  }

  function DaysInMonth(y: int, m: int): (r: int)
    requires 1 <= m <= 12
    ensures 28 <= r <= 31
    ensures r == 29 <==> m == 2 && IsLeapYear(y)
  {
    DaysBeforeMonth(y, m + 1) - DaysBeforeMonth(y, m)
  }

  /** Days from 0001-01-01 to January 1 of year y. */
  function DaysBeforeYear(y: int): int
    requires 1 <= y
  {
    var n := y - 1;
    365 * n + n / 4 - n / 100 + n / 400
  }

  lemma {:induction false} DaysBeforeNextYear(y: int)
    requires 1 <= y
    ensures DaysBeforeYear(y + 1) == DaysBeforeYear(y) + DaysInYear(y)
  {
    var n := y - 1;
    DivModSucc(n, 4);
    DivModSucc(n, 100);
    DivModSucc(n, 400);
    var d4 := y / 4 - n / 4;
    var d100 := y / 100 - n / 100;
    var d400 := y / 400 - n / 400;
    assert DaysBeforeYear(y + 1) == 365 * y + y / 4 - y / 100 + y / 400;
    assert DaysBeforeYear(y) == 365 * n + n / 4 - n / 100 + n / 400;
    assert DaysBeforeYear(y + 1) - DaysBeforeYear(y) == 365 + d4 - d100 + d400;
    assert d4 == (if y % 4 == 0 then 1 else 0);
    assert d100 == (if y % 100 == 0 then 1 else 0);
    assert d400 == (if y % 400 == 0 then 1 else 0);
  }

  lemma {:induction false} DaysBeforeYearMonotonic(a: int, b: int)
    requires 1 <= a <= b
    ensures DaysBeforeYear(a) + 365 * (b - a) <= DaysBeforeYear(b)
    decreases b - a
  {
    if a < b {
      DaysBeforeYearMonotonic(a, b - 1);
      DaysBeforeNextYear(b - 1);
    }
  }

  /** Day number of January 1 of the year that starts a - b - c - e cycles
      in: a 400-year cycles, b 100-year, c 4-year and e single years. */
  lemma {:induction false} CycleDays(a: int, b: int, c: int, e: int)
    requires 0 <= a && 0 <= b <= 3 && 0 <= c <= 24 && 0 <= e <= 3
    ensures DaysBeforeYear(400 * a + 100 * b + 4 * c + e + 1)
            == 146097 * a + 36524 * b + 1461 * c + 365 * e
  {
    var m := 400 * a + 100 * b + 4 * c + e;
    DivModUnique(m, 4, 100 * a + 25 * b + c, e);
    DivModUnique(m, 100, 4 * a + b, 4 * c + e);
    DivModUnique(m, 400, a, 100 * b + 4 * c + e);
  }

  /** The year that contains day number n (0 is 0001-01-01), found as the
      runtime does: by whole 400-, 100-, 4- and 1-year cycles, where the last
      100-year cycle of 400 and the last year of 4 are one day longer. */
  function YearOfDays(n: int): (r: int)
    requires 0 <= n < DaysTo10000
    ensures 1 <= r <= 9999
    ensures DaysBeforeYear(r) <= n < DaysBeforeYear(r) + DaysInYear(r)
  {
    var a, n1 := n / 146097, n % 146097;
    var b := if n1 / 36524 == 4 then 3 else n1 / 36524;
    var n2 := n1 - b * 36524;
    var c, n3 := n2 / 1461, n2 % 1461;
    var e := if n3 / 365 == 4 then 3 else n3 / 365;
    var r := 400 * a + 100 * b + 4 * c + e + 1;
    YearOfDaysCorrect(n, a, n1, b, n2, c, n3, e);
    r
  }

  lemma YearOfDaysCorrect(n: int, a: int, n1: int, b: int, n2: int, c: int, n3: int, e: int)
    requires 0 <= n < DaysTo10000
    requires a == n / 146097 && n1 == n % 146097
    requires b == if n1 / 36524 == 4 then 3 else n1 / 36524
    requires n2 == n1 - b * 36524
    requires c == n2 / 1461 && n3 == n2 % 1461
    requires e == if n3 / 365 == 4 then 3 else n3 / 365
    ensures var r := 400 * a + 100 * b + 4 * c + e + 1;
      1 <= r <= 9999 && DaysBeforeYear(r) <= n < DaysBeforeYear(r) + DaysInYear(r)
  {
    assert n == 146097 * a + n1 && 0 <= n1 < 146097;
    assert 0 <= b <= 3 && 0 <= n2 <= 36524;
    assert n2 == 36524 ==> b == 3;
    assert n2 == 1461 * c + n3 && 0 <= n3 < 1461 && c <= 24;
    assert 0 <= e <= 3 && 0 <= n3 - 365 * e <= 365;
    var r := 400 * a + 100 * b + 4 * c + e + 1;
    CycleDays(a, b, c, e);
    assert n == DaysBeforeYear(r) + (n3 - 365 * e);
    if n3 - 365 * e == 365 {
      // the extra day of a leap year
      assert n3 == 1460 && e == 3;
      DivModUnique(r, 4, 100 * a + 25 * b + c + 1, 0);
      if c < 24 {
        DivModUnique(r, 100, 4 * a + b, 4 * c + 4);
      } else {
        assert n2 == 36524 && b == 3;
        DivModUnique(r, 400, a + 1, 0);
      }
      assert IsLeapYear(r);
    }
    if r > 9999 {
      DaysBeforeNextYear(r);
      DaysBeforeYearMonotonic(10000, r);
      assert false;
    }
  }

  /** The month of year y that contains day-of-year d (0 is January 1). */
  function MonthFrom(y: int, d: int, m: int): (r: int)
    requires 1 <= m <= 12
    requires DaysBeforeMonth(y, m) <= d < DaysBeforeMonth(y, 13)
    ensures m <= r <= 12
    ensures DaysBeforeMonth(y, r) <= d < DaysBeforeMonth(y, r + 1)
    decreases 12 - m
  {
    if d < DaysBeforeMonth(y, m + 1) then m else MonthFrom(y, d, m + 1)
  }

  predicate ValidDate(y: int, m: int, d: int) {
    1 <= y <= 9999 && 1 <= m <= 12 && 1 <= d <= DaysInMonth(y, m)
  }

  /** Day number of the date y-m-d. */
  function DateToDays(y: int, m: int, d: int): (r: int)
    requires ValidDate(y, m, d)
    ensures 0 <= r < DaysTo10000
  {
    DaysBeforeNextYear(y);
    DaysBeforeYearMonotonic(y + 1, 10000);
    DaysBeforeYear(y) + DaysBeforeMonth(y, m) + d - 1
  }

  function MonthOfDay(n: int): (r: int)
    requires 0 <= n < DaysTo10000
    ensures 1 <= r <= 12
  {
    var y := YearOfDays(n);
    MonthFrom(y, n - DaysBeforeYear(y), 1)
  }

  function DayOfDay(n: int): int
    requires 0 <= n < DaysTo10000
  {
    var y := YearOfDays(n);
    n - DaysBeforeYear(y) - DaysBeforeMonth(y, MonthOfDay(n)) + 1
  }

  /** Splitting a day number into year, month and day and putting it back
      together gives the same day number. */
  lemma DecomposeDays(n: int)
    requires 0 <= n < DaysTo10000
    ensures ValidDate(YearOfDays(n), MonthOfDay(n), DayOfDay(n))
    ensures DateToDays(YearOfDays(n), MonthOfDay(n), DayOfDay(n)) == n
  {
  }

  lemma {:induction false} DaysBeforeMonthMonotonic(y: int, a: int, b: int)
    requires 1 <= a < b <= 13
    ensures DaysBeforeMonth(y, a) + 28 <= DaysBeforeMonth(y, b)
  {
  }

  /** The year of a day number is the only year whose span contains it. */
  lemma {:induction false} YearOfDaysUnique(n: int, y: int)
    requires 1 <= y && 0 <= n < DaysTo10000
    requires DaysBeforeYear(y) <= n < DaysBeforeYear(y) + DaysInYear(y)
    ensures YearOfDays(n) == y
  {
    var y' := YearOfDays(n);
    if y' < y {
      DaysBeforeNextYear(y');
      DaysBeforeYearMonotonic(y' + 1, y);
      assert false;
    } else if y < y' {
      DaysBeforeNextYear(y);
      DaysBeforeYearMonotonic(y + 1, y');
      assert false;
    }
  }

  /** The month found for a day of the year is the only month containing it. */
  lemma {:induction false} MonthFromUnique(y: int, d: int, m: int)
    requires 1 <= m <= 12
    requires DaysBeforeMonth(y, m) <= d < DaysBeforeMonth(y, m + 1)
    ensures MonthFrom(y, d, 1) == m
  {
    var m' := MonthFrom(y, d, 1);
    if m' < m {
      DaysBeforeMonthMonotonic(y, m' + 1, m);
      assert false;
    } else if m < m' {
      DaysBeforeMonthMonotonic(y, m + 1, m');
      assert false;
    }
  }

  /** Building a day number from a valid date and splitting it again gives
      back the same year, month and day. */
  lemma {:induction false} ComposeDays(y: int, m: int, d: int)
    requires ValidDate(y, m, d)
    ensures YearOfDays(DateToDays(y, m, d)) == y
    ensures MonthOfDay(DateToDays(y, m, d)) == m
    ensures DayOfDay(DateToDays(y, m, d)) == d
  {
    var n := DateToDays(y, m, d);
    if m < 12 { DaysBeforeMonthMonotonic(y, m + 1, 13); }
    YearOfDaysUnique(n, y);
    MonthFromUnique(y, n - DaysBeforeYear(y), m);
  }

  // ---------------------------------------------------------------------
  // Fields of a DateTime
  // ---------------------------------------------------------------------

  /** Whole days since 0001-01-01. */
  function Days(t: DateTime): (r: int)
    ensures 0 <= r < DaysTo10000
  {
    t / TicksPerDay
  }

  function Year(t: DateTime): (r: int)
    ensures 1 <= r <= 9999
  {
    YearOfDays(Days(t))
  }

  function Month(t: DateTime): (r: int)
    ensures 1 <= r <= 12
  {
    MonthOfDay(Days(t))
  }

  function Day(t: DateTime): int {
    DayOfDay(Days(t))
  }

  function Hour(t: DateTime): int {
    (t / TicksPerHour) % 24
  }

  function Minute(t: DateTime): int {
    (t / TicksPerMinute) % 60
  }

  function Second(t: DateTime): int {
    (t / TicksPerSecond) % 60
  }

  function Millisecond(t: DateTime): int {
    (t / TicksPerMillisecond) % 1000
  }

  /** A DateTime lies at or after midnight of day n exactly when its day
      number is at least n. */
  lemma MidnightOrder(t: DateTime, n: int)
    requires 0 <= n
    ensures n * TicksPerDay <= t <==> n <= Days(t)
  {
    MulDivOrder(t, TicksPerDay, n);
  }

  /** Midnight of day n has day number n and no time of day. */
  lemma MidnightOf(n: int)
    requires 0 <= n < DaysTo10000
    ensures 0 <= n * TicksPerDay <= MaxTicks
    ensures (n * TicksPerDay) / TicksPerDay == n && (n * TicksPerDay) % TicksPerDay == 0
  {
    DivModUnique(n * TicksPerDay, TicksPerDay, n, 0);
  }

  /** The day after the last day of a month is the first of the next month. */
  lemma {:induction false} FirstOfNextMonth(y: int, m: int)
    requires ValidDate(y, m, 1) && (y < 9999 || m < 12)
    ensures m < 12 ==> DateToDays(y, m + 1, 1) == DateToDays(y, m, DaysInMonth(y, m)) + 1
    ensures m == 12 ==> DateToDays(y + 1, 1, 1) == DateToDays(y, 12, 31) + 1
  {
    if m == 12 {
      DaysBeforeNextYear(y);
    }
  }

  /** Every date of a year lies on or before its 31 December. */
  lemma DateNotAfterYearEnd(y: int, m: int, d: int)
    requires ValidDate(y, m, d)
    ensures DateToDays(y, m, d) <= DateToDays(y, 12, 31)
  {
    if m < 11 {
      DaysBeforeMonthMonotonic(y, m + 1, 12);
    }
  }

  /** DayOfWeek: 0 is Sunday; 0001-01-01 was a Monday. */
  function DayOfWeek(t: DateTime): int {
    (Days(t) + 1) % 7
  }

  /** DateTime.Date: midnight of the same day. */
  function Date(t: DateTime): DateTime {
    t - t % TicksPerDay
  }

  /** The year, month and day of a DateTime form a valid date, and its tick
      count is that date's midnight plus the time of day spelled out in
      hours, minutes, seconds, milliseconds and sub-millisecond ticks. */
  lemma Fields(t: DateTime)
    ensures ValidDate(Year(t), Month(t), Day(t))
    ensures DateToDays(Year(t), Month(t), Day(t)) == Days(t)
    ensures 0 <= Hour(t) < 24 && 0 <= Minute(t) < 60 && 0 <= Second(t) < 60
    ensures 0 <= Millisecond(t) < 1000
    ensures t == Days(t) * TicksPerDay + Hour(t) * TicksPerHour + Minute(t) * TicksPerMinute
                 + Second(t) * TicksPerSecond + Millisecond(t) * TicksPerMillisecond
                 + t % TicksPerMillisecond
  {
    DecomposeDays(Days(t));
    var days, tod := t / TicksPerDay, t % TicksPerDay;
    assert t == days * TicksPerDay + tod && 0 <= tod < TicksPerDay;
    var h, rh := tod / TicksPerHour, tod % TicksPerHour;
    assert tod == h * TicksPerHour + rh && 0 <= rh < TicksPerHour;
    var mi, rmi := rh / TicksPerMinute, rh % TicksPerMinute;
    assert rh == mi * TicksPerMinute + rmi && 0 <= rmi < TicksPerMinute;
    var s, rs := rmi / TicksPerSecond, rmi % TicksPerSecond;
    assert rmi == s * TicksPerSecond + rs && 0 <= rs < TicksPerSecond;
    var ms, sub := rs / TicksPerMillisecond, rs % TicksPerMillisecond;
    assert rs == ms * TicksPerMillisecond + sub && 0 <= sub < TicksPerMillisecond;
    assert h < 24 && mi < 60 && s < 60 && ms < 1000;
    TimeOfDay(days, h, mi, s, ms, sub);
  }

  /** A tick count assembled from a day number and in-range time fields
      yields exactly those fields back. */
  lemma TimeOfDay(days: int, h: int, mi: int, s: int, ms: int, sub: int)
    requires 0 <= days < DaysTo10000
    requires 0 <= h < 24 && 0 <= mi < 60 && 0 <= s < 60 && 0 <= ms < 1000
    requires 0 <= sub < TicksPerMillisecond
    ensures var t := days * TicksPerDay + h * TicksPerHour + mi * TicksPerMinute
                     + s * TicksPerSecond + ms * TicksPerMillisecond + sub;
      && 0 <= t <= MaxTicks
      && t / TicksPerDay == days
      && (t / TicksPerHour) % 24 == h
      && (t / TicksPerMinute) % 60 == mi
      && (t / TicksPerSecond) % 60 == s
      && (t / TicksPerMillisecond) % 1000 == ms
      && t % TicksPerMillisecond == sub
  {
    var t := days * TicksPerDay + h * TicksPerHour + mi * TicksPerMinute
             + s * TicksPerSecond + ms * TicksPerMillisecond + sub;
    var inH := days * 24 + h;
    var inMin := inH * 60 + mi;
    var inS := inMin * 60 + s;
    var inMs := inS * 1000 + ms;
    assert t == inMs * TicksPerMillisecond + sub;
    DivModUnique(t, TicksPerMillisecond, inMs, sub);
    DivModUnique(inMs, 1000, inS, ms);
    DivModUnique(t, TicksPerSecond, inS, ms * TicksPerMillisecond + sub);
    DivModUnique(inS, 60, inMin, s);
    DivModUnique(t, TicksPerMinute, inMin, s * TicksPerSecond + ms * TicksPerMillisecond + sub);
    DivModUnique(inMin, 60, inH, mi);
    DivModUnique(t, TicksPerHour, inH,
                 mi * TicksPerMinute + s * TicksPerSecond + ms * TicksPerMillisecond + sub);
    DivModUnique(inH, 24, days, h);
    DivModUnique(t, TicksPerDay, days,
                 h * TicksPerHour + mi * TicksPerMinute + s * TicksPerSecond
                 + ms * TicksPerMillisecond + sub);
  }

  /** Ticks of the date y-m-d at h:mi:s. */
  function DateTimeTicks(y: int, m: int, d: int, h: int, mi: int, s: int): int
    requires ValidDate(y, m, d)
  {
    DateToDays(y, m, d) * TicksPerDay + h * TicksPerHour + mi * TicksPerMinute + s * TicksPerSecond
  }

  lemma DateTimeTicksFields(y: int, m: int, d: int, h: int, mi: int, s: int)
    requires ValidDate(y, m, d) && 0 <= h < 24 && 0 <= mi < 60 && 0 <= s < 60
    ensures var r := DateTimeTicks(y, m, d, h, mi, s);
      && 0 <= r <= MaxTicks
      && Year(r) == y && Month(r) == m && Day(r) == d
      && Hour(r) == h && Minute(r) == mi && Second(r) == s
      && Millisecond(r) == 0 && r % TicksPerMillisecond == 0
  {
    var days := DateToDays(y, m, d);
    TimeOfDay(days, h, mi, s, 0, 0);
    ComposeDays(y, m, d);
    var r := DateTimeTicks(y, m, d, h, mi, s);
    assert r == days * TicksPerDay + h * TicksPerHour + mi * TicksPerMinute
                + s * TicksPerSecond + 0 * TicksPerMillisecond + 0;
    assert 0 <= r <= MaxTicks;
    assert Days(r) == days;
    assert Year(r) == YearOfDays(days) && Month(r) == MonthOfDay(days) && Day(r) == DayOfDay(days);
  }

  /** new DateTime(y, m, d, h, mi, s). */
  function NewDateTime(y: int, m: int, d: int, h: int, mi: int, s: int): (r: DateTime)
    requires ValidDate(y, m, d) && 0 <= h < 24 && 0 <= mi < 60 && 0 <= s < 60
    ensures r == DateTimeTicks(y, m, d, h, mi, s)
    ensures Year(r) == y && Month(r) == m && Day(r) == d
    ensures Hour(r) == h && Minute(r) == mi && Second(r) == s
    ensures Millisecond(r) == 0 && r % TicksPerMillisecond == 0
  {
    DateTimeTicksFields(y, m, d, h, mi, s);
    DateTimeTicks(y, m, d, h, mi, s)
  }

  function AddDays(t: DateTime, n: int): DateTime
    requires 0 <= t + n * TicksPerDay <= MaxTicks
  {
    t + n * TicksPerDay
  }

  function AddHours(t: DateTime, n: int): DateTime
    requires 0 <= t + n * TicksPerHour <= MaxTicks
  {
    t + n * TicksPerHour
  }

  function AddMinutes(t: DateTime, n: int): DateTime
    requires 0 <= t + n * TicksPerMinute <= MaxTicks
  {
    t + n * TicksPerMinute
  }

  function AddSeconds(t: DateTime, n: int): DateTime
    requires 0 <= t + n * TicksPerSecond <= MaxTicks
  {
    t + n * TicksPerSecond
  }

  function AddMilliseconds(t: DateTime, n: int): DateTime
    requires 0 <= t + n * TicksPerMillisecond <= MaxTicks
  {
    t + n * TicksPerMillisecond
  }

  /** Adding n whole units of a given tick length moves the count of whole
      units by n and keeps the part below one unit. */
  lemma ShiftWholeUnits(t: int, n: int, unit: int)
    requires 0 < unit && 0 <= t && 0 <= t + n * unit
    ensures (t + n * unit) / unit == t / unit + n
    ensures (t + n * unit) % unit == t % unit
  {
    DivModUnique(t + n * unit, unit, t / unit + n, t % unit);
  }

  /** AddDays moves the date by n days and keeps the time of day. */
  lemma AddDaysShiftsDate(t: DateTime, n: int)
    requires 0 <= t + n * TicksPerDay <= MaxTicks
    ensures Days(AddDays(t, n)) == Days(t) + n
    ensures AddDays(t, n) % TicksPerDay == t % TicksPerDay
  {
    ShiftWholeUnits(t, n, TicksPerDay);
  }

  /** AddHours moves the count of whole hours by n and keeps the minutes,
      seconds and ticks within the hour. */
  lemma AddHoursShiftsHours(t: DateTime, n: int)
    requires 0 <= t + n * TicksPerHour <= MaxTicks
    ensures AddHours(t, n) / TicksPerHour == t / TicksPerHour + n
    ensures AddHours(t, n) % TicksPerHour == t % TicksPerHour
  {
    ShiftWholeUnits(t, n, TicksPerHour);
  }

  /** AddMinutes moves the count of whole minutes by n and keeps the ticks
      within the minute. */
  lemma AddMinutesShiftsMinutes(t: DateTime, n: int)
    requires 0 <= t + n * TicksPerMinute <= MaxTicks
    ensures AddMinutes(t, n) / TicksPerMinute == t / TicksPerMinute + n
    ensures AddMinutes(t, n) % TicksPerMinute == t % TicksPerMinute
  {
    ShiftWholeUnits(t, n, TicksPerMinute);
  }

  /** AddSeconds moves the count of whole seconds by n and keeps the ticks
      within the second. */
  lemma AddSecondsShiftsSeconds(t: DateTime, n: int)
    requires 0 <= t + n * TicksPerSecond <= MaxTicks
    ensures AddSeconds(t, n) / TicksPerSecond == t / TicksPerSecond + n
    ensures AddSeconds(t, n) % TicksPerSecond == t % TicksPerSecond
  {
    ShiftWholeUnits(t, n, TicksPerSecond);
  }

  /** AddMilliseconds moves the count of whole milliseconds by n and keeps
      the ticks within the millisecond. */
  lemma AddMillisecondsShiftsMilliseconds(t: DateTime, n: int)
    requires 0 <= t + n * TicksPerMillisecond <= MaxTicks
    ensures AddMilliseconds(t, n) / TicksPerMillisecond == t / TicksPerMillisecond + n
    ensures AddMilliseconds(t, n) % TicksPerMillisecond == t % TicksPerMillisecond
  {
    ShiftWholeUnits(t, n, TicksPerMillisecond);
  }

  /** Date is the midnight that begins t's day: same day number, no time of
      day, and t lies within the day that follows it. */
  lemma DateIsMidnightOfDay(t: DateTime)
    ensures Days(Date(t)) == Days(t) && Date(t) % TicksPerDay == 0
    ensures Date(t) <= t < Date(t) + TicksPerDay
  {
    DivModUnique(Date(t), TicksPerDay, Days(t), 0);
  }

  /** Day 0, 0001-01-01, was a Monday, and each day after it moves the day of
      the week one place on, Saturday wrapping to Sunday. */
  lemma DayOfWeekCycle(t: DateTime)
    ensures 0 <= DayOfWeek(t) < 7
    ensures DayOfWeek(0) == 1
    ensures t + TicksPerDay <= MaxTicks ==> DayOfWeek(AddDays(t, 1)) == (DayOfWeek(t) + 1) % 7
  {
    if t + TicksPerDay <= MaxTicks {
      AddDaysShiftsDate(t, 1);
    }
  }

  /** DateTime.AddMonths: moves the year and month, clamps the day to the
      length of the target month and keeps the time of day.  The runtime
      computes the target with truncating division in two branches; Dafny's
      Euclidean division and remainder give the same year and month in one. */
  function AddMonths(t: DateTime, months: int): (r: DateTime)
    requires -120000 <= months <= 120000
    requires 1 <= Year(t) + (Month(t) - 1 + months) / 12 <= 9999
    ensures var i := Month(t) - 1 + months;
      && Year(r) == Year(t) + i / 12
      && Month(r) == i % 12 + 1
      && Day(r) == (if Day(t) <= DaysInMonth(Year(r), Month(r)) then Day(t)
                    else DaysInMonth(Year(r), Month(r)))
      && r % TicksPerDay == t % TicksPerDay
  {
    var i := Month(t) - 1 + months;
    var y := Year(t) + i / 12;
    var m := i % 12 + 1;
    Fields(t);
    var d := if Day(t) <= DaysInMonth(y, m) then Day(t) else DaysInMonth(y, m);
    var days := DateToDays(y, m, d);
    ComposeDays(y, m, d);
    var r := days * TicksPerDay + t % TicksPerDay;
    assert r / TicksPerDay == days;
    r
  }

  /** DateTime.AddYears: the same month and day (29 February clamped to 28)
      in another year, at the same time of day. */
  function AddYears(t: DateTime, years: int): (r: DateTime)
    requires -10000 <= years <= 10000
    requires 1 <= Year(t) + years <= 9999
    ensures Year(r) == Year(t) + years && Month(r) == Month(t)
    ensures Day(r) == (if Day(t) <= DaysInMonth(Year(r), Month(r)) then Day(t)
                       else DaysInMonth(Year(r), Month(r)))
    ensures r % TicksPerDay == t % TicksPerDay
  {
    assert (Month(t) - 1 + 12 * years) / 12 == years;
    AddMonths(t, 12 * years)
  }
}
