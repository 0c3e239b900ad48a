/** Rendering a DateTime in one of five fixed formats.  The culture supplies
    the date separator ("/" in a .NET format string), the time separator
    (":"), and the full day and month names. */
module DateTimeTranslations {
  import opened Numerics
  import opened Calendar

  /** DateTimeTranslationOptions.  A C# enum variable can hold any integer,
      so a value outside the five members is Undeclared. */
  datatype DateTimeTranslationOptions =
    | DayMonthYear
    | DayMonthSmallYear
    | DayMonthYearHourMinuteSecond
    | FullDayOfTheWeek
    | FullMonth
    | Undeclared(value: int)

  /** The option an integer denotes: the members are numbered 0 to 4 in
      declaration order. */
  function FromValue(n: int): (o: DateTimeTranslationOptions)
    ensures 0 <= n < 5 <==> !o.Undeclared?
    ensures o.Undeclared? ==> o.value == n
    ensures n == 0 <==> o == DayMonthYear
    ensures n == 1 <==> o == DayMonthSmallYear
    ensures n == 2 <==> o == DayMonthYearHourMinuteSecond
    ensures n == 3 <==> o == FullDayOfTheWeek
    ensures n == 4 <==> o == FullMonth
  {
    if n == 0 then DayMonthYear
    else if n == 1 then DayMonthSmallYear
    else if n == 2 then DayMonthYearHourMinuteSecond
    else if n == 3 then FullDayOfTheWeek
    else if n == 4 then FullMonth
    else Undeclared(n)
  }

  /** The formatting data of the current culture: day names from Sunday,
      month names from January. */
  datatype Culture = Culture(dateSeparator: string, timeSeparator: string,
                             dayNames: seq<string>, monthNames: seq<string>)
  {
    predicate Valid() {
      |dayNames| == 7 && |monthNames| == 12
    }
  }

  /** The invariant culture. */
  const Invariant := Culture("/", ":",
    ["Sunday", "Monday", "Tuesday", "Wednesday", "Thursday", "Friday", "Saturday"],
    ["January", "February", "March", "April", "May", "June", "July",
     "August", "September", "October", "November", "December"])

  /** A field below 100 in the two-digit custom specifiers ("dd", "MM",
      "yy", "HH", "mm", "ss"). */
  function TwoDigits(n: nat): (s: string)
    requires n < 100
    ensures |s| == 2 && AllDigits(s) && ParseDigits(s) == n
  {
    PadDigitsRoundTrip(n, 2);
    PadDigits(n, 2)
  }

  /** "yyyy": years 1 to 9999 in exactly four digits. */
  function FourDigits(n: nat): (s: string)
    requires n < 10000
    ensures |s| == 4 && AllDigits(s) && ParseDigits(s) == n
  {
    PadDigitsRoundTrip(n, 4);
    PadDigits(n, 4)
  }

  /** "dd/MM/" followed by the given year field. */
  function DayMonth(dateTime: DateTime, culture: Culture): (s: string)
    ensures |s| == 4 + 2 * |culture.dateSeparator|
  {
    DecomposeDays(Days(dateTime));
    TwoDigits(Day(dateTime)) + culture.dateSeparator + TwoDigits(Month(dateTime)) + culture.dateSeparator
  }

  /** "HH:mm:ss". */
  function TimeFields(dateTime: DateTime, culture: Culture): (s: string)
    ensures |s| == 6 + 2 * |culture.timeSeparator|
  {
    TwoDigits(Hour(dateTime)) + culture.timeSeparator + TwoDigits(Minute(dateTime))
      + culture.timeSeparator + TwoDigits(Second(dateTime))
  }

  /** The five parts of a "field, separator, field, separator, field"
      string are recovered by slicing at their lengths. */
  lemma Fields5(a: string, x: string, b: string, y: string, c: string)
    ensures var r := a + x + b + y + c;
      var i, j, k, l := |a|, |a| + |x|, |a| + |x| + |b|, |a| + |x| + |b| + |y|;
      && r[..i] == a && r[i..j] == x && r[j..k] == b && r[k..l] == y && r[l..] == c
  {
    var r := a + x + b + y + c;
    var i, j, k, l := |a|, |a| + |x|, |a| + |x| + |b|, |a| + |x| + |b| + |y|;
    assert r[..i] == a;
    assert r[i..j] == x;
    assert r[j..k] == b;
    assert r[k..l] == y;
    assert r[l..] == c;
  }

  /** ConvertToString: one format per option; an undeclared option leaves
      the result empty. */
  function ConvertToString(dateTime: DateTime, output: DateTimeTranslationOptions, culture: Culture): (r: string)
    requires culture.Valid()
    ensures output == DayMonthYear ==> |r| == 8 + 2 * |culture.dateSeparator|
    ensures output == DayMonthSmallYear ==> |r| == 6 + 2 * |culture.dateSeparator|
    ensures output == DayMonthYearHourMinuteSecond ==>
      |r| == 15 + 2 * |culture.dateSeparator| + 2 * |culture.timeSeparator|
    ensures output.Undeclared? ==> r == ""
  {
    match output
    case DayMonthYear => DayMonth(dateTime, culture) + FourDigits(Year(dateTime))
    case DayMonthSmallYear => DayMonth(dateTime, culture) + TwoDigits(Year(dateTime) % 100)
    case DayMonthYearHourMinuteSecond =>
      DayMonth(dateTime, culture) + FourDigits(Year(dateTime)) + " " + TimeFields(dateTime, culture)
    case FullDayOfTheWeek => culture.dayNames[DayOfWeek(dateTime)]
    case FullMonth => culture.monthNames[Month(dateTime) - 1]
    case Undeclared(_) => ""
  }

  /** Under the invariant culture the numeric formats are 10, 8 and 19
      characters long. */
  lemma InvariantLengths(dateTime: DateTime)
    ensures |ConvertToString(dateTime, DayMonthYear, Invariant)| == 10
    ensures |ConvertToString(dateTime, DayMonthSmallYear, Invariant)| == 8
    ensures |ConvertToString(dateTime, DayMonthYearHourMinuteSecond, Invariant)| == 19
  {
  }

  /** The date string reads back as the date: day, separator, month,
      separator, year, each field the digits of its value. */
  lemma DayMonthYearReadsBack(dateTime: DateTime, culture: Culture)
    requires culture.Valid()
    ensures var r := ConvertToString(dateTime, DayMonthYear, culture);
      var n := |culture.dateSeparator|;
      && AllDigits(r[..2]) && ParseDigits(r[..2]) == Day(dateTime)
      && r[2..2 + n] == culture.dateSeparator
      && AllDigits(r[2 + n..4 + n]) && ParseDigits(r[2 + n..4 + n]) == Month(dateTime)
      && r[4 + n..4 + 2 * n] == culture.dateSeparator
      && AllDigits(r[4 + 2 * n..]) && ParseDigits(r[4 + 2 * n..]) == Year(dateTime)
  {
    DecomposeDays(Days(dateTime));
    Fields5(TwoDigits(Day(dateTime)), culture.dateSeparator, TwoDigits(Month(dateTime)),
            culture.dateSeparator, FourDigits(Year(dateTime)));
  }

  /** The short-year format ends in the year modulo 100, two digits. */
  lemma DayMonthSmallYearReadsBack(dateTime: DateTime, culture: Culture)
    requires culture.Valid()
    ensures var r := ConvertToString(dateTime, DayMonthSmallYear, culture);
      && AllDigits(r[|r| - 2..]) && ParseDigits(r[|r| - 2..]) == Year(dateTime) % 100
      && r[..|r| - 2] == ConvertToString(dateTime, DayMonthYear, culture)[..|r| - 2]
  {
    var prefix := DayMonth(dateTime, culture);
    var r := ConvertToString(dateTime, DayMonthSmallYear, culture);
    assert r[|r| - 2..] == TwoDigits(Year(dateTime) % 100);
    assert r[..|r| - 2] == prefix;
    assert ConvertToString(dateTime, DayMonthYear, culture)[..|r| - 2] == prefix;
  }

  /** The date-and-time format is the date format, a space, and the time. */
  lemma DayMonthYearHourMinuteSecondSplits(dateTime: DateTime, culture: Culture)
    requires culture.Valid()
    ensures ConvertToString(dateTime, DayMonthYearHourMinuteSecond, culture)
         == ConvertToString(dateTime, DayMonthYear, culture) + " " + TimeFields(dateTime, culture)
  {
  }

  /** The time reads back as hour, minute and second, separated by the
      culture's time separator. */
  lemma TimeFieldsReadBack(dateTime: DateTime, culture: Culture)
    ensures var r := TimeFields(dateTime, culture);
      var n := |culture.timeSeparator|;
      && AllDigits(r[..2]) && ParseDigits(r[..2]) == Hour(dateTime)
      && r[2..2 + n] == culture.timeSeparator
      && AllDigits(r[2 + n..4 + n]) && ParseDigits(r[2 + n..4 + n]) == Minute(dateTime)
      && r[4 + n..4 + 2 * n] == culture.timeSeparator
      && AllDigits(r[4 + 2 * n..]) && ParseDigits(r[4 + 2 * n..]) == Second(dateTime)
  {
    Fields5(TwoDigits(Hour(dateTime)), culture.timeSeparator, TwoDigits(Minute(dateTime)),
            culture.timeSeparator, TwoDigits(Second(dateTime)));
  }

  /** The full day name depends on nothing but the day of the week, and the
      full month name on nothing but the month. */
  lemma NamesDependOnlyOnTheirField(a: DateTime, b: DateTime, culture: Culture)
    requires culture.Valid()
    ensures DayOfWeek(a) == DayOfWeek(b) <==>
      (forall c: Culture | c.Valid() && Injective(c.dayNames) ::
        ConvertToString(a, FullDayOfTheWeek, c) == ConvertToString(b, FullDayOfTheWeek, c))
    ensures DayOfWeek(a) == DayOfWeek(b) ==>
      ConvertToString(a, FullDayOfTheWeek, culture) == ConvertToString(b, FullDayOfTheWeek, culture)
    ensures Month(a) == Month(b) ==>
      ConvertToString(a, FullMonth, culture) == ConvertToString(b, FullMonth, culture)
  {
    if DayOfWeek(a) != DayOfWeek(b) {
      InvariantDayNamesDistinct();
      assert ConvertToString(a, FullDayOfTheWeek, Invariant) != ConvertToString(b, FullDayOfTheWeek, Invariant);
    }
  }

  /** The invariant culture names every day differently. */
  lemma InvariantDayNamesDistinct()
    ensures Invariant.Valid() && Injective(Invariant.dayNames)
  {
    var names := Invariant.dayNames;
    forall i, j | 0 <= i < j < 7 ensures names[i] != names[j] {
      if names[i][0] == names[j][0] {
        assert names[i][1] != names[j][1];
      }
    }
  }

  /** No name occurs twice. */
  predicate Injective(names: seq<string>) {
    forall i, j :: 0 <= i < j < |names| ==> names[i] != names[j]
  }

  /** A week later the day name is the same. */
  lemma DayNameRepeatsWeekly(dateTime: DateTime, culture: Culture)
    requires culture.Valid() && dateTime + 7 * TicksPerDay <= MaxTicks
    ensures ConvertToString(dateTime + 7 * TicksPerDay, FullDayOfTheWeek, culture)
         == ConvertToString(dateTime, FullDayOfTheWeek, culture)
  {
    DivModUnique(dateTime + 7 * TicksPerDay, TicksPerDay, Days(dateTime) + 7, dateTime % TicksPerDay);
  }
}
