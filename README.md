# ExtensionMethodCollection in Dafny

A model of the ExtensionMethodCollection helpers, a set of C# extension
methods on `DateTime`, `Dictionary`, `string`, `int`, `List` and
`ObservableCollection`, plus a translator that renders a `DateTime` in one
of five fixed formats. The model states and proves the following:

- the calendar truncations `BeginOf*`/`EndOf*` and the SQL Server date
  range test;
- the hour, second and day enumerations, with the action calls they make;
- dictionary updates and the "empty dictionary for every hour or second"
  builders;
- `Right`/`Left`, filename sanitising, zero-padded integer rendering;
- list and collection conversion and stable sorting;
- the `dd/MM/yyyy`-style renderings.

Layout, one module per file:

- `Wrappers`: `Option`, standing for a null reference or a `Nullable<T>`
  without a value.
- `Numerics`: 32-bit integers and their wrap-around; decimal digit
  strings and their read-back.
- `Calendar`: the `DateTime` value (ticks of 100 ns from 0001-01-01) and
  its proleptic Gregorian fields; the `DateTime` constructor and `Add*`.
- `Linq`: `OrderBy` and `OrderByDescending` as a stable insertion sort
  over an abstract comparer.
- `Dictionaries`, `Collections`: the framework's `Dictionary`, `List` and
  `ObservableCollection` as classes whose contents are a `map` or a `seq`.
- `DateTimeExtensions`, `DictionaryExtensions`, `StringExtensions`,
  `IntegerExtensions`, `ListExtensions`, `ObservableCollectionExtensions`,
  `DateTimeTranslations`: the repository's own classes.

Conventions:

- An `Action` callback becomes the returned sequence of the arguments it
  would be called with, in call order.
- An exception the source lets escape (a `DateTime` out of range,
  `Math.Abs(int.MinValue)`, a `Substring` out of range, a null receiver
  dereferenced) becomes a precondition.
- A null check the source makes is modelled: a nullable class type `C?`,
  or an `Option` value.
- The culture, the comparer of `OrderBy`, and the platform's invalid
  filename characters are parameters.

## Model

| member | source | states |
|---|---|---|
| DateTimeExtensions.MinimumSqlDateTimeIs1753 | ExtensionMethodCollection/Extensions/DateTimeExtensions.cs:11 | the lower SQL bound is 1753-01-01 00:00:00 |
| DateTimeExtensions.MaximumSqlDateTimeIs9999 | ExtensionMethodCollection/Extensions/DateTimeExtensions.cs:12 | the upper SQL bound is 9999-12-31 00:00:00, the last day's midnight and not its end |
| DateTimeExtensions.IsValidSqlDateTime | ExtensionMethodCollection/Extensions/DateTimeExtensions.cs:19-27 | true exactly when the value lies strictly between the two bounds; both bounds are excluded, and so is `DateTime.MinValue` |
| DateTimeExtensions.IsValidNullableSqlDateTime | ExtensionMethodCollection/Extensions/DateTimeExtensions.cs:34-39 | false without a value, otherwise the same strict range test |
| DateTimeExtensions.SqlRangeInCalendarTerms | ExtensionMethodCollection/Extensions/DateTimeExtensions.cs:11-27 | the range test in calendar terms: after 1753-01-01 00:00:00, and on no instant of 9999-12-31 |
| DateTimeExtensions.BeginOfYear | ExtensionMethodCollection/Extensions/DateTimeExtensions.cs:62-65 | January 1 of the same year at midnight, not after the input |
| DateTimeExtensions.BeginOfMonth | ExtensionMethodCollection/Extensions/DateTimeExtensions.cs:82-85 | day 1 of the same year and month at midnight, not after the input |
| DateTimeExtensions.BeginOfDay | ExtensionMethodCollection/Extensions/DateTimeExtensions.cs:102-105 | the input truncated to whole days; it keeps the date and has zero hour, minute, second and millisecond |
| DateTimeExtensions.BeginOfHour | ExtensionMethodCollection/Extensions/DateTimeExtensions.cs:122-125 | the input truncated to whole hours; it keeps date and hour and zeroes everything finer |
| DateTimeExtensions.BeginOfMinute | ExtensionMethodCollection/Extensions/DateTimeExtensions.cs:142-145 | the input truncated to whole minutes; it keeps the coarser fields and zeroes seconds and milliseconds |
| DateTimeExtensions.BeginOfSecond | ExtensionMethodCollection/Extensions/DateTimeExtensions.cs:162-165 | the input truncated to whole seconds, so milliseconds and sub-millisecond ticks are dropped |
| DateTimeExtensions.BeginOfIdempotent | ExtensionMethodCollection/Extensions/DateTimeExtensions.cs:62-165 | each of the six truncations applied twice equals applying it once |
| DateTimeExtensions.EndOfYear | ExtensionMethodCollection/Extensions/DateTimeExtensions.cs:72-75 | December 31, 23:59:59.999 of the same year, exactly one millisecond before midnight of 1 January of the next year; the input is before that midnight; the next year must exist |
| DateTimeExtensions.EndOfMonth | ExtensionMethodCollection/Extensions/DateTimeExtensions.cs:92-95 | midnight (not the last millisecond) of the month's last day, whose number is the Gregorian length of the month |
| DateTimeExtensions.EndOfDay | ExtensionMethodCollection/Extensions/DateTimeExtensions.cs:112-115 | the day's start plus one day minus 1 ms: same date, 23:59:59.999 |
| DateTimeExtensions.EndOfHour | ExtensionMethodCollection/Extensions/DateTimeExtensions.cs:132-135 | the hour's start plus one hour minus 1 ms: same hour, 59:59.999 |
| DateTimeExtensions.EndOfMinute | ExtensionMethodCollection/Extensions/DateTimeExtensions.cs:152-155 | the minute's start plus one minute minus 1 ms: same minute, second 59, millisecond 999 |
| DateTimeExtensions.EndOfSecond | ExtensionMethodCollection/Extensions/DateTimeExtensions.cs:172-175 | the second's start plus 999 ms: same second, millisecond 999 |
| DateTimeExtensions.EndOfStaysInUnit | ExtensionMethodCollection/Extensions/DateTimeExtensions.cs:72-175 | truncating an end of year, day, hour, minute or second gives back the unit's beginning; the end plus 1 ms is the next unit's beginning, for a year its beginning plus the year's 365 or 366 days |
| DateTimeExtensions.EndOfSecondPrecedesSubMillisecondTicks | ExtensionMethodCollection/Extensions/DateTimeExtensions.cs:172-175 | an instant inside the last millisecond but past its first tick lies after EndOfSecond |
| DateTimeExtensions.ForEachHourInDay | ExtensionMethodCollection/Extensions/DateTimeExtensions.cs:182-198 | exactly 25 calls: the day's midnight, then every hour up to and including the next midnight |
| DateTimeExtensions.HourlyCallsCoverTheDay | ExtensionMethodCollection/Extensions/DateTimeExtensions.cs:182-198 | call k < 24 is hour k of the same date at minute and second 0; call 24 is the next day's midnight |
| DateTimeExtensions.ForEachSecondInTimespan | ExtensionMethodCollection/Extensions/DateTimeExtensions.cs:206-219 | calls start, start + 1 s, … while not past end; always at least once, even when end precedes start |
| DateTimeExtensions.StepsWithin | ExtensionMethodCollection/Extensions/DateTimeExtensions.cs:206-219 | a step j ≥ 1 is called exactly when start + j seconds is not after end |
| DateTimeExtensions.EachDay | ExtensionMethodCollection/Extensions/DateTimeExtensions.cs:227-233 | the midnights from from.Date to thru.Date inclusive, one day apart; empty when thru.Date precedes from.Date |
| DateTimeExtensions.EachDayStep | ExtensionMethodCollection/Extensions/DateTimeExtensions.cs:227-233 | step j is a midnight and is at or before thru.Date exactly when j is below the number of days yielded |
| DateTimeExtensions.IsDifferentHour | ExtensionMethodCollection/Extensions/DateTimeExtensions.cs:243-247 | true exactly when the hours of the day differ; date and minutes play no part |
| DateTimeExtensions.IsDifferentHourExample | ExtensionMethodCollection/Extensions/DateTimeExtensions.cs:236-241 | the documented pair, on different dates at 15:10 and 15:50:12, is not a different hour |
| DictionaryExtensions.ForEach | ExtensionMethodCollection/Extensions/DictionaryExtensions.cs:19-27 | no calls for null; otherwise one call per entry with its key and value, no key twice |
| DictionaryExtensions.AddOrUpdate | ExtensionMethodCollection/Extensions/DictionaryExtensions.cs:37-44 | no-op on null; otherwise the key maps to the value and every other entry is unchanged |
| DictionaryExtensions.AddOrIncrement | ExtensionMethodCollection/Extensions/DictionaryExtensions.cs:55-60 | the key maps to value plus the old value (0 if absent) in 32-bit wrap-around arithmetic; the other entries are unchanged |
| DictionaryExtensions.IncrementedTwice | ExtensionMethodCollection/Extensions/DictionaryExtensions.cs:55-60 | incrementing by a then by b equals incrementing once by a + b (wrapped) |
| DictionaryExtensions.TallyCounts | ExtensionMethodCollection/Extensions/DictionaryExtensions.cs:55-60 | AddOrIncrement by 1 over a key sequence counts occurrences: the keys seen, each with its count modulo 2^32 |
| DictionaryExtensions.IncrementOverflows | ExtensionMethodCollection/Extensions/DictionaryExtensions.cs:59 | incrementing int.MaxValue by 1 stores int.MinValue |
| DictionaryExtensions.OrderedPairs | ExtensionMethodCollection/Extensions/DictionaryExtensions.cs:71 | sorting the entries by key keeps keys distinct and the map they build unchanged |
| DictionaryExtensions.OrderByKey | ExtensionMethodCollection/Extensions/DictionaryExtensions.cs:69-72 | a fresh dictionary with exactly the input's key/value pairs |
| DictionaryExtensions.NewEmptyIntegerDictionaryForEveryHourOfDay | ExtensionMethodCollection/Extensions/DictionaryExtensions.cs:109-119 | a fresh dictionary of 25 keys mapped to 0: the whole hours from the day's midnight through the next midnight; the argument is ignored |
| DictionaryExtensions.HourlyKeys | ExtensionMethodCollection/Extensions/DictionaryExtensions.cs:113-116 | the 25 hourly steps from a midnight are distinct and are exactly the whole hours up to the next midnight |
| DictionaryExtensions.NewEmptyIntegerDictionaryForEverySecondInTimespan | ExtensionMethodCollection/Extensions/DictionaryExtensions.cs:139-152 | start and end are truncated to seconds; empty if the truncated end precedes the truncated start, else one 0 per whole second between them inclusive |
| DictionaryExtensions.NewEmptyDecimalDictionaryForEverySecondInTimespan | ExtensionMethodCollection/Extensions/DictionaryExtensions.cs:172-183 | no truncation: empty if end < start, else one 0 for each start + k seconds not after end |
| DictionaryExtensions.SteppedCalls | ExtensionMethodCollection/Extensions/DictionaryExtensions.cs:139-152 | calls k steps apart from a multiple of the step are exactly the multiples in range, increasing |
| DictionaryExtensions.AddEach | ExtensionMethodCollection/Extensions/DictionaryExtensions.cs:113-116 | adding distinct keys with one value to an empty dictionary gives exactly those keys, each with that value |
| Dictionaries.Dictionary.Enumerate | ExtensionMethodCollection/Extensions/DictionaryExtensions.cs:23 | enumeration yields every entry exactly once and nothing else |
| Dictionaries.Dictionary.TryGetValue | ExtensionMethodCollection/Extensions/DictionaryExtensions.cs:58 | Dictionary.TryGetValue: a value exactly when the key is present, and then the value stored under it |
| Dictionaries.Dictionary.Remove | ExtensionMethodCollection/Extensions/DictionaryExtensions.cs:42 | Dictionary.Remove: the key's entry is gone and every other entry is kept |
| Dictionaries.Dictionary.Add | ExtensionMethodCollection/Extensions/DictionaryExtensions.cs:43 | Dictionary.Add: the key, which must be absent (the runtime throws otherwise), now maps to the value, and every other entry is kept |
| DictionaryExtensions.ToDictionary | ExtensionMethodCollection/Extensions/DictionaryExtensions.cs:71 | Enumerable.ToDictionary: a fresh dictionary holding exactly the pairs, whose keys must be distinct (the runtime throws on a repeated key) |
| Dictionaries.MapOfPairs | ExtensionMethodCollection/Extensions/DictionaryExtensions.cs:71 | ToDictionary over pairs with distinct keys holds exactly those pairs |
| Dictionaries.PermutationSameMap | ExtensionMethodCollection/Extensions/DictionaryExtensions.cs:71 | reordering distinct-keyed pairs does not change the dictionary they build |
| StringExtensions.Right | ExtensionMethodCollection/Extensions/StringExtensions.cs:17-24 | null or white space is returned unchanged; otherwise the last \|length\| characters, which must exist |
| StringExtensions.Left | ExtensionMethodCollection/Extensions/StringExtensions.cs:32-39 | null or white space is returned unchanged; otherwise the first \|length\| characters, which must exist |
| StringExtensions.BlankConcat | ExtensionMethodCollection/Extensions/StringExtensions.cs:19 | String.IsNullOrWhiteSpace: null and "" are blank, and a string is blank exactly when each of two parts it splits into is |
| StringExtensions.Abs | ExtensionMethodCollection/Extensions/StringExtensions.cs:21 | Math.Abs: a non-negative result equal to the value or its negation; int.MinValue, which throws, is excluded |
| StringExtensions.EndsWithConcat | ExtensionMethodCollection/Extensions/StringExtensions.cs:64 | String.EndsWith: s ends with a suffix exactly when s is some string followed by it; anything followed by the suffix ends with it |
| StringExtensions.LeftRightSplit | ExtensionMethodCollection/Extensions/StringExtensions.cs:17-39 | Left(s, k) followed by Right(s, \|s\| - k) is s |
| StringExtensions.Replace | ExtensionMethodCollection/Extensions/StringExtensions.cs:50 | String.Replace of one character: same length, that character replaced, the others kept |
| StringExtensions.MakeValidFilename | ExtensionMethodCollection/Extensions/StringExtensions.cs:46-54 | the loop of replacements computes the sanitised name |
| StringExtensions.SanitizedProperties | ExtensionMethodCollection/Extensions/StringExtensions.cs:46-54 | same length, invalid characters become '_', others are kept, and no invalid character is left when '_' is valid |
| StringExtensions.SanitizedIdempotent | ExtensionMethodCollection/Extensions/StringExtensions.cs:46-54 | sanitising twice equals sanitising once |
| StringExtensions.MakeValidFilenameForTxtFile | ExtensionMethodCollection/Extensions/StringExtensions.cs:61-67 | the sanitised name, always ending in ".txt" |
| StringExtensions.TxtFilenameAppends | ExtensionMethodCollection/Extensions/StringExtensions.cs:63-65 | ".txt" is appended exactly when the sanitised name does not already end with it |
| StringExtensions.TxtFilenameIdempotent | ExtensionMethodCollection/Extensions/StringExtensions.cs:61-67 | applying it twice equals applying it once, when '.', 't' and 'x' are valid characters |
| IntegerExtensions.IntLength | ExtensionMethodCollection/Extensions/IntegerExtensions.cs:44-50 | 0 for negatives, 1 for zero, else the digit count n with 10^(n-1) ≤ value < 10^n |
| IntegerExtensions.IntLengthExample | ExtensionMethodCollection/Extensions/IntegerExtensions.cs:40 | 98413518 has length 8 |
| IntegerExtensions.ConvertToLongString | ExtensionMethodCollection/Extensions/IntegerExtensions.cs:22-36 | the length's sign is dropped; too many digits gives the plain decimal string, otherwise exactly \|length\| characters |
| IntegerExtensions.LongStringNonNegative | ExtensionMethodCollection/Extensions/IntegerExtensions.cs:16-35 | a non-negative value that fits is its digits left-padded with '0', and reads back as the value |
| IntegerExtensions.LongStringTooLong | ExtensionMethodCollection/Extensions/IntegerExtensions.cs:13-27 | a value with more digits than requested is its full digit string and reads back as the value |
| IntegerExtensions.LongStringNegative | ExtensionMethodCollection/Extensions/IntegerExtensions.cs:26-46 | a negative value always gives \|length\| characters: zeros, '-', digits when there is room, otherwise the last digits without the sign |
| IntegerExtensions.LongStringExamples | ExtensionMethodCollection/Extensions/IntegerExtensions.cs:13-17 | 15 at length 5 is "00015", 1234 at length 2 is "1234", and -15 at length 2 is "15" |
| ListExtensions.ConvertToObservableCollection | ExtensionMethodCollection/Extensions/ListExtensions.cs:19-29 | a fresh collection, empty for a null or empty list, else the same items in the same order |
| ListExtensions.ForEach | ExtensionMethodCollection/Extensions/ListExtensions.cs:39-47 | no calls for null, else one call per item in list order |
| ListExtensions.IsEmpty | ExtensionMethodCollection/Extensions/ListExtensions.cs:55-63 | true exactly when the list is null or has no items |
| ObservableCollectionExtensions.ConvertToList | ExtensionMethodCollection/Extensions/ObservableCollectionExtensions.cs:19-28 | a fresh list, empty for a null collection, else the same items in the same order |
| ObservableCollectionExtensions.OrderByAndConvert | ExtensionMethodCollection/Extensions/ObservableCollectionExtensions.cs:39-43 | a fresh collection that is a permutation of the input, with keys non-decreasing, stable for equal keys |
| ObservableCollectionExtensions.OrderByDescendingAndConvert | ExtensionMethodCollection/Extensions/ObservableCollectionExtensions.cs:52-56 | a fresh collection that is a permutation of the input, with keys non-increasing, stable for equal keys |
| Linq.SortBy | ExtensionMethodCollection/Extensions/ObservableCollectionExtensions.cs:41 | OrderBy: a permutation, sorted by key, and each class of equal keys keeps its input order |
| Linq.SortByDescending | ExtensionMethodCollection/Extensions/ObservableCollectionExtensions.cs:54 | OrderByDescending: a permutation, keys non-increasing, equal keys in input order |
| Linq.InsertKeyClass | ExtensionMethodCollection/Extensions/ObservableCollectionExtensions.cs:41 | when the comparer never ranks a key of k's class strictly above another of that class, inserting x puts it at the front of its key class, ahead of the equal keys already there, and leaves every other class unchanged |
| DateTimeTranslations.FromValue | ExtensionMethodCollection/Enumerations.cs:12-19 | the integers 0 to 4 are, in declaration order, DayMonthYear, DayMonthSmallYear, DayMonthYearHourMinuteSecond, FullDayOfTheWeek and FullMonth, each given by exactly one integer; any other value is undeclared and keeps its value |
| DateTimeTranslations.ConvertToString | ExtensionMethodCollection/Translations/DateTimeTranslations.cs:20-44 | the three numeric formats have lengths fixed by the separators; an undeclared option gives "" |
| DateTimeTranslations.InvariantLengths | ExtensionMethodCollection/Translations/DateTimeTranslations.cs:26-34 | with "/" and ":" the numeric formats are 10, 8 and 19 characters |
| DateTimeTranslations.DayMonthYearReadsBack | ExtensionMethodCollection/Translations/DateTimeTranslations.cs:26-28 | two-digit day, separator, two-digit month, separator, four-digit year, each reading back as its field |
| DateTimeTranslations.DayMonthSmallYearReadsBack | ExtensionMethodCollection/Translations/DateTimeTranslations.cs:29-31 | the same day and month prefix, then the year modulo 100 in two digits |
| DateTimeTranslations.DayMonthYearHourMinuteSecondSplits | ExtensionMethodCollection/Translations/DateTimeTranslations.cs:32-34 | the date format, a space, then HH:mm:ss |
| DateTimeTranslations.TimeFieldsReadBack | ExtensionMethodCollection/Translations/DateTimeTranslations.cs:33 | HH, mm and ss are two digits each, read back as the 24-hour hour, minute and second |
| DateTimeTranslations.NamesDependOnlyOnTheirField | ExtensionMethodCollection/Translations/DateTimeTranslations.cs:35-40 | the same weekday gives the same day name under every culture, and under every culture with distinct names a different weekday gives a different name; the same month gives the same month name |
| DateTimeTranslations.DayNameRepeatsWeekly | ExtensionMethodCollection/Translations/DateTimeTranslations.cs:35-37 | seven days later the day name is the same |
| Calendar.NewDateTime | ExtensionMethodCollection/Extensions/DateTimeExtensions.cs:64 | the DateTime constructor: the instant whose fields are the given year, month, day, hour, minute and second |
| Calendar.AddMonths | ExtensionMethodCollection/Extensions/DateTimeExtensions.cs:94 | DateTime.AddMonths: month arithmetic carried into the year, the day clamped to the new month's length, the time kept |
| Calendar.AddYears | ExtensionMethodCollection/Extensions/DateTimeExtensions.cs:74 | DateTime.AddYears: same month, day clamped (February 29), time kept |
| Calendar.AddDaysShiftsDate | ExtensionMethodCollection/Extensions/DateTimeExtensions.cs:229 | DateTime.AddDays: the day number moves by n and the time of day is kept |
| Calendar.AddHoursShiftsHours | ExtensionMethodCollection/Extensions/DateTimeExtensions.cs:195 | DateTime.AddHours: the count of whole hours moves by n and the rest of the hour is kept |
| Calendar.AddMinutesShiftsMinutes | ExtensionMethodCollection/Extensions/DateTimeExtensions.cs:154 | DateTime.AddMinutes: the count of whole minutes moves by n and the rest of the minute is kept |
| Calendar.AddSecondsShiftsSeconds | ExtensionMethodCollection/Extensions/DateTimeExtensions.cs:215 | DateTime.AddSeconds: the count of whole seconds moves by n and the rest of the second is kept |
| Calendar.AddMillisecondsShiftsMilliseconds | ExtensionMethodCollection/Extensions/DateTimeExtensions.cs:114 | DateTime.AddMilliseconds: the count of whole milliseconds moves by n and the sub-millisecond ticks are kept |
| Calendar.DateIsMidnightOfDay | ExtensionMethodCollection/Extensions/DateTimeExtensions.cs:229 | DateTime.Date: midnight of the same day, at or before the input and less than a day before it |
| Calendar.DayOfWeekCycle | ExtensionMethodCollection/Translations/DateTimeTranslations.cs:36 | DateTime.DayOfWeek: 0 (Sunday) to 6; 0001-01-01 was a Monday, and each next day is the next weekday, Saturday wrapping to Sunday |
| Calendar.DecomposeDays | ExtensionMethodCollection/Extensions/DateTimeExtensions.cs:64 | the year, month and day of a day number form a valid date that maps back to it |
| Calendar.ComposeDays | ExtensionMethodCollection/Extensions/DateTimeExtensions.cs:64 | a valid date's day number decomposes back into that year, month and day |
| Numerics.ParseDigitsOfDigits | ExtensionMethodCollection/Extensions/IntegerExtensions.cs:33 | the decimal digits of n read back as n |
| Numerics.DecimalStringReadsBack | ExtensionMethodCollection/Extensions/IntegerExtensions.cs:27 | Int32.ToString: a '-' exactly for a negative value, then digits that read back as the magnitude |
| Numerics.WrapAdd | ExtensionMethodCollection/Extensions/DictionaryExtensions.cs:59 | 32-bit wrap-around of a sum does not depend on wrapping an operand first |

## Left out

- ExtensionMethodCollection/Extensions/TaskFactoryExtensions.cs is not part of this model. It is asynchronous task scheduling with cancellation and delays, and its catch blocks keep nothing observable.
- `GenerateRandomDateTime` is not modelled: it draws from `Random` and scales with double-precision arithmetic.
- The two `NewEmptyIntegerDictionaryForEveryHourOfToday` overloads are not modelled: they only pass `DateTime.Today`, the system clock, to the modelled day version.
- ExtensionMethodCollection/Program.cs, a console demonstration, is not part of this model.
- The static `NewEmpty*` overloads only create a dictionary and call the extension overload, which ignores its argument. The model has the extension overload only.
- IntegerExtensions.IntLength: the runtime takes `Math.Log10` in floating point. The model states the exact decimal digit count that this computation is meant to give, not the floating-point steps.
- DictionaryExtensions.ForEach: the order of the calls follows the hash table. The model states which calls happen, not their order.
- DictionaryExtensions.OrderByKey: the key order of the result is not stated, for the same reason. The model states that it holds the input's pairs. A dictionary does not keep the sorted order as a promise anyway.
- Dictionaries.Dictionary.Enumerate: the enumeration order is left open, for the same reason.
- DateTimeTranslations.ConvertToString: the culture is a parameter. It gives the date and time separators and the day and month names. The model does not reproduce any real culture's data beyond the invariant one.
- DateTimeTranslations.ConvertToString: the culture's calendar is taken to be the Gregorian one. A culture whose default calendar differs (the Thai Buddhist year, a Hijri calendar) writes other year, month and day fields and month names, which the read-back lemmas do not cover.
- IntegerExtensions.ConvertToLongString: the negative sign is taken to be '-'. The runtime writes the current culture's `NumberFormatInfo.NegativeSign`, and the same holds for `Numerics.DecimalString`.
- DateTimeTranslations.NamesDependOnlyOnTheirField: the month direction is stated one way only. Two months can share a name in a culture whose names repeat.
- ObservableCollectionExtensions.OrderByAndConvert: string comparison is culture-sensitive in the runtime. The model takes the comparer as any total preorder `le`.
- ObservableCollectionExtensions.OrderByDescendingAndConvert: the same abstraction of the comparer applies.
- StringExtensions.MakeValidFilename: `Path.GetInvalidFileNameChars()` depends on the platform, so the invalid characters are a parameter.
- StringExtensions.MakeValidFilenameForTxtFile: `EndsWith` compares by culture in the runtime. The model uses an ordinal suffix test.
- StringExtensions.IsWhiteSpace: the Unicode white-space set is written out by code point.
- StringExtensions.Right: model strings are sequences of Unicode scalar values, while a .NET string is a sequence of UTF-16 code units. A character outside the Basic Multilingual Plane counts 1 here and 2 in .NET, so lengths, the `Abs(length)` bound and the cut point differ on such text, and a cut between the two halves of a surrogate pair, which .NET makes, cannot be represented.
- StringExtensions.Left: the same difference between scalar values and UTF-16 code units applies.
- DictionaryExtensions.AddOrUpdate / AddOrIncrement: a null key makes `TryGetValue` throw ArgumentNullException. Model keys are never null, so that exception is not modelled.
- ObservableCollection's change notifications are not modelled. Nothing in the core subscribes to them.
- `decimal` is modelled as `real`. Only the value 0 is ever stored.
- `DateTime.Kind` is not modelled, and neither are time zones or daylight saving. The calendar is the proleptic Gregorian calendar of `DateTime`.
- DateTimeExtensions.ForEachHourInDay: the calls are returned after the loop rather than made during it. An action that changes shared state is not modelled.
- DateTimeExtensions.ForEachSecondInTimespan: the calls are returned the same way.
- DateTimeExtensions.EachDay: the lazy `yield` becomes a completed sequence.
- The overflow exceptions of `DateTime` arithmetic are preconditions rather than modelled error paths. So are `Math.Abs(int.MinValue)` and `Substring` out of range.
