# TimeUtil, modelled in Dafny

This project models the logic of `org.cobbzilla.util.time.TimeUtil`. That class is a stateless helper library with four parts:

- **`formatDuration`** prints a signed millisecond count as `[-][<days>d ]HH:MM:SS.mmmm`. `formatDurationFrom` applies it to `now - start`.
- **`parseDuration`** reads strings such as `"10s"`, `"30m"`, `"1h"` and `"2d"` as milliseconds.
- **`parse(String)`** and **`parse(String, DateTimeZone)`** try the date-time patterns of `DATE_TIME_FORMATS` in order. They return the first result that does not throw, and `null` when every attempt throws.
- **The calendar boundaries** are `startOfWeek`, `startOfMonth`, `startOfQuarter`, `startOfYear`, `yesterday`, `lastWeek`, `lastMonth`, `lastQuarter` and `lastYear`, together with `addYear` and `add365days`.

The modules, in dependency order:

| file | module | contents |
|---|---|---|
| `wrappers.dfy` | `Wrappers` | `Option`, `Result` |
| `java_long.dfy` | `JavaLong` | the 64-bit `long` range and two's-complement wrap-around |
| `time_units.dfy` | `TimeUnits` | `SECOND`, `MINUTE`, `HOUR`, `DAY` and the saturating `TimeUnit.toMillis` |
| `numerals.dfy` | `Numerals` | decimal text, Java's `%0Nd` zero padding, and `Long.parseLong` |
| `duration_format.dfy` | `DurationFormat` | `formatDuration` as an imperative method, proved against the specification function `DurationText` |
| `duration_parse.dfy` | `DurationParse` | `parseDuration` |
| `date_parse.dfy` | `DateParse` | the single-pattern parse and the fallback loop |
| `calendar.dfy` | `Calendar` | proleptic Gregorian dates, day numbers, ISO weekdays, and the Joda field operations the boundaries use |
| `boundaries.dfy` | `Boundaries` | the boundary functions, over the local date of "today" |

How the source maps onto Dafny:

- `formatDuration` works by updating local variables one step at a time. It is modelled as a method, and its `ensures` ties the result to `DurationText`.
- The fallback `parse` is a loop with early returns. It is also a method, proved against the recursive function `FirstSuccess`.
- The remaining code is expressions and calls to Joda, so it is modelled as functions and lemmas.

## Model

| member | source | states |
|---|---|---|
| JavaLong.Wrap | src/main/java/org/cobbzilla/util/time/TimeUtil.java:86 | `long` multiplication wraps: the result is in range, congruent to the exact value modulo 2^64, and equal to it when the exact value fits |
| JavaLong.NegateMinLong | src/main/java/org/cobbzilla/util/time/TimeUtil.java:86 | `Long.MIN_VALUE * -1L` is `Long.MIN_VALUE` again |
| TimeUnits.ToMillis | src/main/java/org/cobbzilla/util/time/TimeUtil.java:116-119 | `TimeUnit.toMillis` gives the exact product when it fits in a `long`, and otherwise saturates at `Long.MAX_VALUE` or `Long.MIN_VALUE` according to the sign |
| Numerals.DecimalReadBack | src/main/java/org/cobbzilla/util/time/TimeUtil.java:108-109 | the decimal text of `n` is non-empty, all digits, has no leading zero and reads back as `n` |
| Numerals.ZeroPaddedReadBack | src/main/java/org/cobbzilla/util/time/TimeUtil.java:108-109 | `%0Nd` of a non-negative number is all digits and reads back as the number; it is exactly N characters when the number has at most N digits |
| Numerals.ParseLong | src/main/java/org/cobbzilla/util/time/TimeUtil.java:114 | `Long.parseLong` succeeds if and only if the text is an optional '-' or '+' followed by one or more ASCII digits whose signed value fits in a `long`, and it then returns that signed value; empty input, a lone sign, any non-digit after the sign and an out-of-range numeral all fail |
| Numerals.ParseLongText | src/main/java/org/cobbzilla/util/time/TimeUtil.java:114 | `Long.parseLong(Long.toString(v)) == v` for every `long` |
| DurationFormat.FormatDuration | src/main/java/org/cobbzilla/util/time/TimeUtil.java:84-110 | the imperative conversion, with the in-place negation and the four threshold steps, returns exactly `DurationText(duration)` |
| DurationFormat.FormatDurationFrom | src/main/java/org/cobbzilla/util/time/TimeUtil.java:79-82 | the text for the wrapped difference `now - start`, where the clock reading `now` is a parameter |
| DurationFormat.DurationText | src/main/java/org/cobbzilla/util/time/TimeUtil.java:84-110 | the text `formatDuration` returns: the sign, then the fields taken with strict thresholds from the magnitude, in the two layouts |
| DurationFormat.SplitOfIsStrict | src/main/java/org/cobbzilla/util/time/TimeUtil.java:91-106 | each step takes units only when strictly more than one unit is left, and then leaves less than one unit |
| DurationFormat.SplitUnique | src/main/java/org/cobbzilla/util/time/TimeUtil.java:91-106 | the strict-threshold relation determines the fields uniquely, so the extracted fields are the only ones that satisfy it |
| DurationFormat.SplitFields | src/main/java/org/cobbzilla/util/time/TimeUtil.java:89-106 | for every `long` except `Long.MIN_VALUE`, days·DAY + hours·HOUR + mins·MINUTE + secs·SECOND + millis equals the absolute value, with hours ≤ 24, mins ≤ 60, secs ≤ 60 and millis ≤ 1000 |
| DurationFormat.ExactUnitsFallThrough | src/main/java/org/cobbzilla/util/time/TimeUtil.java:91-102 | hours is 24 exactly when the magnitude is one day, and mins is 60 exactly when one hour is left after the days |
| DurationFormat.SignPrefix | src/main/java/org/cobbzilla/util/time/TimeUtil.java:85-87 | the text starts with '-' if and only if the duration is negative |
| DurationFormat.ClockReadBack | src/main/java/org/cobbzilla/util/time/TimeUtil.java:108-109 | the clock part is 13 characters with ':' at positions 2 and 5 and '.' at 8, and each field reads back from its digits |
| DurationFormat.DurationLayout | src/main/java/org/cobbzilla/util/time/TimeUtil.java:108-109 | the text is the prefix, then `<days>d ` only when days > 0, then the 13-character clock |
| DurationFormat.MinLongText | src/main/java/org/cobbzilla/util/time/TimeUtil.java:85-106 | for `Long.MIN_VALUE` no unit is taken and the milliseconds field is printed negative, after the '-' prefix |
| DurationFormat.ExactHourExample | src/main/java/org/cobbzilla/util/time/TimeUtil.java:95-109 | 3600000 prints as "00:60:00.0000" |
| DurationFormat.PastHourExample | src/main/java/org/cobbzilla/util/time/TimeUtil.java:95-109 | 3600001 prints as "01:00:00.0001" |
| DurationFormat.ExactDayExample | src/main/java/org/cobbzilla/util/time/TimeUtil.java:91-109 | one day prints as "24:00:00.0000" |
| DurationFormat.DaysLayoutExample | src/main/java/org/cobbzilla/util/time/TimeUtil.java:108 | 90061001 prints as "1d 01:01:01.0001" |
| DurationFormat.NegativeExample | src/main/java/org/cobbzilla/util/time/TimeUtil.java:85-109 | -1500 prints as "-00:00:01.0500" |
| DurationFormat.ExactSecondExample | src/main/java/org/cobbzilla/util/time/TimeUtil.java:103-106 | 1000 prints as "00:00:00.1000" |
| DurationFormat.IntendedSplitFields | src/main/java/org/cobbzilla/util/time/TimeUtil.java:91-106 | with `>=` thresholds the fields still sum to the magnitude and each stays strictly below the next unit |
| DurationFormat.IntendedExactHourExample | src/main/java/org/cobbzilla/util/time/TimeUtil.java:95-109 | with `>=` thresholds one hour prints as "01:00:00.0000" |
| DurationParse.UnitMillis | src/main/java/org/cobbzilla/util/time/TimeUtil.java:116-119 | each unit letter scales by a positive multiplier of at most one day |
| DurationParse.ParseDuration | src/main/java/org/cobbzilla/util/time/TimeUtil.java:112-122 | empty input gives 0; the parse fails exactly when `Long.parseLong` rejects the chopped text; every result is a `long`; a final s, m, h or d scales the parsed number by the saturating `toMillis` of that unit, and any other final character leaves it unscaled |
| DurationParse.UnitSuffixScales | src/main/java/org/cobbzilla/util/time/TimeUtil.java:114-119 | `<long><s/m/h/d>` parses to the saturated product with 1000, 60000, 3600000 or 86400000, and to the exact product when that fits |
| DurationParse.OtherSuffixIgnored | src/main/java/org/cobbzilla/util/time/TimeUtil.java:114-120 | `<long><c>` with any other final character, digits included, parses to the `long` itself |
| DurationParse.PlainNumberLosesLastDigit | src/main/java/org/cobbzilla/util/time/TimeUtil.java:114-120 | a plain number n with 10 ≤ n and n / 10 ≤ `Long.MAX_VALUE` parses to n / 10 |
| DurationParse.SingleCharacter | src/main/java/org/cobbzilla/util/time/TimeUtil.java:114 | a one-character string is parsed whole: a digit gives its value and anything else fails |
| DurationParse.ParseExamples | src/main/java/org/cobbzilla/util/time/TimeUtil.java:112-122 | "" → 0, "10s" → 10000, "2d" → 172800000, "10x" → 10, "500" → 50, "5" → 5, while "s" and "abm" fail |
| DurationParse.SignedUnitExample | src/main/java/org/cobbzilla/util/time/TimeUtil.java:114-116 | "+7s" parses to 7000: the sign `Long.parseLong` accepts survives the chop |
| DurationParse.IntendedPlainMillis | src/main/java/org/cobbzilla/util/time/TimeUtil.java:112-122 | the corrected parser reads a bare `long` as that many milliseconds |
| DurationParse.IntendedAgreesOnUnits | src/main/java/org/cobbzilla/util/time/TimeUtil.java:115-119 | the corrected parser agrees with the code on every input that ends in a unit letter |
| DurationParse.IntendedRejectsUnknownSuffix | src/main/java/org/cobbzilla/util/time/TimeUtil.java:120 | a number followed by an unknown letter fails in the corrected parser, while the code accepts it |
| DateParse.ParseWith | src/main/java/org/cobbzilla/util/time/TimeUtil.java:45-51 | empty input is null and never reaches the formatter; otherwise the result is the formatter's instant, or it throws |
| DateParse.Parse | src/main/java/org/cobbzilla/util/time/TimeUtil.java:53-62 | the loop returns the value of the first pattern in `DATE_TIME_FORMATS` that does not throw; it returns null for empty input and exactly when every pattern throws |
| DateParse.ParseInZone | src/main/java/org/cobbzilla/util/time/TimeUtil.java:64-73 | the same fallback with every pattern bound to the zone |
| DateParse.FirstSuccess | src/main/java/org/cobbzilla/util/time/TimeUtil.java:53-62 | trying the patterns in order, the first attempt that does not throw decides the result |
| DateParse.FirstSuccessSpec | src/main/java/org/cobbzilla/util/time/TimeUtil.java:53-62 | the ordered fallback yields a value iff the input is non-empty and some pattern succeeds, and that value is the one from the first success |
| DateParse.RepeatedPatternIsRedundant | src/main/java/org/cobbzilla/util/time/TimeUtil.java:34-38 | deleting a later repeat of a pattern from any list never changes the result |
| DateParse.DuplicateEntryHarmless | src/main/java/org/cobbzilla/util/time/TimeUtil.java:34-38 | the second `YYYY_MM_DD` in `DATE_TIME_FORMATS` never changes the result |
| Calendar.AddDays | src/main/java/org/cobbzilla/util/time/TimeUtil.java:143 | `withFieldAdded(days(), n)` gives a valid date exactly n days later by day number |
| Calendar.DayNumberInjective | src/main/java/org/cobbzilla/util/time/TimeUtil.java:143 | valid dates with the same day number are the same date |
| Calendar.WeekdayAfter | src/main/java/org/cobbzilla/util/time/TimeUtil.java:143 | n days on, the ISO weekday has moved n places round the week |
| Calendar.WithDayOfWeek | src/main/java/org/cobbzilla/util/time/TimeUtil.java:176 | `withDayOfWeek(w)` lands on ISO weekday w, moved by w minus the old weekday, so within the same Monday-to-Sunday week |
| Calendar.WithDayOfYear | src/main/java/org/cobbzilla/util/time/TimeUtil.java:194 | `withDayOfYear(k)` is the k-th day of the same year |
| Calendar.WithMonthOfYear | src/main/java/org/cobbzilla/util/time/TimeUtil.java:155-158 | `withMonthOfYear(m)` yields a valid date |
| Calendar.WithDayOfMonth | src/main/java/org/cobbzilla/util/time/TimeUtil.java:167 | `withDayOfMonth(k)` yields a valid date |
| Calendar.AddMonths | src/main/java/org/cobbzilla/util/time/TimeUtil.java:182 | `withFieldAdded(months(), n)` moves n months on the running month count and clamps the day to the new month's length |
| Calendar.AddYears | src/main/java/org/cobbzilla/util/time/TimeUtil.java:125 | `withFieldAdded(years(), n)` yields a valid date |
| Boundaries.QuarterStartMonth | src/main/java/org/cobbzilla/util/time/TimeUtil.java:153-159 | the quarter's first month is 1, 4, 7 or 10, and the month lies in the three months from it |
| Boundaries.StartOfWeek | src/main/java/org/cobbzilla/util/time/TimeUtil.java:141-144 | `startOfWeek` is a Sunday (ISO 7) one to seven days before today |
| Boundaries.StartOfMonth | src/main/java/org/cobbzilla/util/time/TimeUtil.java:148-151 | `startOfMonth` yields a valid date |
| Boundaries.StartOfQuarter | src/main/java/org/cobbzilla/util/time/TimeUtil.java:153-159 | `startOfQuarter` yields a valid date |
| Boundaries.StartOfYear | src/main/java/org/cobbzilla/util/time/TimeUtil.java:167 | `startOfYear` is January 1st of this year |
| Boundaries.Yesterday | src/main/java/org/cobbzilla/util/time/TimeUtil.java:171 | `yesterday` is the valid date one day number before today |
| Boundaries.LastWeek | src/main/java/org/cobbzilla/util/time/TimeUtil.java:175-177 | `lastWeek` is a Monday (ISO 1) |
| Boundaries.LastMonth | src/main/java/org/cobbzilla/util/time/TimeUtil.java:181-183 | `lastMonth` is day 1 of the previous month, the year rolling back from January |
| Boundaries.LastQuarter | src/main/java/org/cobbzilla/util/time/TimeUtil.java:187-189 | `lastQuarter` yields a valid date |
| Boundaries.LastYear | src/main/java/org/cobbzilla/util/time/TimeUtil.java:193-195 | `lastYear` yields a valid date |
| Boundaries.AddYear | src/main/java/org/cobbzilla/util/time/TimeUtil.java:124-126 | `addYear` yields a valid date |
| Boundaries.Add365Days | src/main/java/org/cobbzilla/util/time/TimeUtil.java:128-130 | `add365days` is the valid date exactly 365 day numbers on |
| Boundaries.StartOfWeekIsLatestSunday | src/main/java/org/cobbzilla/util/time/TimeUtil.java:141-144 | no Sunday strictly before today is later than `startOfWeek` |
| Boundaries.StartOfWeekMissesByOneDay | src/main/java/org/cobbzilla/util/time/TimeUtil.java:141-144 | `startOfWeek` is always the day before the Monday that opens today's week |
| Boundaries.StartOfWeekMondayExample | src/main/java/org/cobbzilla/util/time/TimeUtil.java:141-144 | on Monday 2024-05-13 `startOfWeek` gives Sunday 2024-05-12 |
| Boundaries.StartOfWeekIntendedIsLatestMonday | src/main/java/org/cobbzilla/util/time/TimeUtil.java:141-144 | the corrected start of the week is the latest Monday on or before today, zero to six days back |
| Boundaries.LastWeekIsPreviousMonday | src/main/java/org/cobbzilla/util/time/TimeUtil.java:175-177 | `lastWeek` is a Monday 7 to 13 days back, exactly one week before the Monday that opens today's week |
| Boundaries.StartOfMonthIsPreviousMonthEnd | src/main/java/org/cobbzilla/util/time/TimeUtil.java:148-151 | `startOfMonth` is the last day of the previous month |
| Boundaries.StartOfMonthExample | src/main/java/org/cobbzilla/util/time/TimeUtil.java:148-151 | on 2024-05-17 `startOfMonth` gives 2024-04-30 |
| Boundaries.StartOfMonthIntendedIsFirst | src/main/java/org/cobbzilla/util/time/TimeUtil.java:148-151 | moving back by the day of the month less one gives the first of the current month |
| Boundaries.StartOfQuarterFields | src/main/java/org/cobbzilla/util/time/TimeUtil.java:153-159 | `startOfQuarter` keeps the year, moves to the quarter's first month and keeps the day, clamped to that month's length |
| Boundaries.StartOfQuarterIdempotent | src/main/java/org/cobbzilla/util/time/TimeUtil.java:153-159 | applying `startOfQuarter` twice gives the same date as applying it once |
| Boundaries.StartOfQuarterClampExample | src/main/java/org/cobbzilla/util/time/TimeUtil.java:153-159 | 2024-05-31 maps to 2024-04-30 |
| Boundaries.StartOfQuarterKeepsDayExample | src/main/java/org/cobbzilla/util/time/TimeUtil.java:163 | on 2024-05-17 `startOfQuarter(zone)` gives 2024-04-17, not the first day of the quarter |
| Boundaries.StartOfQuarterIntendedIsFirstDay | src/main/java/org/cobbzilla/util/time/TimeUtil.java:153-163 | the corrected start of the quarter is day 1 of the quarter's first month, in the same year, on or before today and fewer than 92 days back |
| Boundaries.LastQuarterIsPreviousQuarter | src/main/java/org/cobbzilla/util/time/TimeUtil.java:187-189 | `lastQuarter` opens the previous quarter, rolling the year back from the first quarter; its day is today's clamped twice, first to the length of the month three back and then to the length of the result month, so it is never later than today's and is today's when that is at most 28 |
| Boundaries.LastQuarterClampExamples | src/main/java/org/cobbzilla/util/time/TimeUtil.java:187-189 | 2024-05-31 gives 2024-01-29 (clamped to February 29, then kept in January) and 2023-05-31 gives 2023-01-28 |
| Boundaries.StartOfYearIsJanuaryFirst | src/main/java/org/cobbzilla/util/time/TimeUtil.java:167 | `startOfYear` is January 1st of this year, on or before today |
| Boundaries.LastYearIsJanuaryFirst | src/main/java/org/cobbzilla/util/time/TimeUtil.java:193-195 | `lastYear` is January 1st of last year |
| Boundaries.LastYearOneYearApart | src/main/java/org/cobbzilla/util/time/TimeUtil.java:193-195 | asked in consecutive years, `lastYear` answers exactly the length of a year apart |
| Boundaries.YesterdayIsDayBefore | src/main/java/org/cobbzilla/util/time/TimeUtil.java:171 | `yesterday` is one day before today, and the day after it is today |
| Boundaries.AddYearFields | src/main/java/org/cobbzilla/util/time/TimeUtil.java:124-126 | `addYear` keeps month and day, turning February 29th into the 28th in a common year, and moves 365 or 366 days |
| Boundaries.Add365DaysAgainstAddYear | src/main/java/org/cobbzilla/util/time/TimeUtil.java:128-130 | `add365days` equals `addYear` or falls one day short of it |

## Left out

- `JsonEditorOptions` (src/main/java/org/cobbzilla/util/json/main/JsonEditorOptions.java) holds declarative command-line option metadata with generated accessors. It has no logic to model.
- Joda's pattern parsing is not modelled. What one pattern makes of one string is the parameter `attempt`, with `None` standing for the exception. This covers month names, locale and digit-width leniency.
- `format(Long, DateTimeFormatter)` and `timestamp()` only print through Joda and `hexnow`. They are not part of this model.
- `PERIOD_FORMATTER`'s behaviour lives entirely in Joda's `PeriodFormatterBuilder`.
- Time zones, daylight saving, `withTimeAtStartOfDay` gap handling, `DefaultTimezone` and the conversion between local dates and epoch milliseconds are not modelled. The boundary functions work on local dates only, and a zone is an opaque string passed to the parse oracle.
- Time of day is not modelled. `startOfQuarter(DateTime)`, `addYear` and `add365days` keep the time of day of their input, but the model carries the date only.
- The wall clock is a parameter rather than a read. This covers `now()` in `formatDurationFrom`, `new DateTime(zone)` in every boundary function, and `ClockProvider`.
- The `*Millis()` wrappers and the overloads that use the default zone only delegate. They are not modelled separately.
- `ZillaRuntime.empty` is not part of this model. `ZillaRuntime.empty(s)` is taken to hold exactly for `null` and `""`, so a `null` string is modelled as the empty string.
- `StringUtil.chopSuffix` is not part of this model. `ChopSuffix` takes it to drop the last character.
- `Long.parseLong` also accepts non-ASCII Unicode digits. `Numerals.ParseLong` accepts ASCII digits only.
- DurationParse.ParseDuration: a Dafny `char` is a whole Unicode character, but `duration.length()`, `chopSuffix` and `charAt(length()-1)` count UTF-16 units. For text ending in a character outside the Basic Multilingual Plane, such as "5😀", Java chops only the low surrogate and `Long.parseLong` throws. The model drops the whole character and returns `Ok(5)`.
- DurationFormat.Render: it prints ASCII digits and an ASCII '-'. `String.format` at TimeUtil.java:108-109 uses the default locale, and Java localises the digits of `%d` while the '-' it prepends stays ASCII, so the model matches only locales whose zero digit is '0'.
- DurationFormat.DurationText: it has no contract of its own. Its meaning is stated by SplitFields, SplitUnique, SignPrefix and DurationLayout, and FormatDuration is proved equal to it.
- DateParse.FirstSuccess: it has no contract of its own. Its meaning is stated by FirstSuccessSpec.
- Calendar.WithMonthOfYear: its contract states only a valid date. Its effect (same year, new month, day clamped) is stated by Boundaries.StartOfQuarterFields.
- Calendar.WithDayOfMonth: its contract states only a valid date. Its effect is stated through Boundaries.StartOfYear and Boundaries.LastMonth.
- Calendar.AddYears: its contract states only a valid date. Its effect is stated by Boundaries.AddYearFields and Boundaries.LastYearIsJanuaryFirst.
- Boundaries.StartOfWeek: its contract does not say that the result is the latest such Sunday. That is Boundaries.StartOfWeekIsLatestSunday.
- Boundaries.StartOfMonth: its contract states only a valid date. Boundaries.StartOfMonthIsPreviousMonthEnd states that it is the last day of the previous month.
- Boundaries.StartOfQuarter: its contract states only a valid date. Boundaries.StartOfQuarterFields and Boundaries.StartOfQuarterIdempotent state its effect.
- Boundaries.LastWeek: its contract states only the weekday. Boundaries.LastWeekIsPreviousMonday states that it is 7 to 13 days back.
- Boundaries.LastQuarter: its contract states only a valid date. Boundaries.LastQuarterIsPreviousQuarter states its month, year and twice-clamped day.
- Boundaries.LastYear: its contract states only a valid date. Boundaries.LastYearIsJanuaryFirst states that it is January 1st of last year.
- Boundaries.AddYear: its contract states only a valid date. Boundaries.AddYearFields states its fields and the 365 or 366 days it moves.

## Findings

| source | as written | input that shows it | evidently intended | confidence | as-written member | corrected member |
|---|---|---|---|---|---|---|
| src/main/java/org/cobbzilla/util/time/TimeUtil.java:114 | every input longer than one character loses its last character, whether or not it is a unit letter | `parseDuration("500")` is 50 | a bare number is read whole as milliseconds, so "500" is 500, and an unknown suffix is rejected | not executed; high | DurationParse.PlainNumberLosesLastDigit | DurationParse.IntendedPlainMillis |
| src/main/java/org/cobbzilla/util/time/TimeUtil.java:148-151 | subtracts the whole day of the month | on 2024-05-17, `startOfMonth` is 2024-04-30 | the first of the current month, 2024-05-01 | not executed; high | Boundaries.StartOfMonthExample | Boundaries.StartOfMonthIntendedIsFirst |
| src/main/java/org/cobbzilla/util/time/TimeUtil.java:141-144 | subtracts the whole ISO weekday (Monday 1 … Sunday 7) | on Monday 2024-05-13, `startOfWeek` is Sunday 2024-05-12 | the Monday that opens the current week, 2024-05-13, the convention `lastWeek` uses | not executed; medium | Boundaries.StartOfWeekMondayExample | Boundaries.StartOfWeekIntendedIsLatestMonday |
| src/main/java/org/cobbzilla/util/time/TimeUtil.java:153-163 | `withMonthOfYear` keeps the day of the month | on 2024-05-17, `startOfQuarter(zone)` is 2024-04-17 | day 1 of the quarter, 2024-04-01 | not executed; medium | Boundaries.StartOfQuarterKeepsDayExample | Boundaries.StartOfQuarterIntendedIsFirstDay |
| src/main/java/org/cobbzilla/util/time/TimeUtil.java:91-106 | a unit is taken only when strictly more than one unit is left | `formatDuration(3600000)` is "00:60:00.0000" | "01:00:00.0000", with every field below the size of the next unit | not executed; medium | DurationFormat.ExactHourExample | DurationFormat.IntendedSplitFields |

Each intended reading rests on the code itself:

- For `parseDuration`, the `default: return val;` branch at TimeUtil.java:120 only makes sense if a number with no suffix is read whole.
- For `startOfMonth` and `startOfQuarter`, the names say so, and `startOfYear` at TimeUtil.java:167 forces `withDayOfMonth(1)`.
- For `startOfWeek`, `lastWeek` at TimeUtil.java:176 uses `withDayOfWeek(1)`, the Monday.
- For `formatDuration`, "00:60:00.0000" is not a well-formed clock.

The `Boundaries`, `DurationFormat` and `DurationParse` members model the code as written, and the corrected definitions sit beside them.
