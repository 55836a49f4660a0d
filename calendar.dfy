/**
 * Local dates in the proleptic Gregorian calendar of Joda's ISO chronology,
 * and the Joda field operations that `TimeUtil`'s boundary functions use.
 * Every date stands for local midnight; time zones are not modelled.
 */
module Calendar {

  datatype Date = Date(year: int, month: int, day: int)

  predicate IsLeapYear(y: int) {
    y % 4 == 0 && (y % 100 != 0 || y % 400 == 0)
  }

  function DaysInYear(y: int): int {
    if IsLeapYear(y) then 366 else 365
  }

  function DaysInMonth(y: int, m: int): (n: int)
    requires 1 <= m <= 12
    ensures 28 <= n <= 31
  {
    if m == 2 then (if IsLeapYear(y) then 29 else 28)
    else if m == 4 || m == 6 || m == 9 || m == 11 then 30
    else 31
  }

  predicate ValidDate(d: Date) {
    1 <= d.month <= 12 && 1 <= d.day <= DaysInMonth(d.year, d.month)
  }

  /** Days in the months of year `y` before month `m`. */
  function DaysBeforeMonth(y: int, m: int): int
    requires 1 <= m <= 12
  {
    var common :=
      if m == 1 then 0 else if m == 2 then 31 else if m == 3 then 59
      else if m == 4 then 90 else if m == 5 then 120 else if m == 6 then 151
      else if m == 7 then 181 else if m == 8 then 212 else if m == 9 then 243
      else if m == 10 then 273 else if m == 11 then 304 else 334;
    if m > 2 && IsLeapYear(y) then common + 1 else common
  }

  /** Leap years from year 1 up to, not including, year `y` (counted negatively below year 1). */
  function LeapYearsBefore(y: int): int {
    (y - 1) / 4 - (y - 1) / 100 + (y - 1) / 400
  }

  /** Days from 1970-01-01 to January 1st of year `y`. */
  function DaysBeforeYear(y: int): int {
    365 * (y - 1970) + LeapYearsBefore(y) - LeapYearsBefore(1970)
  }

  /** Days from 1970-01-01 (day 0) to `d`. */
  function DayNumber(d: Date): int
    requires 1 <= d.month <= 12
  {
    DaysBeforeYear(d.year) + DaysBeforeMonth(d.year, d.month) + d.day - 1
  }

  /** ISO day of the week, as Joda's `getDayOfWeek`: Monday is 1, Sunday is 7. 1970-01-01 was a Thursday. */
  function Weekday(d: Date): (w: int)
    requires 1 <= d.month <= 12
    ensures 1 <= w <= 7
  {
    WeekdayOf(DayNumber(d))
  }

  /** The ISO weekday of day number `k`. */
  function WeekdayOf(k: int): int {
    (k + 3) % 7 + 1
  }

  lemma DivStep(y: int, k: int)
    requires k == 4 || k == 100 || k == 400
    ensures y / k - (y - 1) / k == if y % k == 0 then 1 else 0
  {
  }

  lemma MultipleOf400(y: int)
    requires y % 400 == 0
    ensures y % 100 == 0
  {
    var q := y / 400;
    assert y == 100 * (4 * q);
  }

  lemma MultipleOf100(y: int)
    requires y % 100 == 0
    ensures y % 4 == 0
  {
    var q := y / 100;
    assert y == 4 * (25 * q);
  }

  /** Consecutive years start `DaysInYear` apart. */
  lemma YearStep(y: int)
    ensures DaysBeforeYear(y + 1) == DaysBeforeYear(y) + DaysInYear(y)
  {
    DivStep(y, 4);
    DivStep(y, 100);
    DivStep(y, 400);
    if y % 400 == 0 {
      MultipleOf400(y);
    }
    if y % 100 == 0 {
      MultipleOf100(y);
    }
    assert LeapYearsBefore(y + 1) - LeapYearsBefore(y) == if IsLeapYear(y) then 1 else 0;
  }

  /** Consecutive months start `DaysInMonth` apart, and the twelve fill the year. */
  lemma MonthStep(y: int, m: int)
    requires 1 <= m <= 12
    ensures m < 12 ==> DaysBeforeMonth(y, m + 1) == DaysBeforeMonth(y, m) + DaysInMonth(y, m)
    ensures m == 12 ==> DaysBeforeMonth(y, m) + DaysInMonth(y, m) == DaysInYear(y)
  {
  }

  /** The day after `d`. */
  function NextDay(d: Date): (r: Date)
    requires ValidDate(d)
    ensures ValidDate(r) && DayNumber(r) == DayNumber(d) + 1
  {
    MonthStep(d.year, d.month);
    YearStep(d.year);
    if d.day < DaysInMonth(d.year, d.month) then Date(d.year, d.month, d.day + 1)
    else if d.month < 12 then Date(d.year, d.month + 1, 1)
    else Date(d.year + 1, 1, 1)
  }

  /** The day before `d`. */
  function PrevDay(d: Date): (r: Date)
    requires ValidDate(d)
    ensures ValidDate(r) && DayNumber(r) == DayNumber(d) - 1
  {
    YearStep(d.year - 1);
    if d.day > 1 then Date(d.year, d.month, d.day - 1)
    else if d.month > 1 then
      MonthStep(d.year, d.month - 1);
      Date(d.year, d.month - 1, DaysInMonth(d.year, d.month - 1))
    else
      MonthStep(d.year - 1, 12);
      Date(d.year - 1, 12, 31)
  }

  /** Joda's `withFieldAdded(days(), n)`: `n` days later, or earlier when `n` is negative. */
  function AddDays(d: Date, n: int): (r: Date)
    requires ValidDate(d)
    ensures ValidDate(r) && DayNumber(r) == DayNumber(d) + n
    decreases if n < 0 then -n else n
  {
    if n == 0 then d
    else if n > 0 then AddDays(NextDay(d), n - 1)
    else AddDays(PrevDay(d), n + 1)
  }

  lemma {:induction false} DaysBeforeYearGrows(y1: int, y2: int)
    requires y1 < y2
    ensures DaysBeforeYear(y1) + DaysInYear(y1) <= DaysBeforeYear(y2)
    decreases y2 - y1
  {
    YearStep(y1);
    if y1 + 1 < y2 {
      DaysBeforeYearGrows(y1 + 1, y2);
    }
  }

  lemma {:induction false} DaysBeforeMonthGrows(y: int, m1: int, m2: int)
    requires 1 <= m1 < m2 <= 12
    ensures DaysBeforeMonth(y, m1) + DaysInMonth(y, m1) <= DaysBeforeMonth(y, m2)
    decreases m2 - m1
  {
    MonthStep(y, m1);
    if m1 + 1 < m2 {
      DaysBeforeMonthGrows(y, m1 + 1, m2);
    }
  }

  /** A valid date lies within its year's span of day numbers. */
  lemma DayNumberInYear(d: Date)
    requires ValidDate(d)
    ensures DaysBeforeYear(d.year) <= DayNumber(d) < DaysBeforeYear(d.year) + DaysInYear(d.year)
  {
    if d.month < 12 {
      DaysBeforeMonthGrows(d.year, d.month, 12);
    }
    MonthStep(d.year, 12);
  }

  /** Different valid dates have different day numbers. */
  lemma DayNumberInjective(a: Date, b: Date)
    requires ValidDate(a) && ValidDate(b) && DayNumber(a) == DayNumber(b)
    ensures a == b
  {
    DayNumberInYear(a);
    DayNumberInYear(b);
    if a.year < b.year {
      DaysBeforeYearGrows(a.year, b.year);
    } else if b.year < a.year {
      DaysBeforeYearGrows(b.year, a.year);
    }
    assert a.year == b.year;
    if a.month < b.month {
      DaysBeforeMonthGrows(a.year, a.month, b.month);
    } else if b.month < a.month {
      DaysBeforeMonthGrows(a.year, b.month, a.month);
    }
  }

  lemma WeekShift(k: int, n: int)
    ensures WeekdayOf(k + n) == (WeekdayOf(k) - 1 + n) % 7 + 1
  {
    var q := (k + 3) / 7;
    assert k + 3 == 7 * q + (k + 3) % 7;
    assert k + 3 + n == 7 * q + ((k + 3) % 7 + n);
  }

  lemma WeekdayTarget(k: int, w: int)
    requires 1 <= w <= 7
    ensures WeekdayOf(k + (w - WeekdayOf(k))) == w
  {
    WeekShift(k, w - WeekdayOf(k));
  }

  /** `n` days on, the weekday has moved `n` places round the week. */
  lemma WeekdayAfter(d: Date, n: int)
    requires ValidDate(d)
    ensures Weekday(AddDays(d, n)) == (Weekday(d) - 1 + n) % 7 + 1
  {
    WeekShift(DayNumber(d), n);
  }

  /** Moving by the difference of weekdays reaches the wanted weekday. */
  lemma WeekdayReached(d: Date, w: int)
    requires ValidDate(d) && 1 <= w <= 7
    ensures Weekday(AddDays(d, w - Weekday(d))) == w
  {
    WeekdayTarget(DayNumber(d), w);
  }

  /** Joda's `withMonthOfYear(m)`: the day is clamped to the length of the new month. */
  function WithMonthOfYear(d: Date, m: int): (r: Date)
    requires ValidDate(d) && 1 <= m <= 12
    ensures ValidDate(r)
  {
    Date(d.year, m, if d.day <= DaysInMonth(d.year, m) then d.day else DaysInMonth(d.year, m))
  }

  /** Joda's `withDayOfMonth(k)`, for a day that exists in the month. */
  function WithDayOfMonth(d: Date, k: int): (r: Date)
    requires ValidDate(d) && 1 <= k <= DaysInMonth(d.year, d.month)
    ensures ValidDate(r)
  {
    Date(d.year, d.month, k)
  }

  /** Joda's `withDayOfWeek(w)`: the day with ISO weekday `w` in the same Monday-to-Sunday week. */
  function WithDayOfWeek(d: Date, w: int): (r: Date)
    requires ValidDate(d) && 1 <= w <= 7
    ensures ValidDate(r) && Weekday(r) == w
    ensures DayNumber(r) - DayNumber(d) == w - Weekday(d)
  {
    WeekdayReached(d, w);
    AddDays(d, w - Weekday(d))
  }

  /** Joda's `withDayOfYear(k)`: the `k`-th day of the same year. */
  function WithDayOfYear(d: Date, k: int): (r: Date)
    requires ValidDate(d) && 1 <= k <= DaysInYear(d.year)
    ensures ValidDate(r) && DayNumber(r) == DaysBeforeYear(d.year) + k - 1
  {
    AddDays(Date(d.year, 1, 1), k - 1)
  }

  /** Joda's `withFieldAdded(months(), n)`: month arithmetic, with the day clamped to the new month. */
  function AddMonths(d: Date, n: int): (r: Date)
    requires ValidDate(d)
    ensures ValidDate(r)
    ensures 12 * r.year + r.month == 12 * d.year + d.month + n
    ensures r.day == if d.day <= DaysInMonth(r.year, r.month) then d.day else DaysInMonth(r.year, r.month)
  {
    var total := 12 * d.year + (d.month - 1) + n;
    var y, m := total / 12, total % 12 + 1;
    Date(y, m, if d.day <= DaysInMonth(y, m) then d.day else DaysInMonth(y, m))
  }

  /** Joda's `withFieldAdded(years(), n)`: same month and day, February 29th becoming the 28th. */
  function AddYears(d: Date, n: int): (r: Date)
    requires ValidDate(d)
    ensures ValidDate(r)
  {
    Date(d.year + n, d.month, if d.day <= DaysInMonth(d.year + n, d.month) then d.day else DaysInMonth(d.year + n, d.month))
  }
}
