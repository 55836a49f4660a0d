/**
 * `TimeUtil`'s calendar boundaries, over the local date of "today".
 * Each function takes the date that `new DateTime(zone).withTimeAtStartOfDay()`
 * denotes, so the clock read and the zone are parameters here.
 */
module Boundaries {
  import opened Calendar

  /**
   * `startOfWeek(zone)`: today minus its ISO day of the week, in days,
   * which is a Sunday one to seven days back.
   */
  function StartOfWeek(today: Date): (r: Date)
    requires ValidDate(today)
    ensures ValidDate(r)
    ensures Weekday(r) == 7
    ensures 1 <= DayNumber(today) - DayNumber(r) <= 7
  {
    WeekdayAfter(today, -Weekday(today));
    AddDays(today, -Weekday(today))
  }

  /** `startOfMonth(zone)`: today minus its day of the month, in days. */
  function StartOfMonth(today: Date): (r: Date)
    requires ValidDate(today)
    ensures ValidDate(r)
  {
    AddDays(today, -today.day)
  }

  /** The month that opens the quarter of month `m`. */
  function QuarterStartMonth(m: int): (q: int)
    requires 1 <= m <= 12
    ensures q % 3 == 1 && q <= m < q + 3
  {
    if m <= 3 then 1
    else if m <= 6 then 4
    else if m <= 9 then 7
    else 10
  }

  /** `startOfQuarter(DateTime)`: the month moved back to its quarter's first month. */
  function StartOfQuarter(t: Date): (r: Date)
    requires ValidDate(t)
    ensures ValidDate(r)
  {
    WithMonthOfYear(t, QuarterStartMonth(t.month))
  }

  /** `startOfYear(zone)`: January 1st of this year. */
  function StartOfYear(today: Date): (r: Date)
    requires ValidDate(today)
    ensures ValidDate(r) && r == Date(today.year, 1, 1)
  {
    WithDayOfMonth(WithMonthOfYear(today, 1), 1)
  }

  /** `yesterday(zone)`: one day back. */
  function Yesterday(today: Date): (r: Date)
    requires ValidDate(today)
    ensures ValidDate(r) && DayNumber(r) == DayNumber(today) - 1
  {
    AddDays(today, -1)
  }

  /** `lastWeek(zone)`: a week back, then the Monday of that week. */
  function LastWeek(today: Date): (r: Date)
    requires ValidDate(today)
    ensures ValidDate(r) && Weekday(r) == 1
  {
    WithDayOfWeek(AddDays(today, -7), 1)
  }

  /** `lastMonth(zone)`: a month back, then the first of that month. */
  function LastMonth(today: Date): (r: Date)
    requires ValidDate(today)
    ensures ValidDate(r) && r.day == 1
    ensures 12 * r.year + r.month == 12 * today.year + today.month - 1
  {
    WithDayOfMonth(AddMonths(today, -1), 1)
  }

  /** `lastQuarter(zone)`: three months back, then `startOfQuarter`. */
  function LastQuarter(today: Date): (r: Date)
    requires ValidDate(today)
    ensures ValidDate(r)
  {
    StartOfQuarter(AddMonths(today, -3))
  }

  /** `lastYear(zone)`: a year back, then the first day of that year. */
  function LastYear(today: Date): (r: Date)
    requires ValidDate(today)
    ensures ValidDate(r)
  {
    WithDayOfYear(AddYears(today, -1), 1)
  }

  /** `addYear(time)`, on the date part of `time`. */
  function AddYear(t: Date): (r: Date)
    requires ValidDate(t)
    ensures ValidDate(r)
  {
    AddYears(t, 1)
  }

  /** `add365days(time)`, on the date part of `time`. */
  function Add365Days(t: Date): (r: Date)
    requires ValidDate(t)
    ensures ValidDate(r) && DayNumber(r) == DayNumber(t) + 365
  {
    AddDays(t, 365)
  }

  // ---------------------------------------------------------------------
  // Weeks

  /** Two distinct days with the same weekday are at least a week apart. */
  lemma SameWeekdayApart(a: int, b: int)
    requires WeekdayOf(a) == WeekdayOf(b) && a < b
    ensures a + 7 <= b
  {
    var qa, qb := (a + 3) / 7, (b + 3) / 7;
    assert a + 3 == 7 * qa + (a + 3) % 7;
    assert b + 3 == 7 * qb + (b + 3) % 7;
    assert b - a == 7 * (qb - qa);
  }

  /** No Sunday before today is later than `startOfWeek`: it is the most recent Sunday strictly before today. */
  lemma StartOfWeekIsLatestSunday(today: Date, s: Date)
    requires ValidDate(today) && ValidDate(s)
    requires Weekday(s) == 7 && DayNumber(s) < DayNumber(today)
    ensures DayNumber(s) <= DayNumber(StartOfWeek(today))
  {
    var r := StartOfWeek(today);
    if DayNumber(r) < DayNumber(s) {
      SameWeekdayApart(DayNumber(r), DayNumber(s));
    }
  }

  /** The Monday that opens today's ISO week, which a start of the week evidently means. */
  function StartOfWeekIntended(today: Date): (r: Date)
    requires ValidDate(today)
    ensures ValidDate(r)
  {
    WithDayOfWeek(today, 1)
  }

  /** The intended start of the week is a Monday no more than six days back, and the most recent one. */
  lemma StartOfWeekIntendedIsLatestMonday(today: Date, s: Date)
    requires ValidDate(today) && ValidDate(s)
    requires Weekday(s) == 1 && DayNumber(s) <= DayNumber(today)
    ensures Weekday(StartOfWeekIntended(today)) == 1
    ensures 0 <= DayNumber(today) - DayNumber(StartOfWeekIntended(today)) <= 6
    ensures DayNumber(s) <= DayNumber(StartOfWeekIntended(today))
  {
    var r := StartOfWeekIntended(today);
    if DayNumber(r) < DayNumber(s) {
      SameWeekdayApart(DayNumber(r), DayNumber(s));
    }
  }

  /** As written, `startOfWeek` is always the day before the Monday that opens today's week. */
  lemma StartOfWeekMissesByOneDay(today: Date)
    requires ValidDate(today)
    ensures DayNumber(StartOfWeek(today)) == DayNumber(StartOfWeekIntended(today)) - 1
  {
  }

  /** On Monday 2024-05-13, `startOfWeek` gives Sunday 2024-05-12. */
  lemma StartOfWeekMondayExample()
    ensures StartOfWeek(Date(2024, 5, 13)) == Date(2024, 5, 12)
  {
    var t := Date(2024, 5, 13);
    assert DayNumber(t) == 19856;
    assert Weekday(t) == 1;
    DayNumberInjective(StartOfWeek(t), Date(2024, 5, 12));
  }

  /** `lastWeek` lands on a Monday seven to thirteen days back: the Monday that opens the previous ISO week. */
  lemma LastWeekIsPreviousMonday(today: Date)
    requires ValidDate(today)
    ensures Weekday(LastWeek(today)) == 1
    ensures 7 <= DayNumber(today) - DayNumber(LastWeek(today)) <= 13
    ensures DayNumber(LastWeek(today)) == DayNumber(StartOfWeekIntended(today)) - 7
  {
    var k := DayNumber(today);
    var back := AddDays(today, -7);
    WeekBack(k);
    assert Weekday(back) == Weekday(today);
    var r := WithDayOfWeek(back, 1);
    assert DayNumber(r) == k - 6 - Weekday(today);
    assert DayNumber(StartOfWeekIntended(today)) == k + 1 - Weekday(today);
  }

  /** A week earlier falls on the same weekday. */
  lemma WeekBack(k: int)
    ensures WeekdayOf(k - 7) == WeekdayOf(k)
  {
    var q := (k - 4) / 7;
    assert k - 4 == 7 * q + (k - 4) % 7;
    assert k + 3 == 7 * (q + 1) + (k - 4) % 7;
  }

  // ---------------------------------------------------------------------
  // Months

  /** The last day of the month before `d`'s month. */
  lemma PreviousMonthEnd(d: Date) returns (e: Date)
    requires ValidDate(d)
    ensures ValidDate(e) && e.day == DaysInMonth(e.year, e.month)
    ensures 12 * e.year + e.month == 12 * d.year + d.month - 1
    ensures DayNumber(e) == DayNumber(d) - d.day
  {
    if d.month > 1 {
      e := Date(d.year, d.month - 1, DaysInMonth(d.year, d.month - 1));
      MonthStep(d.year, d.month - 1);
    } else {
      e := Date(d.year - 1, 12, 31);
      MonthStep(d.year - 1, 12);
      YearStep(d.year - 1);
    }
  }

  /** As written, `startOfMonth` is the last day of the previous month. */
  lemma StartOfMonthIsPreviousMonthEnd(today: Date)
    requires ValidDate(today)
    ensures StartOfMonth(today).day == DaysInMonth(StartOfMonth(today).year, StartOfMonth(today).month)
    ensures 12 * StartOfMonth(today).year + StartOfMonth(today).month == 12 * today.year + today.month - 1
  {
    var e := PreviousMonthEnd(today);
    DayNumberInjective(StartOfMonth(today), e);
  }

  /** On 2024-05-17, `startOfMonth` gives 2024-04-30. */
  lemma StartOfMonthExample()
    ensures StartOfMonth(Date(2024, 5, 17)) == Date(2024, 4, 30)
  {
    StartOfMonthIsPreviousMonthEnd(Date(2024, 5, 17));
  }

  /** Today moved back by its day of the month less one: the start of the month. */
  function StartOfMonthIntended(today: Date): (r: Date)
    requires ValidDate(today)
    ensures ValidDate(r)
  {
    AddDays(today, -(today.day - 1))
  }

  /** The intended start of the month is the first of today's month. */
  lemma StartOfMonthIntendedIsFirst(today: Date)
    requires ValidDate(today)
    ensures StartOfMonthIntended(today) == Date(today.year, today.month, 1)
  {
    DayNumberInjective(StartOfMonthIntended(today), Date(today.year, today.month, 1));
  }

  // ---------------------------------------------------------------------
  // Quarters

  /** `startOfQuarter` keeps the year, moves to the quarter's first month and keeps the day, clamped to that month. */
  lemma StartOfQuarterFields(t: Date)
    requires ValidDate(t)
    ensures StartOfQuarter(t).year == t.year
    ensures StartOfQuarter(t).month in {1, 4, 7, 10}
    ensures StartOfQuarter(t).month <= t.month < StartOfQuarter(t).month + 3
    ensures StartOfQuarter(t).day == if t.day <= DaysInMonth(t.year, StartOfQuarter(t).month) then t.day
                                     else DaysInMonth(t.year, StartOfQuarter(t).month)
  {
  }

  /** Applying `startOfQuarter` twice changes nothing more. */
  lemma StartOfQuarterIdempotent(t: Date)
    requires ValidDate(t)
    ensures StartOfQuarter(StartOfQuarter(t)) == StartOfQuarter(t)
  {
  }

  /** On 2024-05-31 the day is clamped: `startOfQuarter` gives 2024-04-30. */
  lemma StartOfQuarterClampExample()
    ensures StartOfQuarter(Date(2024, 5, 31)) == Date(2024, 4, 30)
  {
  }

  /** As written, `startOfQuarter(zone)` keeps the day: on 2024-05-17 it gives 2024-04-17. */
  lemma StartOfQuarterKeepsDayExample()
    ensures StartOfQuarter(Date(2024, 5, 17)) == Date(2024, 4, 17)
    ensures StartOfQuarter(Date(2024, 5, 17)) != StartOfQuarterIntended(Date(2024, 5, 17))
  {
  }

  /** The first day of the quarter. */
  function StartOfQuarterIntended(t: Date): (r: Date)
    requires ValidDate(t)
    ensures ValidDate(r)
  {
    Date(t.year, QuarterStartMonth(t.month), 1)
  }

  /** The intended start of the quarter is day 1 of the quarter's first month, on or before `t` and fewer than 92 days back. */
  lemma StartOfQuarterIntendedIsFirstDay(t: Date)
    requires ValidDate(t)
    ensures StartOfQuarterIntended(t).day == 1
    ensures StartOfQuarterIntended(t).month == StartOfQuarter(t).month
    ensures StartOfQuarterIntended(t).year == t.year
    ensures 0 <= DayNumber(t) - DayNumber(StartOfQuarterIntended(t)) < 92
  {
    var q := QuarterStartMonth(t.month);
    if q < t.month {
      DaysBeforeMonthGrows(t.year, q, t.month);
      MonthStep(t.year, q);
      if q + 1 < t.month {
        MonthStep(t.year, q + 1);
      }
    }
  }

  /** `lastQuarter` opens the previous quarter, rolling the year back from the first quarter; its day is the day of today, clamped twice, not day 1. */
  lemma LastQuarterIsPreviousQuarter(today: Date)
    requires ValidDate(today)
    ensures 12 * LastQuarter(today).year + LastQuarter(today).month
            == 12 * today.year + QuarterStartMonth(today.month) - 3
    ensures LastQuarter(today).month in {1, 4, 7, 10}
    ensures LastQuarter(today).day <= today.day
    ensures today.day <= 28 ==> LastQuarter(today).day == today.day
    ensures var back := if today.month >= 4 then DaysInMonth(today.year, today.month - 3)
                        else DaysInMonth(today.year - 1, today.month + 9);
            var once := if today.day <= back then today.day else back;
            var r := LastQuarter(today);
            r.day == if once <= DaysInMonth(r.year, r.month) then once else DaysInMonth(r.year, r.month)
  {
    var u := AddMonths(today, -3);
    if today.month >= 4 {
      assert u.year == today.year && u.month == today.month - 3;
    } else {
      assert u.year == today.year - 1 && u.month == today.month + 9;
    }
  }

  /** The day is clamped twice: once to the month three back, then to the quarter's first month. */
  lemma LastQuarterClampExamples()
    ensures LastQuarter(Date(2024, 5, 31)) == Date(2024, 1, 29)
    ensures LastQuarter(Date(2023, 5, 31)) == Date(2023, 1, 28)
  {
  }

  // ---------------------------------------------------------------------
  // Years

  /** `startOfYear` is January 1st of this year, on or before today. */
  lemma StartOfYearIsJanuaryFirst(today: Date)
    requires ValidDate(today)
    ensures StartOfYear(today) == Date(today.year, 1, 1)
    ensures DayNumber(StartOfYear(today)) <= DayNumber(today)
  {
    DayNumberInYear(today);
  }

  /** `lastYear` is January 1st of last year. */
  lemma LastYearIsJanuaryFirst(today: Date)
    requires ValidDate(today)
    ensures LastYear(today) == Date(today.year - 1, 1, 1)
  {
    DayNumberInjective(LastYear(today), Date(today.year - 1, 1, 1));
  }

  /** Asked a year apart, `lastYear` answers exactly one (calendar) year apart. */
  lemma LastYearOneYearApart(t1: Date, t2: Date)
    requires ValidDate(t1) && ValidDate(t2) && t2.year == t1.year + 1
    ensures DayNumber(LastYear(t2)) - DayNumber(LastYear(t1)) == DaysInYear(t1.year - 1)
  {
    LastYearIsJanuaryFirst(t1);
    LastYearIsJanuaryFirst(t2);
    YearStep(t1.year - 1);
  }

  /** `yesterday` is the day before today. */
  lemma YesterdayIsDayBefore(today: Date)
    requires ValidDate(today)
    ensures DayNumber(Yesterday(today)) == DayNumber(today) - 1
    ensures NextDay(Yesterday(today)) == today
  {
    DayNumberInjective(NextDay(Yesterday(today)), today);
  }

  /** `addYear` keeps month and day (February 29th becomes the 28th) and moves 365 or 366 days. */
  lemma AddYearFields(t: Date)
    requires ValidDate(t)
    ensures AddYear(t).year == t.year + 1 && AddYear(t).month == t.month
    ensures AddYear(t).day == if t.month == 2 && t.day == 29 && !IsLeapYear(t.year + 1) then 28 else t.day
    ensures 365 <= DayNumber(AddYear(t)) - DayNumber(t) <= 366
  {
    YearStep(t.year);
  }

  /** `add365days` moves 365 days, which is `addYear` or one day short of it. */
  lemma Add365DaysAgainstAddYear(t: Date)
    requires ValidDate(t)
    ensures 0 <= DayNumber(AddYear(t)) - DayNumber(Add365Days(t)) <= 1
  {
    AddYearFields(t);
  }
}
