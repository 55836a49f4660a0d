/**
 * `TimeUtil.formatDuration`: a signed millisecond count rendered as
 * `[-][<days>d ]HH:MM:SS.mmmm`.
 *
 * Each unit is taken only when what is left STRICTLY exceeds one unit, so an
 * exact multiple of a unit is not promoted to it: one hour is "00:60:00.0000".
 */
module DurationFormat {
  import opened JavaLong
  import opened TimeUnits
  import opened Numerals

  /** The fields that `formatDuration` extracts before printing them. */
  datatype Split = Split(days: int, hours: int, mins: int, secs: int, millis: int)

  /**
   * `count` units are taken out of `total` exactly when `total` is strictly
   * more than one unit, and then what remains is less than one unit.
   */
  ghost predicate StrictStep(total: int, unit: int, count: int) {
    if total > unit then 0 <= total - count * unit < unit else count == 0
  }

  /** The relation between a magnitude and the fields `formatDuration` prints for it. */
  ghost predicate IsStrictSplit(m: int, s: Split) {
    var afterDays := m - s.days * DAY;
    var afterHours := afterDays - s.hours * HOUR;
    var afterMins := afterHours - s.mins * MINUTE;
    StrictStep(m, DAY, s.days)
    && StrictStep(afterDays, HOUR, s.hours)
    && StrictStep(afterHours, MINUTE, s.mins)
    && StrictStep(afterMins, SECOND, s.secs)
    && s.millis == afterMins - s.secs * SECOND
  }

  /** How many whole `unit`s one step takes out of `total`. */
  function Take(total: int, unit: int): int
    requires 0 < unit
  {
    if total > unit then total / unit else 0
  }

  /** The fields extracted from magnitude `m`. */
  function SplitOf(m: int): Split {
    var days := Take(m, DAY);
    var afterDays := m - days * DAY;
    var hours := Take(afterDays, HOUR);
    var afterHours := afterDays - hours * HOUR;
    var mins := Take(afterHours, MINUTE);
    var afterMins := afterHours - mins * MINUTE;
    var secs := Take(afterMins, SECOND);
    Split(days, hours, mins, secs, afterMins - secs * SECOND)
  }

  /** The `HH:MM:SS.mmmm` part of the output. */
  function Clock(s: Split): string {
    ZeroPadded(s.hours, 2) + ":" + ZeroPadded(s.mins, 2) + ":" + ZeroPadded(s.secs, 2)
    + "." + ZeroPadded(s.millis, 4)
  }

  /** The two `String.format` layouts, chosen by whether any whole day was taken. */
  function Render(negative: bool, s: Split): string {
    var prefix := if negative then "-" else "";
    if s.days > 0 then prefix + ZeroPadded(s.days, 1) + "d " + Clock(s)
    else prefix + Clock(s)
  }

  /** `duration *= -1L` on a negative `long`: exact except that `Long.MIN_VALUE` stays itself. */
  function Magnitude(d: int): int
    requires IsLong(d)
  {
    if d == MIN_LONG then MIN_LONG else if d < 0 then -d else d
  }

  /** What `formatDuration(d)` returns. */
  function DurationText(d: int): string
    requires IsLong(d)
  {
    Render(d < 0, SplitOf(Magnitude(d)))
  }

  method FormatDuration(duration: int) returns (text: string)
    requires IsLong(duration)
    ensures text == DurationText(duration)
  {
    var d := duration;
    var negative := d < 0;
    if negative {
      d := Wrap(d * -1);
      NegateMinLong();
    }
    assert d == Magnitude(duration);
    var days, hours, mins, secs, millis := 0, 0, 0, 0, 0;
    ghost var total := d;
    if d > DAY {
      days := d / DAY;
      d := d - days * DAY;
    }
    assert days == Take(total, DAY) && d == total - days * DAY;
    total := d;
    if d > HOUR {
      hours := d / HOUR;
      d := d - hours * HOUR;
    }
    assert hours == Take(total, HOUR) && d == total - hours * HOUR;
    total := d;
    if d > MINUTE {
      mins := d / MINUTE;
      d := d - mins * MINUTE;
    }
    assert mins == Take(total, MINUTE) && d == total - mins * MINUTE;
    if d > SECOND {
      secs := d / SECOND;
    }
    assert secs == Take(d, SECOND);
    millis := d - secs * SECOND;
    var split := Split(days, hours, mins, secs, millis);
    assert split == SplitOf(Magnitude(duration));
    text := Render(negative, split);
  }

  /** `formatDurationFrom(start)`: the time since `start`, with `now` passed in and the subtraction done in `long`. */
  method FormatDurationFrom(now: int, start: int) returns (text: string)
    requires IsLong(now) && IsLong(start)
    ensures text == DurationText(Wrap(now - start))
  {
    var duration := Wrap(now - start);
    text := FormatDuration(duration);
  }

  /** The extracted fields meet the strict-threshold relation. */
  lemma SplitOfIsStrict(m: int)
    ensures IsStrictSplit(m, SplitOf(m))
  {
  }

  /** The relation fixes the fields: only one split fits a magnitude. */
  lemma SplitUnique(m: int, a: Split, b: Split)
    requires IsStrictSplit(m, a) && IsStrictSplit(m, b)
    ensures a == b
  {
    StrictStepUnique(m, DAY, a.days, b.days);
    var afterDays := m - a.days * DAY;
    StrictStepUnique(afterDays, HOUR, a.hours, b.hours);
    var afterHours := afterDays - a.hours * HOUR;
    StrictStepUnique(afterHours, MINUTE, a.mins, b.mins);
    StrictStepUnique(afterHours - a.mins * MINUTE, SECOND, a.secs, b.secs);
  }

  lemma StrictStepUnique(total: int, unit: int, c1: int, c2: int)
    requires unit == DAY || unit == HOUR || unit == MINUTE || unit == SECOND
    requires StrictStep(total, unit, c1) && StrictStep(total, unit, c2)
    ensures c1 == c2
  {
    if total > unit {
      if c1 < c2 {
        MulMonotone(c1 + 1, c2, unit);
      } else if c2 < c1 {
        MulMonotone(c2 + 1, c1, unit);
      }
    }
  }

  /**
   * For every `long` except `Long.MIN_VALUE` the fields add back up to the
   * magnitude, and the strict thresholds bound each field by the next
   * coarser unit INCLUSIVELY: hours <= 24, minutes <= 60, seconds <= 60,
   * milliseconds <= 1000.
   */
  lemma SplitFields(d: int)
    requires IsLong(d) && d != MIN_LONG
    ensures var s := SplitOf(Magnitude(d));
      && s.days * DAY + s.hours * HOUR + s.mins * MINUTE + s.secs * SECOND + s.millis
         == (if d < 0 then -d else d)
      && 0 <= s.days && 0 <= s.hours <= 24 && 0 <= s.mins <= 60
      && 0 <= s.secs <= 60 && 0 <= s.millis <= 1000
  {
    var m := Magnitude(d);
    assert m == if d < 0 then -d else d;
    SplitOfIsStrict(m);
    StrictSplitBounds(m, SplitOf(m));
  }

  lemma StrictSplitBounds(m: int, s: Split)
    requires 0 <= m && IsStrictSplit(m, s)
    ensures 0 <= s.days && 0 <= s.hours <= 24 && 0 <= s.mins <= 60
    ensures 0 <= s.secs <= 60 && 0 <= s.millis <= 1000
    ensures s.days * DAY + s.hours * HOUR + s.mins * MINUTE + s.secs * SECOND + s.millis == m
  {
    var afterDays := m - s.days * DAY;
    assert 0 <= afterDays <= DAY;
    var afterHours := afterDays - s.hours * HOUR;
    assert 0 <= afterHours <= HOUR;
    var afterMins := afterHours - s.mins * MINUTE;
    assert 0 <= afterMins <= MINUTE;
  }

  /**
   * Exact multiples fall through: 24 hours are printed exactly for one whole
   * day, and 60 minutes exactly when an hour is left after the days.
   */
  lemma ExactUnitsFallThrough(m: int)
    requires 0 <= m
    ensures SplitOf(m).hours == 24 <==> m == DAY
    ensures SplitOf(m).mins == 60 <==> m - SplitOf(m).days * DAY == HOUR
  {
    var s := SplitOf(m);
    SplitOfIsStrict(m);
    StrictSplitBounds(m, s);
  }

  /** A '-' starts the text exactly when the duration is negative. */
  lemma SignPrefix(d: int)
    requires IsLong(d)
    ensures DurationText(d) != []
    ensures DurationText(d)[0] == '-' <==> d < 0
  {
    if d >= 0 {
      var s := SplitOf(d);
      SplitOfIsStrict(d);
      StrictSplitBounds(d, s);
      ZeroPaddedReadBack(s.hours, 2);
      if s.days > 0 {
        ZeroPaddedReadBack(s.days, 1);
      }
    }
  }

  /**
   * The clock part is 13 characters, `HH:MM:SS.mmmm`, whenever the fields are
   * in their bounds, and each field reads back from its digits.
   */
  lemma ClockReadBack(s: Split)
    requires 0 <= s.hours < 100 && 0 <= s.mins < 100 && 0 <= s.secs < 100
    requires 0 <= s.millis < 10000
    ensures var c := Clock(s);
      && |c| == 13 && c[2] == ':' && c[5] == ':' && c[8] == '.'
      && AllDigits(c[0..2]) && DigitsValue(c[0..2]) == s.hours
      && AllDigits(c[3..5]) && DigitsValue(c[3..5]) == s.mins
      && AllDigits(c[6..8]) && DigitsValue(c[6..8]) == s.secs
      && AllDigits(c[9..13]) && DigitsValue(c[9..13]) == s.millis
  {
    assert Pow10(2) == 100 && Pow10(4) == 10000;
    ZeroPaddedReadBack(s.hours, 2);
    ZeroPaddedReadBack(s.mins, 2);
    ZeroPaddedReadBack(s.secs, 2);
    ZeroPaddedReadBack(s.millis, 4);
    ClockShape(ZeroPadded(s.hours, 2), ZeroPadded(s.mins, 2), ZeroPadded(s.secs, 2), ZeroPadded(s.millis, 4));
  }

  lemma ClockShape(hh: string, mm: string, ss: string, ms: string)
    requires |hh| == 2 && |mm| == 2 && |ss| == 2 && |ms| == 4
    ensures var c := hh + ":" + mm + ":" + ss + "." + ms;
      && |c| == 13 && c[2] == ':' && c[5] == ':' && c[8] == '.'
      && c[0..2] == hh && c[3..5] == mm && c[6..8] == ss && c[9..13] == ms
  {
    var c := hh + ":" + mm + ":" + ss + "." + ms;
    assert c[0..2] == hh;
    assert c[3..5] == mm;
    assert c[6..8] == ss;
    assert c[9..13] == ms;
  }

  /**
   * For every `long` but `Long.MIN_VALUE`: the text is the sign, then
   * `<days>d ` only when at least one whole day was taken, then the
   * 13-character clock, whose fields read back by `ClockReadBack`.
   */
  lemma DurationLayout(d: int)
    requires IsLong(d) && d != MIN_LONG
    ensures var s := SplitOf(Magnitude(d));
      && DurationText(d) == (if d < 0 then "-" else "") + (if s.days > 0 then Decimal(s.days) + "d " else "") + Clock(s)
      && |Clock(s)| == 13
      && 0 <= s.hours < 100 && 0 <= s.mins < 100 && 0 <= s.secs < 100 && 0 <= s.millis < 10000
  {
    var s := SplitOf(Magnitude(d));
    SplitFields(d);
    ClockReadBack(s);
    RenderLayout(d < 0, s);
  }

  lemma RenderLayout(negative: bool, s: Split)
    ensures Render(negative, s)
      == (if negative then "-" else "") + (if s.days > 0 then Decimal(s.days) + "d " else "") + Clock(s)
  {
    if s.days > 0 {
      DecimalReadBack(s.days);
      assert ZeroPadded(s.days, 1) == Decimal(s.days);
    }
  }

  /**
   * `Long.MIN_VALUE` stays negative when negated, so no unit is taken and its
   * milliseconds field is printed with a second '-': "-00:00:00.-9223372036854775808".
   */
  lemma MinLongText()
    ensures SplitOf(Magnitude(MIN_LONG)) == Split(0, 0, 0, 0, MIN_LONG)
    ensures DurationText(MIN_LONG) == "-00:00:00." + ZeroPadded(MIN_LONG, 4)
    ensures ZeroPadded(MIN_LONG, 4)[0] == '-'
  {
    var s := Split(0, 0, 0, 0, MIN_LONG);
    assert SplitOf(MIN_LONG) == s;
    PaddedSmall();
    assert Clock(s) == "00:00:00." + ZeroPadded(MIN_LONG, 4);
  }

  /** Exactly one hour is not promoted to the hours field. */
  lemma ExactHourExample()
    ensures DurationText(3600000) == "00:60:00.0000"
  {
    var s := Split(0, 0, 60, 0, 0);
    assert SplitOf(3600000) == s;
    PaddedConstants();
    assert Clock(s) == "00:60:00.0000";
  }

  /** One millisecond more than an hour is. */
  lemma PastHourExample()
    ensures DurationText(3600001) == "01:00:00.0001"
  {
    var s := Split(0, 1, 0, 0, 1);
    assert SplitOf(3600001) == s;
    PaddedConstants();
    assert Clock(s) == "01:00:00.0001";
  }

  /** One whole day is printed as 24 hours. */
  lemma ExactDayExample()
    ensures DurationText(DAY) == "24:00:00.0000"
  {
    var s := Split(0, 24, 0, 0, 0);
    assert SplitOf(DAY) == s;
    PaddedConstants();
    assert Clock(s) == "24:00:00.0000";
  }

  /** A day and a bit more takes the day, in the `<days>d ` layout. */
  lemma DaysLayoutExample()
    ensures DurationText(90061001) == "1d 01:01:01.0001"
  {
    var s := Split(1, 1, 1, 1, 1);
    SplitOfDayExample();
    PaddedConstants();
    assert Clock(s) == "01:01:01.0001";
    RenderLayout(false, s);
    assert Decimal(1) == "1";
  }

  lemma SplitOfDayExample()
    ensures SplitOf(90061001) == Split(1, 1, 1, 1, 1)
  {
  }

  /** A negative duration gets the '-' prefix. */
  lemma NegativeExample()
    ensures DurationText(-1500) == "-00:00:01.0500"
  {
    var s := Split(0, 0, 0, 1, 500);
    assert Magnitude(-1500) == 1500;
    assert SplitOf(1500) == s;
    PaddedConstants();
    assert Clock(s) == "00:00:01.0500";
    assert Render(true, s) == "-" + Clock(s);
  }

  /** Exactly one second stays in the milliseconds field. */
  lemma ExactSecondExample()
    ensures DurationText(1000) == "00:00:00.1000"
  {
    var s := Split(0, 0, 0, 0, 1000);
    assert SplitOf(1000) == s;
    PaddedConstants();
    assert Clock(s) == "00:00:00.1000";
  }

  lemma PaddedConstants()
    ensures ZeroPadded(0, 2) == "00" && ZeroPadded(1, 2) == "01"
    ensures ZeroPadded(24, 2) == "24" && ZeroPadded(60, 2) == "60"
    ensures ZeroPadded(0, 4) == "0000" && ZeroPadded(1, 4) == "0001"
    ensures ZeroPadded(500, 4) == "0500" && ZeroPadded(1000, 4) == "1000"
    ensures ZeroPadded(1, 1) == "1"
  {
    PaddedSmall();
    PaddedLarge();
  }

  lemma PaddedSmall()
    ensures ZeroPadded(0, 2) == "00" && ZeroPadded(1, 2) == "01"
    ensures ZeroPadded(0, 4) == "0000" && ZeroPadded(1, 4) == "0001"
    ensures ZeroPadded(1, 1) == "1"
  {
  }

  lemma PaddedLarge()
    ensures ZeroPadded(24, 2) == "24" && ZeroPadded(60, 2) == "60"
    ensures ZeroPadded(500, 4) == "0500" && ZeroPadded(1000, 4) == "1000"
  {
    assert Decimal(24) == "24";
    assert Decimal(60) == "60";
    assert Decimal(500) == "500";
    assert Decimal(1000) == "1000";
  }

  // ---------------------------------------------------------------------
  // The thresholds as evidently intended: a unit is taken as soon as one
  // whole unit is left, so no field reaches the size of the next unit.

  /** How many whole `unit`s a step takes when the threshold is `>=`. */
  function TakeIntended(total: int, unit: int): int
    requires 0 < unit
  {
    if total >= unit then total / unit else 0
  }

  /** The fields with `>=` thresholds. */
  function SplitIntended(m: int): Split {
    var days := TakeIntended(m, DAY);
    var afterDays := m - days * DAY;
    var hours := TakeIntended(afterDays, HOUR);
    var afterHours := afterDays - hours * HOUR;
    var mins := TakeIntended(afterHours, MINUTE);
    var afterMins := afterHours - mins * MINUTE;
    var secs := TakeIntended(afterMins, SECOND);
    Split(days, hours, mins, secs, afterMins - secs * SECOND)
  }

  /** `formatDuration` with `>=` thresholds. */
  function DurationTextIntended(d: int): string
    requires IsLong(d)
  {
    Render(d < 0, SplitIntended(Magnitude(d)))
  }

  lemma TakeIntendedStep(total: int, unit: int)
    requires 0 <= total && 0 < unit
    ensures 0 <= TakeIntended(total, unit)
    ensures 0 <= total - TakeIntended(total, unit) * unit < unit
  {
  }

  /**
   * With `>=` thresholds the fields still add back up to the magnitude, and
   * each stays strictly below the next coarser unit.
   */
  lemma IntendedSplitFields(d: int)
    requires IsLong(d) && d != MIN_LONG
    ensures var s := SplitIntended(Magnitude(d));
      && s.days * DAY + s.hours * HOUR + s.mins * MINUTE + s.secs * SECOND + s.millis
         == (if d < 0 then -d else d)
      && 0 <= s.days && 0 <= s.hours < 24 && 0 <= s.mins < 60
      && 0 <= s.secs < 60 && 0 <= s.millis < 1000
  {
    var m := Magnitude(d);
    assert m == if d < 0 then -d else d;
    var s := SplitIntended(m);
    TakeIntendedStep(m, DAY);
    var afterDays := m - s.days * DAY;
    TakeIntendedStep(afterDays, HOUR);
    var afterHours := afterDays - s.hours * HOUR;
    TakeIntendedStep(afterHours, MINUTE);
    var afterMins := afterHours - s.mins * MINUTE;
    TakeIntendedStep(afterMins, SECOND);
  }

  /** With `>=` thresholds exactly one hour is "01:00:00.0000". */
  lemma IntendedExactHourExample()
    ensures DurationTextIntended(3600000) == "01:00:00.0000"
  {
    var s := Split(0, 1, 0, 0, 0);
    assert SplitIntended(3600000) == s;
    PaddedConstants();
    assert Clock(s) == "01:00:00.0000";
  }
}
