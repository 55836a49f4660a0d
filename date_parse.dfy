/**
 * `TimeUtil.parse`: the single-pattern parse and the ordered fallback over
 * `DATE_TIME_FORMATS`. Joda's own parsing is not modelled: what one pattern
 * makes of one string is an oracle, `None` standing for the exception it throws.
 */
module DateParse {
  import opened Wrappers

  /**
   * The date-time patterns `TimeUtil` declares, named as in the source; the
   * layout each stands for matters only to the parse oracle.
   */
  datatype Pattern =
    | MMDDYYYY
    | MMMM_D_YYYY
    | YYYY_MM_DD
    | YYYYMMDD
    | MMM_DD_YYYY
    | YYYY_MM_DD_HH_mm_ss
    | YYYYMMDDHHMMSS
    | HYPHEN_MMDDYYYY

  /** The fallback order, with `YYYY_MM_DD` listed twice as in the source. */
  const DATE_TIME_FORMATS: seq<Pattern> :=
    [YYYY_MM_DD, YYYY_MM_DD, YYYYMMDD, YYYY_MM_DD_HH_mm_ss, YYYYMMDDHHMMSS, HYPHEN_MMDDYYYY, MMDDYYYY]

  /** `formatter.parseDateTime(time).getMillis()`: the instant, or `None` when Joda throws. */
  type Attempt = (Pattern, string) -> Option<int>

  /** A zone-bound attempt, `formatter.withZone(zone).parseDateTime(time).getMillis()`. */
  type ZonedAttempt = (Pattern, string, string) -> Option<int>

  /** What one call of the single-pattern `parse` does: return null, return an instant, or throw. */
  datatype Outcome = Null | Millis(ms: int) | Thrown

  /** `parse(time, formatter)`: empty input is null and never reaches the formatter. */
  function ParseWith(time: string, p: Pattern, attempt: Attempt): (r: Outcome)
    ensures time == [] <==> r == Null
    ensures r.Millis? <==> time != [] && attempt(p, time).Some?
    ensures r.Millis? ==> attempt(p, time) == Some(r.ms)
  {
    if time == [] then Null
    else
      match attempt(p, time)
      case None => Thrown
      case Some(ms) => Millis(ms)
  }

  /** `parse(time, formatter, zone)`: the same, with the formatter bound to `zone`. */
  function InZone(attempt: ZonedAttempt, zone: string): Attempt {
    (p: Pattern, s: string) => attempt(p, s, zone)
  }

  /** The result of trying `formats` in order: the first attempt that does not throw decides. */
  function FirstSuccess(val: string, formats: seq<Pattern>, attempt: Attempt): Option<int> {
    if formats == [] then None
    else
      match ParseWith(val, formats[0], attempt)
      case Thrown => FirstSuccess(val, formats[1..], attempt)
      case Null => None
      case Millis(ms) => Some(ms)
  }

  /** `parse(String)`: try each pattern, swallow its exception, return the first result. */
  method Parse(val: string, attempt: Attempt) returns (r: Option<int>)
    ensures r == FirstSuccess(val, DATE_TIME_FORMATS, attempt)
    ensures val == [] ==> r == None
    ensures r.Some? <==> val != [] && exists i | 0 <= i < |DATE_TIME_FORMATS| :: attempt(DATE_TIME_FORMATS[i], val).Some?
    ensures r.Some? ==> exists i | 0 <= i < |DATE_TIME_FORMATS| ::
      attempt(DATE_TIME_FORMATS[i], val) == r && forall j | 0 <= j < i :: attempt(DATE_TIME_FORMATS[j], val).None?
  {
    var formats := DATE_TIME_FORMATS;
    for k := 0 to |formats|
      invariant forall j | 0 <= j < k :: ParseWith(val, formats[j], attempt) == Thrown
      invariant FirstSuccess(val, formats, attempt) == FirstSuccess(val, formats[k..], attempt)
    {
      var outcome := ParseWith(val, formats[k], attempt);
      assert formats[k..][1..] == formats[k + 1..];
      match outcome {
        case Thrown =>
        case Null =>
          FirstSuccessSpec(val, formats, attempt);
          return None;
        case Millis(ms) =>
          FirstSuccessSpec(val, formats, attempt);
          return Some(ms);
      }
    }
    FirstSuccessSpec(val, formats, attempt);
    return None;
  }

  /** `parse(String, DateTimeZone)`: the same ordered fallback with every formatter bound to `zone`. */
  method ParseInZone(val: string, zone: string, attempt: ZonedAttempt) returns (r: Option<int>)
    ensures r == FirstSuccess(val, DATE_TIME_FORMATS, InZone(attempt, zone))
    ensures val == [] ==> r == None
    ensures r.Some? <==> val != [] && exists i | 0 <= i < |DATE_TIME_FORMATS| :: attempt(DATE_TIME_FORMATS[i], val, zone).Some?
  {
    r := Parse(val, InZone(attempt, zone));
  }

  /**
   * The fallback returns the value of the first pattern whose attempt
   * succeeds, and null exactly when the input is empty or every attempt fails.
   */
  lemma {:induction false} FirstSuccessSpec(val: string, formats: seq<Pattern>, attempt: Attempt)
    ensures val == [] ==> FirstSuccess(val, formats, attempt) == None
    ensures FirstSuccess(val, formats, attempt).Some? <==>
      val != [] && exists i | 0 <= i < |formats| :: attempt(formats[i], val).Some?
    ensures FirstSuccess(val, formats, attempt).Some? ==> exists i | 0 <= i < |formats| ::
      attempt(formats[i], val) == FirstSuccess(val, formats, attempt)
      && forall j | 0 <= j < i :: attempt(formats[j], val).None?
  {
    if formats != [] && val != [] && attempt(formats[0], val).None? {
      var rest := formats[1..];
      FirstSuccessSpec(val, rest, attempt);
      var r := FirstSuccess(val, formats, attempt);
      assert r == FirstSuccess(val, rest, attempt);
      if r.Some? {
        var i :| 0 <= i < |rest| && attempt(rest[i], val) == r && forall j | 0 <= j < i :: attempt(rest[j], val).None?;
        assert formats[i + 1] == rest[i];
        assert forall j | 0 <= j < i + 1 :: attempt(formats[j], val).None? by {
          forall j | 0 <= j < i + 1 ensures attempt(formats[j], val).None? {
            if j > 0 {
              assert formats[j] == rest[j - 1];
            }
          }
        }
      }
      if exists i | 0 <= i < |formats| :: attempt(formats[i], val).Some? {
        var i :| 0 <= i < |formats| && attempt(formats[i], val).Some?;
        assert rest[i - 1] == formats[i];
      }
    }
  }

  /**
   * A pattern listed again later never changes the result: whenever the
   * later copy is reached, the earlier one has already failed on the same input.
   */
  lemma {:induction false} RepeatedPatternIsRedundant(val: string, formats: seq<Pattern>, attempt: Attempt, i: nat, j: nat)
    requires i < j < |formats| && formats[i] == formats[j]
    ensures FirstSuccess(val, formats[..j] + formats[j + 1..], attempt) == FirstSuccess(val, formats, attempt)
  {
    var without := formats[..j] + formats[j + 1..];
    assert without[0] == formats[0];
    if i > 0 {
      assert without[1..] == formats[1..][..j - 1] + formats[1..][j..];
      RepeatedPatternIsRedundant(val, formats[1..], attempt, i - 1, j - 1);
    } else if val != [] && attempt(formats[0], val).None? {
      RemoveFailing(val, formats[1..], attempt, j - 1);
      assert without[1..] == formats[1..][..j - 1] + formats[1..][j..];
    }
  }

  /** Dropping a pattern that fails on the input does not change the result. */
  lemma {:induction false} RemoveFailing(val: string, formats: seq<Pattern>, attempt: Attempt, k: nat)
    requires k < |formats| && val != [] && attempt(formats[k], val).None?
    ensures FirstSuccess(val, formats[..k] + formats[k + 1..], attempt) == FirstSuccess(val, formats, attempt)
  {
    var without := formats[..k] + formats[k + 1..];
    if k == 0 {
      assert without == formats[1..];
    } else {
      assert without[0] == formats[0];
      assert without[1..] == formats[1..][..k - 1] + formats[1..][k..];
      RemoveFailing(val, formats[1..], attempt, k - 1);
    }
  }

  /** In particular the second `YYYY_MM_DD` of `DATE_TIME_FORMATS` can never change what `parse` returns. */
  lemma DuplicateEntryHarmless(val: string, attempt: Attempt)
    ensures FirstSuccess(val, [YYYY_MM_DD, YYYYMMDD, YYYY_MM_DD_HH_mm_ss, YYYYMMDDHHMMSS, HYPHEN_MMDDYYYY, MMDDYYYY], attempt)
            == FirstSuccess(val, DATE_TIME_FORMATS, attempt)
  {
    RepeatedPatternIsRedundant(val, DATE_TIME_FORMATS, attempt, 0, 1);
    assert DATE_TIME_FORMATS[..1] + DATE_TIME_FORMATS[2..]
           == [YYYY_MM_DD, YYYYMMDD, YYYY_MM_DD_HH_mm_ss, YYYYMMDDHHMMSS, HYPHEN_MMDDYYYY, MMDDYYYY];
  }
}
