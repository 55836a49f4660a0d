/** The millisecond constants of `TimeUtil` and `TimeUnit.toMillis`. */
module TimeUnits {
  import opened JavaLong

  const SECOND: int := 1000
  const MINUTE: int := 60 * SECOND
  const HOUR: int := 60 * MINUTE
  const DAY: int := 24 * HOUR

  /**
   * `TimeUnit.toMillis` for a unit of `ratio` milliseconds: the product,
   * saturated at the ends of the `long` range instead of overflowing.
   */
  function ToMillis(v: int, ratio: int): (r: int)
    requires IsLong(v) && 0 < ratio <= DAY
    ensures IsLong(r)
    ensures IsLong(v * ratio) ==> r == v * ratio
    ensures v * ratio > MAX_LONG ==> r == MAX_LONG
    ensures v * ratio < MIN_LONG ==> r == MIN_LONG
  {
    var over := MAX_LONG / ratio;
    MulBounds(v, ratio, over);
    if v > over then MAX_LONG
    else if v < -over then MIN_LONG
    else v * ratio
  }

  /** The saturation thresholds of `ToMillis` are exactly where the product leaves the range. */
  lemma MulBounds(v: int, ratio: int, over: int)
    requires 0 < ratio && over == MAX_LONG / ratio
    ensures v > over ==> v * ratio > MAX_LONG
    ensures -over <= v <= over ==> IsLong(v * ratio)
    ensures v < -over ==> v * ratio <= MIN_LONG
  {
    assert over * ratio <= MAX_LONG < (over + 1) * ratio;
    if v > over {
      MulMonotone(over + 1, v, ratio);
    } else if v >= -over {
      MulMonotone(v, over, ratio);
      MulMonotone(-over, v, ratio);
    } else {
      MulMonotone(v, -(over + 1), ratio);
    }
  }

  lemma MulMonotone(a: int, b: int, k: int)
    requires a <= b && 0 <= k
    ensures a * k <= b * k
  {
    assert b * k - a * k == (b - a) * k;
  }
}
