/** Rounding of hours. Durations are exact reals here; the source computes in `f64`. */
module Rounding {

  /** `f64::round`: to the nearest integer, halves away from zero. */
  function Round(x: real): int {
    if x >= 0.0 then (x + 0.5).Floor else -((0.5 - x).Floor)
  }

  /** `round_hours`: to the hundredth of an hour. */
  function RoundHours(hours: real): real {
    Round(hours * 100.0) as real / 100.0
  }

  /** `hours`: a duration in milliseconds, negative values counting as zero. */
  function HoursMs(hours: real): nat {
    if hours < 0.0 then 0 else Round(hours * 3_600_000.0)
  }

  lemma RoundMonotone(x: real, y: real)
    requires x <= y
    ensures Round(x) <= Round(y)
  {
  }

  lemma RoundHoursMonotone(x: real, y: real)
    requires x <= y
    ensures RoundHours(x) <= RoundHours(y)
  {
    RoundMonotone(x * 100.0, y * 100.0);
  }

  lemma HoursMsMonotone(x: real, y: real)
    requires x <= y
    ensures HoursMs(x) <= HoursMs(y)
  {
    if x >= 0.0 {
      RoundMonotone(x * 3_600_000.0, y * 3_600_000.0);
    }
  }

  /** The P80 of a rounded P50 reaches the P50 iff the hours are above minus one and a half hundredths. */
  lemma P80NotBelowP50(hours: real)
    ensures var p50 := RoundHours(hours); p50 <= RoundHours(p50 * 1.4) <==> hours > -0.015
  {
    var k := Round(hours * 100.0);
    var p50 := RoundHours(hours);
    assert p50 * 1.4 * 100.0 == k as real * 1.4;
    if k >= 0 {
      RoundMonotone(k as real, k as real * 1.4);
    } else if k == -1 {
      assert Round(-1.4) == -1;
    } else {
      assert k as real * 1.4 < (k - 1) as real + 0.5;
    }
  }

  /** At minus 0.02 hours the P80 is below the P50. */
  lemma P80BelowP50()
    ensures RoundHours(-0.02) == -0.02 && RoundHours(-0.02 * 1.4) == -0.03
  {
  }

  /** Negative hours take no time, so longer hours never end earlier, however they are rounded. */
  lemma P80NotShorter(hours: real)
    ensures var p50 := RoundHours(hours); HoursMs(p50) <= HoursMs(RoundHours(p50 * 1.4))
  {
    var p50 := RoundHours(hours);
    P80NotBelowP50(hours);
    if p50 >= 0.0 {
      assert hours > -0.015;
      HoursMsMonotone(p50, RoundHours(p50 * 1.4));
    }
  }
}
