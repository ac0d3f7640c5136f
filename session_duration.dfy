/** `getTimeDuration` (frontend/screens/MySessions.js, lines 77-87): the elapsed time
    between two instants as `[hours, minutes]`. */
module SessionDuration {
  import opened SessionRecords

  const MsPerMinute: int := 1000 * 60
  const MsPerHour: int := 60 * MsPerMinute

  /** `Math.abs(startDate.getTime() - endDate.getTime())`. */
  function ElapsedMs(startDate: Instant, endDate: Instant): (r: nat)
    ensures r == startDate - endDate || r == endDate - startDate
  {
    if startDate >= endDate then startDate - endDate else endDate - startDate
  }

  /** `Math.round`: the nearest integer, halves rounded up. */
  function Round(x: real): (r: int)
    ensures x - 0.5 < r as real <= x + 0.5
  {
    (x + 0.5).Floor
  }

  lemma FloorIs(x: real, n: int)
    requires n as real <= x < n as real + 1.0
    ensures x.Floor == n
  {
  }

  /** The computation as the screen writes it, over exact rationals: total minutes,
      fractional hours, whole hours by `Math.floor`, the leftover fraction scaled back
      to minutes and rounded. The contract gives the same result in integer arithmetic:
      whole hours by division, the leftover milliseconds rounded half-up to minutes. */
  function TimeDuration(startDate: Instant, endDate: Instant): (r: seq<int>)
    ensures var d := ElapsedMs(startDate, endDate);
      r == [d / MsPerHour, (d % MsPerHour + MsPerMinute / 2) / MsPerMinute]
  {
    var totalMin := (ElapsedMs(startDate, endDate) as real) / (1000.0 * 60.0);
    var hours := totalMin / 60.0;
    var roundHours := hours.Floor;
    var minutes := (hours - roundHours as real) * 60.0;
    var roundMinutes := Round(minutes);
    var d := ElapsedMs(startDate, endDate);
    var q, rem := d / MsPerHour, d % MsPerHour;
    assert d as real == q as real * 3600000.0 + rem as real;
    assert hours == q as real + rem as real / 3600000.0;
    FloorIs(hours, q);
    assert minutes == rem as real / 60000.0;
    var m, t := (rem + 30000) / 60000, (rem + 30000) % 60000;
    assert (rem + 30000) as real == m as real * 60000.0 + t as real;
    assert minutes + 0.5 == m as real + t as real / 60000.0;
    FloorIs(minutes + 0.5, m);
    [roundHours, roundMinutes]
  }

  /** Whole hours are never negative and the leftover minutes lie in 0..60; 60 is reached
      when the leftover is at least 59.5 minutes. */
  lemma TimeDurationBounds(startDate: Instant, endDate: Instant)
    ensures var r := TimeDuration(startDate, endDate);
      |r| == 2 && r[0] >= 0 && 0 <= r[1] <= 60
  {
  }

  /** The duration does not depend on the order of the two instants. */
  lemma TimeDurationSymmetric(startDate: Instant, endDate: Instant)
    ensures TimeDuration(startDate, endDate) == TimeDuration(endDate, startDate)
  {
  }

  /** For a difference of a whole number of minutes, the result is that number split into
      hours and minutes. */
  lemma TimeDurationWholeMinutes(startDate: Instant, endDate: Instant, mins: nat)
    requires ElapsedMs(startDate, endDate) == mins * MsPerMinute
    ensures TimeDuration(startDate, endDate) == [mins / 60, mins % 60]
  {
    var h, m := mins / 60, mins % 60;
    var d := ElapsedMs(startDate, endDate);
    assert d == h * MsPerHour + m * MsPerMinute;
    assert d / MsPerHour == h && d % MsPerHour == m * MsPerMinute;
    assert (m * MsPerMinute + MsPerMinute / 2) / MsPerMinute == m;
  }

  /** 125, 90 and 59 minutes give [2, 5], [1, 30] and [0, 59]. */
  lemma TimeDurationExamples(t: Instant)
    ensures TimeDuration(t, t + 125 * MsPerMinute) == [2, 5]
    ensures TimeDuration(t + 90 * MsPerMinute, t) == [1, 30]
    ensures TimeDuration(t, t + 59 * MsPerMinute) == [0, 59]
  {
    TimeDurationWholeMinutes(t, t + 125 * MsPerMinute, 125);
    TimeDurationWholeMinutes(t + 90 * MsPerMinute, t, 90);
    TimeDurationWholeMinutes(t, t + 59 * MsPerMinute, 59);
  }

  /** One millisecond short of an hour shows as zero hours and sixty minutes. */
  lemma TimeDurationSixtyMinutes(t: Instant)
    ensures TimeDuration(t, t + MsPerHour - 1) == [0, 60]
  {
  }
}
