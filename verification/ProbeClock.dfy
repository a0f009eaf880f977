/** The week-rollover arithmetic of ros2/scripts/serial_latency_probe.py, in whole milliseconds. */
module ProbeClock {
  const LEAP := 18
  const WEEK := 604800

  /** Unix time, in ms, of the GPS time of week `itowMs` nearest to the Unix second `ref`. */
  function ItowToUnix(itowMs: int, ref: int): int {
    var delta := itowMs - 1000 * ((ref + LEAP) % WEEK);
    if 2 * delta > 1000 * WEEK then 1000 * ref + delta - 1000 * WEEK
    else if 2 * delta < -1000 * WEEK then 1000 * ref + delta + 1000 * WEEK
    else 1000 * ref + delta
  }

  /** `t` has the wanted time of week when weeks are counted from `t == -LEAP`. */
  ghost predicate SameTimeOfWeek(t: int, itowMs: int) {
    (t + 1000 * LEAP - itowMs) % (1000 * WEEK) == 0
  }

  /** Within its own week count the result is right, within half a week of `ref`, and the only such time. */
  lemma NearestMatchingTime(itowMs: int, ref: int, t: int)
    requires 0 <= itowMs < 1000 * WEEK
    ensures SameTimeOfWeek(ItowToUnix(itowMs, ref), itowMs)
    ensures -500 * WEEK <= ItowToUnix(itowMs, ref) - 1000 * ref <= 500 * WEEK
    ensures SameTimeOfWeek(t, itowMs) && -500 * WEEK < t - 1000 * ref < 500 * WEEK ==> t == ItowToUnix(itowMs, ref)
  {
    var r := ItowToUnix(itowMs, ref);
    ResultMatches(itowMs, ref, r);
    if SameTimeOfWeek(t, itowMs) {
      MatchesAreWeeksApart(itowMs, r, t);
    }
  }

  lemma ResultMatches(itowMs: int, ref: int, r: int)
    requires r == ItowToUnix(itowMs, ref)
    ensures SameTimeOfWeek(r, itowMs)
  {
    var k, x := (ref + LEAP) / WEEK, (ref + LEAP) % WEEK;
    assert ref + LEAP == k * WEEK + x;
    var delta := itowMs - 1000 * x;
    var m := if 2 * delta > 1000 * WEEK then k - 1 else if 2 * delta < -1000 * WEEK then k + 1 else k;
    MultipleOf(r + 1000 * LEAP - itowMs, m);
  }

  lemma MatchesAreWeeksApart(itowMs: int, r: int, t: int)
    requires SameTimeOfWeek(r, itowMs) && SameTimeOfWeek(t, itowMs)
    ensures t == r || t - r >= 1000 * WEEK || r - t >= 1000 * WEEK
  {
    var m, n := (r + 1000 * LEAP - itowMs) / (1000 * WEEK), (t + 1000 * LEAP - itowMs) / (1000 * WEEK);
    assert r + 1000 * LEAP - itowMs == 1000 * WEEK * m && t + 1000 * LEAP - itowMs == 1000 * WEEK * n;
  }

  lemma MultipleOf(d: int, m: int)
    requires d == 1000 * WEEK * m
    ensures d % (1000 * WEEK) == 0
  {
  }

  /** Three days in milliseconds: from Thursday back to Sunday, modulo a week. */
  const EARLY := 259200000

  /**
   The time of week a receiver reports at Unix millisecond `m`. GPS weeks start at the GPS epoch, Unix
   second 315964800, a Sunday, and run 18 leap seconds ahead; the Unix epoch was a Thursday.
   */
  function TrueItow(m: int): int {
    (m - 315964800000 + 18000) % 604800000
  }

  /** The script takes the reported time of week for that of three days before. */
  lemma WrongDay(m: int, k: int)
    ensures SameTimeOfWeek(m - EARLY + 1000 * WEEK * k, TrueItow(m))
  {
    var x := m - 315964800000 + 18000;
    var q := x / (1000 * WEEK);
    assert x == 1000 * WEEK * q + TrueItow(m);
    assert 315964800 == WEEK * 522 + 259200;
    MultipleOf(m - EARLY + 1000 * WEEK * k + 1000 * LEAP - TrueItow(m), 522 + q + k);
  }

  /** For any measured moment and any reference: of the moments whole weeks from three days early, the one nearest. */
  lemma NearestToThreeDaysEarly(m: int, ref: int, k: int)
    requires -500 * WEEK < m - EARLY + 1000 * WEEK * k - 1000 * ref < 500 * WEEK
    ensures ItowToUnix(TrueItow(m), ref) == m - EARLY + 1000 * WEEK * k
  {
    WrongDay(m, k);
    NearestMatchingTime(TrueItow(m), ref, m - EARLY + 1000 * WEEK * k);
  }

  /** It never answers the measured moment, whatever the reference. */
  lemma NeverTheMeasuredMoment(m: int, ref: int)
    ensures ItowToUnix(TrueItow(m), ref) != m
  {
    var r := ItowToUnix(TrueItow(m), ref);
    ResultMatches(TrueItow(m), ref, r);
    WrongDay(m, 0);
    MatchesAreWeeksApart(TrueItow(m), m - EARLY, r);
  }

  /**
   With a reference less than half a day after the measured moment and less than six and a half days before
   it, the answer is exactly three days early; and only then, but for the ends of that window.
   */
  lemma AlwaysThreeDaysEarly(m: int, ref: int)
    ensures -43200000 < m - 1000 * ref < 561600000 ==> ItowToUnix(TrueItow(m), ref) == m - EARLY
    ensures ItowToUnix(TrueItow(m), ref) == m - EARLY ==> -43200000 <= m - 1000 * ref <= 561600000
  {
    if -43200000 < m - 1000 * ref < 561600000 {
      NearestToThreeDaysEarly(m, ref, 0);
    }
    NearestMatchingTime(TrueItow(m), ref, m);
  }
}
