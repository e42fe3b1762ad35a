/**
 Day arithmetic on integer timestamps (seconds since the epoch). The start of
 "today" is midnight of the day that contains the reading; Dafny's `/` and `%`
 on `int` round towards negative infinity for a positive divisor, so this is
 also right for readings before the epoch.
 */
module Clock {

  const SecondsPerDay: int := 86400

  /** The number of the day that contains `t`. */
  function Day(t: int): int {
    t / SecondsPerDay
  }

  /** Midnight at the start of the day that contains `t`. */
  function DayStart(t: int): (s: int)
    ensures s <= t < s + SecondsPerDay
    ensures s % SecondsPerDay == 0
    ensures s == Day(t) * SecondsPerDay
  {
    t - t % SecondsPerDay
  }

  /** The two properties that pin the start of a day down: any midnight no
      later than `t` and less than a day before it is `DayStart(t)`. */
  lemma DayStartUnique(t: int, s: int)
    requires s % SecondsPerDay == 0
    requires s <= t < s + SecondsPerDay
    ensures s == DayStart(t)
  {
    var d := s / SecondsPerDay;
    assert s == d * SecondsPerDay;
    assert d * SecondsPerDay <= t < d * SecondsPerDay + SecondsPerDay;
    assert Day(t) == d;
  }

  /** "At or after the start of `now`'s day" is the same as "on `now`'s day
      or on a later one". */
  lemma SinceDayStartIffNotEarlierDay(t: int, now: int)
    ensures t >= DayStart(now) <==> Day(t) >= Day(now)
  {
    var dt, dn := Day(t), Day(now);
    assert dt * SecondsPerDay <= t < dt * SecondsPerDay + SecondsPerDay;
    assert DayStart(now) == dn * SecondsPerDay;
    if dt >= dn {
      assert dt * SecondsPerDay >= dn * SecondsPerDay;
    } else {
      assert dt + 1 <= dn;
      assert dt * SecondsPerDay + SecondsPerDay <= dn * SecondsPerDay;
    }
  }
}
