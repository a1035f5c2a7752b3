/** UnixTime: the second-based time Bitmessage uses. The system clock is a
    parameter: `millis` is what `System.currentTimeMillis()` returned. */
module UnixTime {
  import opened Wire

  /** Length of a minute in seconds. */
  const MINUTE: int64 := 60
  /** Length of an hour in seconds. */
  const HOUR: int64 := 60 * MINUTE
  /** Length of a day in seconds. */
  const DAY: int64 := 24 * HOUR

  lemma {:induction false} Lengths()
    ensures MINUTE == 60 && HOUR == 3600 && DAY == 86400
    ensures HOUR == 60 * MINUTE && DAY == 24 * HOUR
  {
  }

  /** now: the milliseconds divided by 1000 in `long` arithmetic, which
      truncates toward zero. */
  function Now(millis: int64): (seconds: int64)
    ensures millis >= 0 ==> seconds * 1000 <= millis < seconds * 1000 + 1000
    ensures millis < 0 ==> seconds * 1000 - 1000 < millis <= seconds * 1000
  {
    TruncDiv(millis, 1000)
  }

  /** A clock that does not go back gives a `now` that does not go back. */
  lemma {:induction false} NowMonotone(earlier: int64, later: int64)
    requires earlier <= later
    ensures Now(earlier) <= Now(later)
  {
  }
}
