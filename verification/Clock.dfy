/** Instants and durations as the Go runtime represents them.

    An instant is the number of nanoseconds since Go's zero `time.Time`
    (1 January of year 1, 00:00 UTC), so the zero value is the number 0. */
module Clock {

  type Time = int

  const ZERO_TIME: Time := 0

  // Nanoseconds.
  const SECOND: int := 1_000_000_000
  const MINUTE: int := 60_000_000_000
  const HOUR: int := 3_600_000_000_000

  const MAX_DURATION: int := 0x7FFF_FFFF_FFFF_FFFF
  const MIN_DURATION: int := -0x8000_0000_0000_0000

  /** `t.Sub(u)`: a duration is a signed 64-bit number and the difference saturates. */
  function Sub(t: Time, u: Time): (d: int)
    ensures MIN_DURATION <= d <= MAX_DURATION
    ensures MIN_DURATION <= t - u <= MAX_DURATION ==> d == t - u
  {
    if t - u > MAX_DURATION then MAX_DURATION
    else if t - u < MIN_DURATION then MIN_DURATION
    else t - u
  }

  /** Where the difference saturates the order is kept. */
  lemma SubMonotone(t: Time, u: Time, v: Time)
    requires t <= v
    ensures Sub(t, u) <= Sub(v, u) && Sub(u, v) <= Sub(u, t)
  {
  }

  /** The hour that contains an instant (`t.UTC().Truncate(time.Hour)`), counted
      from the zero time, and the instant an hour starts. */
  function HourOf(t: nat): nat { t / 3_600_000_000_000 }

  function HourStart(hour: int): int { hour * 3_600_000_000_000 }

  /** The UTC day that contains an instant, and the midnight a day starts. */
  function DayOf(t: nat): nat { t / 86_400_000_000_000 }

  function Midnight(day: int): int { day * 86_400_000_000_000 }

  lemma DayOfWithin(t: int, first: nat, last: nat)
    requires Midnight(first) <= t < Midnight(last)
    ensures t >= 0 && first <= DayOf(t) < last
  {
  }

  lemma DayContains(t: nat)
    ensures Midnight(DayOf(t)) <= t < Midnight(DayOf(t) + 1)
  {
  }

  lemma HourContains(t: nat)
    ensures HourStart(HourOf(t)) <= t < HourStart(HourOf(t) + 1)
  {
  }

  lemma HoursInOrder(a: nat, b: nat)
    requires a <= b
    ensures HourOf(a) <= HourOf(b)
  {
  }

  lemma MidnightIsHour(day: nat)
    ensures Midnight(day) == HourStart(24 * day)
  {
  }
}
