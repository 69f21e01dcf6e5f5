/** Instants and durations of Go's `time` package: 64-bit seconds and nanoseconds, wrapping and saturating as there. */
module Times {

  /** In nanoseconds. */
  const SECOND := 1_000_000_000

  const MIN_INT64 := -0x8000_0000_0000_0000
  const MAX_INT64 := 0x7FFF_FFFF_FFFF_FFFF
  const TWO_TO_64 := 0x1_0000_0000_0000_0000

  type Int64 = n: int | MIN_INT64 <= n <= MAX_INT64

  /** Nanoseconds. */
  type Duration = Int64

  /** The zero `time.Time`, 1 January of year 1, by its Unix second. Seconds are stored counted from there. */
  const ZERO_SECOND: Int64 := -62_135_596_800

  const FIRST_SECOND := MIN_INT64 + ZERO_SECOND
  const LAST_SECOND := MAX_INT64 + ZERO_SECOND

  const MIN_TIME := FIRST_SECOND * SECOND
  const MAX_TIME := LAST_SECOND * SECOND + SECOND - 1

  /** Every `time.Time`, by its nanoseconds since the Unix epoch. */
  type Time = t: int | MIN_TIME <= t <= MAX_TIME

  const ZERO_TIME: Time := ZERO_SECOND * SECOND

  /** The second a time lies in, seconds counted from the epoch. */
  function Second(t: Time): (s: int)
    ensures FIRST_SECOND <= s <= LAST_SECOND
  {
    t / SECOND
  }

  /** The time without its fraction of a second. */
  function Floor(t: Time): Time
  {
    Second(t) * SECOND
  }

  /** `Time.Unix`: seconds before the 64-bit range wrap round to its upper end. */
  function Unix(t: Time): Int64
  {
    if Second(t) < MIN_INT64 then Second(t) + TWO_TO_64 else Second(t)
  }

  /** `time.Unix(n, 0)`: counted from year 1, the last seconds of the 64-bit range wrap round to its lower end. */
  function FromUnix(n: Int64): Time
  {
    if n <= LAST_SECOND then n * SECOND else (n - TWO_TO_64) * SECOND
  }

  /** `Time.Add`: out of range the second saturates, just above the least one below; the fraction is kept. */
  function Add(t: Time, d: Duration): Time
  {
    var sum := t + d;
    if sum > MAX_TIME then LAST_SECOND * SECOND + sum % SECOND
    else if sum < MIN_TIME then (FIRST_SECOND + 1) * SECOND + sum % SECOND
    else sum
  }

  /** Negation of an `int64`. */
  function Negated(d: Duration): Duration
  {
    if d == MIN_INT64 then d else -d
  }

  /** Wrapping twice restores: the whole second of every time survives its Unix second, and back. */
  lemma UnixRoundTrip(t: Time, n: Int64)
    ensures FromUnix(Unix(t)) == Floor(t)
    ensures Unix(FromUnix(n)) == n
  {
  }

  /** The seconds that `time.Unix` takes at face value. */
  lemma FromUnixExactIff(n: Int64)
    ensures FromUnix(n) == n * SECOND <==> n <= LAST_SECOND
  {
  }

  /** The wrapped numbers are the true ones modulo 2^64. */
  lemma WrappedModulo64(t: Time, n: Int64, d: Duration)
    ensures (Unix(t) - Second(t)) % TWO_TO_64 == 0
    ensures (Second(FromUnix(n)) - n) % TWO_TO_64 == 0 && FromUnix(n) % SECOND == 0
    ensures (Negated(d) + d) % TWO_TO_64 == 0
  {
  }

  /** A sum is exact within range; beyond it the second stops at the last one, or the last but one below. */
  lemma AddOutcome(t: Time, d: Duration)
    ensures MIN_TIME <= t + d <= MAX_TIME ==> Add(t, d) == t + d
    ensures t + d > MAX_TIME ==> Second(Add(t, d)) == MAX_INT64 + ZERO_SECOND
    ensures t + d < MIN_TIME ==> Second(Add(t, d)) == MIN_INT64 + ZERO_SECOND + 1
    ensures Add(t, d) % SECOND == (t + d) % SECOND
  {
  }
}
