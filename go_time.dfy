/** The slice of Go's `time` package that the readiness logic relies on.
    An instant is an integer count of nanoseconds since Go's zero `time.Time`
    (January 1, year 1, 00:00:00 UTC); a `time.Duration` is a signed 64-bit
    count of nanoseconds. */
module GoTime {

  const MinInt64: int := -0x8000_0000_0000_0000
  const MaxInt64: int := 0x7fff_ffff_ffff_ffff

  /** `time.Duration` is an `int64`. */
  const MinDuration: int := MinInt64
  const MaxDuration: int := MaxInt64
  const Second: int := 1_000_000_000

  /** The instant held by a `time.Time` that was never assigned. */
  const ZeroTime: int := 0

  /** Values representable as a `time.Duration` (an `int64`). */
  predicate IsDuration(d: int) {
    MinDuration <= d <= MaxDuration
  }

  /** A value a `time.Duration` can hold. */
  type Duration = d: int | MinDuration <= d <= MaxDuration

  /** Two's-complement wrap-around of an integer into the `int64` range, as
      Go's signed multiplication does on overflow. */
  function Wrap64(x: int): (r: Duration)
    ensures (x - r) % 0x1_0000_0000_0000_0000 == 0
    ensures IsDuration(x) ==> r == x
  {
    (x - MinDuration) % 0x1_0000_0000_0000_0000 + MinDuration
  }

  /** `t.Sub(u)`: the elapsed time from `u` to `t`, saturated to the largest
      or smallest `Duration` when it does not fit. `time.Since(u)` is
      `Sub(now, u)`. */
  function Sub(t: int, u: int): (d: Duration)
    ensures IsDuration(t - u) ==> d == t - u
    ensures t - u > MaxDuration ==> d == MaxDuration
    ensures t - u < MinDuration ==> d == MinDuration
  {
    if t - u > MaxDuration then MaxDuration
    else if t - u < MinDuration then MinDuration
    else t - u
  }

  /** Elapsed time never decreases as the later instant advances. */
  lemma SubMonotone(t1: int, t2: int, u: int)
    requires t1 <= t2
    ensures Sub(t1, u) <= Sub(t2, u)
  {
  }

  /** `time.Duration(seconds) * time.Second`, with the `int64` product
      wrapping on overflow. */
  function DurationOfSeconds(seconds: int): (d: Duration)
    requires IsDuration(seconds)
    ensures IsDuration(seconds * Second) ==> d == seconds * Second
    ensures 0 < seconds <= MaxDuration / Second ==> Second <= d
  {
    Wrap64(seconds * Second)
  }
}
