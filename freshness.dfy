/** The freshness tracker: the package-level timestamp `ts` of the last
    successful check, written by `setts` and read by `ready`. */
module Freshness {
  import opened GoTime

  /** `ready()`'s answer when the last success was at `ts`, the clock reads
      `now` and the staleness threshold is `threshold`:
      `time.Since(ts) < threshold`. Whatever the saturation of `Since`, a
      ready answer means the last success is less than `threshold` old. */
  predicate Ready(ts: int, now: int, threshold: Duration)
    ensures Ready(ts, now, threshold) ==> now - ts < threshold
  {
    Sub(now, ts) < threshold
  }

  /** For every threshold above the smallest `Duration`, readiness is exactly
      "elapsed time strictly below the threshold": the saturation of `Sub`
      never changes the answer, and an elapsed time equal to the threshold
      is not ready. */
  lemma ReadyIffElapsedBelow(ts: int, now: int, threshold: Duration)
    requires MinDuration < threshold
    ensures Ready(ts, now, threshold) <==> now - ts < threshold
    ensures now - ts == threshold ==> !Ready(ts, now, threshold)
  {
  }

  /** A query at the very instant of a success, with a positive threshold,
      answers ready. */
  lemma ReadyAtRecordTime(t: int, threshold: Duration)
    requires 0 < threshold
    ensures Ready(t, t, threshold)
  {
  }

  /** After a success at `t`, and as long as the clock does not run
      backwards, readiness holds exactly until `threshold` has elapsed. */
  lemma ReadyWindow(t: int, now: int, threshold: Duration)
    requires 0 < threshold
    requires t <= now
    ensures Ready(t, now, threshold) <==> now < t + threshold
  {
  }

  /** Before any success `ts` is the zero time. Any clock reading at least
      `MaxDuration` (about 292 years) after year 1 saturates `Sub`, so no
      representable threshold makes the service ready. */
  lemma NeverReadyBeforeSuccess(now: int, threshold: Duration)
    requires now - ZeroTime >= MaxDuration
    ensures !Ready(ZeroTime, now, threshold)
  {
  }

  /** Without a further success, once not ready, never ready again as the
      clock advances. */
  lemma StaysNotReady(ts: int, t1: int, t2: int, threshold: Duration)
    requires t1 <= t2
    requires !Ready(ts, t1, threshold)
    ensures !Ready(ts, t2, threshold)
  {
    SubMonotone(t1, t2, ts);
  }

  /** A 3-second threshold and a success at `t0`: ready half a second and
      2.9 seconds later, not ready 3.1 seconds later. */
  lemma ThreeSecondScenario(t0: int)
    ensures Ready(t0, t0 + Second / 2, DurationOfSeconds(3))
    ensures Ready(t0, t0 + 29 * Second / 10, DurationOfSeconds(3))
    ensures !Ready(t0, t0 + 31 * Second / 10, DurationOfSeconds(3))
  {
  }

  /** The tracker. `ts` is the instant of the last success, the zero time
      before the first one; `threshold` is the `check-timeout` converted to a
      `Duration` once at startup. */
  class FreshnessTracker {
    var ts: int
    const threshold: Duration

    constructor (threshold: Duration)
      ensures this.threshold == threshold
      ensures ts == ZeroTime
    {
      this.threshold := threshold;
      ts := ZeroTime;
    }

    /** `setts`: the success happened at `now`. */
    method RecordSuccess(now: int)
      modifies this`ts
      ensures ts == now
    {
      ts := now;
    }

    /** `ready`: whether the last success is recent enough at `now`. */
    method IsReady(now: int) returns (ready: bool)
      ensures ready <==> Ready(ts, now, threshold)
      ensures MinDuration < threshold ==> (ready <==> now - ts < threshold)
    {
      ready := Sub(now, ts) < threshold;
    }
  }
}
