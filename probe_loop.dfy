/** The probe goroutine: on each `select` it either observes cancellation
    and returns, or takes a ticker tick, runs the configured check and, on
    success only, stamps the tracker. Which `select` case fires, when, and
    what the check returns are decided by the environment; the model
    receives them as a sequence of events. */
module ProbeLoop {
  import opened GoTime
  import opened Freshness

  /** One firing of the `select`: a tick whose check succeeded (`checkOk`)
      or failed, or the cancellation case. The value received from the
      ticker is discarded; `stampTime` is the clock reading `setts` takes
      once a successful check has returned, so it trails the tick by the
      duration of the check. It is meaningless for a failed check. */
  datatype Event = Tick(stampTime: int, checkOk: bool) | Done

  predicate IsSuccess(e: Event) {
    e.Tick? && e.checkOk
  }

  /** The position of the first cancellation in `events`, or `|events|` if
      there is none. */
  function FirstDone(events: seq<Event>): (n: nat)
    ensures n <= |events|
    ensures n < |events| ==> events[n].Done?
    ensures forall k :: 0 <= k < n ==> !events[k].Done?
  {
    if events == [] then 0
    else if events[0].Done? then 0
    else 1 + FirstDone(events[1..])
  }

  /** The tracker's timestamp after one loop iteration: a failed check leaves
      it alone, a successful one stamps the time the check finished. */
  function Step(ts: int, e: Event): (r: int)
    ensures IsSuccess(e) ==> r == e.stampTime
    ensures !IsSuccess(e) ==> r == ts
  {
    match e
    case Tick(t, ok) => if ok then t else ts
    case Done => ts
  }

  /** The tracker's timestamp after the loop has handled `ticks` in order,
      starting from `ts0`: never a value the loop did not write, that is,
      either `ts0` or the stamp of some successful tick. */
  function AfterTicks(ts0: int, ticks: seq<Event>): (r: int)
    ensures r == ts0 || exists j :: 0 <= j < |ticks| && IsSuccess(ticks[j]) && r == ticks[j].stampTime
  {
    if ticks == [] then ts0
    else Step(AfterTicks(ts0, ticks[..|ticks| - 1]), ticks[|ticks| - 1])
  }

  /** `j` is the last successful tick of `ticks`. */
  predicate IsLastSuccess(ticks: seq<Event>, j: int) {
    0 <= j < |ticks| && IsSuccess(ticks[j]) &&
    forall k :: j < k < |ticks| ==> !IsSuccess(ticks[k])
  }

  /** With no successful tick, the timestamp is what it was. */
  lemma {:induction false} AfterTicksNoSuccess(ts0: int, ticks: seq<Event>)
    requires forall k :: 0 <= k < |ticks| ==> !IsSuccess(ticks[k])
    ensures AfterTicks(ts0, ticks) == ts0
  {
    if ticks != [] {
      AfterTicksNoSuccess(ts0, ticks[..|ticks| - 1]);
    }
  }

  /** The timestamp is the stamp of the last successful tick. */
  lemma {:induction false} AfterTicksLastSuccess(ts0: int, ticks: seq<Event>, j: int)
    requires IsLastSuccess(ticks, j)
    ensures AfterTicks(ts0, ticks) == ticks[j].stampTime
  {
    var n := |ticks| - 1;
    if j < n {
      assert IsLastSuccess(ticks[..n], j);
      AfterTicksLastSuccess(ts0, ticks[..n], j);
    }
  }

  /** A sequence with some successful tick has a last one. */
  lemma {:induction false} LastSuccessExists(ticks: seq<Event>, i: int)
    requires 0 <= i < |ticks| && IsSuccess(ticks[i])
    ensures exists j :: IsLastSuccess(ticks, j)
  {
    var n := |ticks| - 1;
    if IsSuccess(ticks[n]) {
      assert IsLastSuccess(ticks, n);
    } else {
      LastSuccessExists(ticks[..n], i);
      var j :| IsLastSuccess(ticks[..n], j);
      assert IsLastSuccess(ticks, j);
    }
  }

  /** Starting from the zero time and queried at a realistic clock reading,
      the service is ready exactly when some tick succeeded and the last
      successful check finished less than `threshold` ago. */
  lemma ReadyAfterTicks(ticks: seq<Event>, now: int, threshold: Duration)
    requires now - ZeroTime >= MaxDuration
    requires MinDuration < threshold
    ensures Ready(AfterTicks(ZeroTime, ticks), now, threshold) <==>
            exists j :: IsLastSuccess(ticks, j) && now - ticks[j].stampTime < threshold
  {
    if j :| IsLastSuccess(ticks, j) {
      AfterTicksLastSuccess(ZeroTime, ticks, j);
      ReadyIffElapsedBelow(ticks[j].stampTime, now, threshold);
      forall j' | IsLastSuccess(ticks, j') ensures j' == j {
      }
    } else {
      forall k | 0 <= k < |ticks| ensures !IsSuccess(ticks[k]) {
        if IsSuccess(ticks[k]) { LastSuccessExists(ticks, k); }
      }
      AfterTicksNoSuccess(ZeroTime, ticks);
      NeverReadyBeforeSuccess(now, threshold);
    }
  }

  /** The loop of the probe goroutine, run over the `select` outcomes in
      `events`. It returns `exited` when it took the cancellation case, after
      handling the `handled` ticks before it; a check failure never ends it.
      When `events` runs out without a cancellation the loop is still
      waiting, and `exited` is false. */
  method RunProbeLoop(tracker: FreshnessTracker, events: seq<Event>) returns (handled: nat, exited: bool)
    modifies tracker
    ensures handled == FirstDone(events)
    ensures exited <==> exists k :: 0 <= k < |events| && events[k].Done?
    ensures tracker.ts == AfterTicks(old(tracker.ts), events[..handled])
  {
    var i := 0;
    while i < |events|
      invariant 0 <= i <= |events|
      invariant forall k :: 0 <= k < i ==> !events[k].Done?
      invariant tracker.ts == AfterTicks(old(tracker.ts), events[..i])
    {
      assert events[..i + 1][..i] == events[..i];
      match events[i]
      case Done =>
        return i, true;
      case Tick(t, ok) =>
        if ok {
          tracker.RecordSuccess(t);
        }
      i := i + 1;
    }
    assert events[..i] == events;
    return i, false;
  }
}
