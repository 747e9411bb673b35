# fsreadiness in Dafny

fsreadiness is a readiness sidecar. On a ticker, it checks a filesystem path with either a `statfs` call or a read of one 512-byte block at a random offset. It keeps the time of the last successful check in a package-level timestamp `ts`. `/ready` answers 200 while that timestamp is younger than `check-timeout` and 500 otherwise.

This project models the sequential logic of `main.go`:

- **`GoTime`** (`go_time.dfy`): the parts of Go's `time` package that readiness depends on.
  - Instants are integer nanoseconds since Go's zero `time.Time`, which is instant 0.
  - `Sub` saturates at the `int64` bounds of a `Duration`.
  - `Duration(seconds) * time.Second` wraps around in `int64`.
- **`Freshness`** (`freshness.dfy`): the predicate `Ready`, which is `time.Since(ts) < threshold`, and the class `FreshnessTracker`.
  - The class holds the mutable `ts` and the threshold.
  - `RecordSuccess` is `setts`; `IsReady` is `ready`.
  - The clock reading is a parameter.
- **`ProbeLoop`** (`probe_loop.dfy`): the probe goroutine's `for { select … }` loop.
  - It runs over a sequence of `select` outcomes, each either the cancellation case or a tick with its check result.
  - A successful tick also carries the clock reading `setts` takes once the check has returned (main.go:73, main.go:147-150). The value received from the ticker is discarded (main.go:144), so the stamp trails the tick by the duration of the check.
  - It is proved against the function `AfterTicks`.
  - The lemmas show that `AfterTicks` is the stamp of the last successful tick, or the initial timestamp if no tick succeeded.
- **`ReadProbe`** (`read_probe.dfy`): `checkRead`'s offset arithmetic.
  - `size &^ (blockSize-1)` is computed bit by bit on naturals.
  - The lemmas prove that this rounds down to a multiple of 512.
  - The seek offset is an arbitrary draw from `[0, bound)`.
- **`Config`** (`config.dfy`): the startup test for an empty `check-path` and the `check-mode` switch.

Behaviour of the code that the model keeps:

- The check modes are `"stat"` and `"read"` (main.go:90-96).
- The random offset is **not** rounded to a block boundary (`ReadProbe.OffsetNeedNotBeAligned`).
- For a file shorter than one block, the bound is 0 and `rand.Int63n(0)` panics (main.go:51). `ReadProbe.ChooseReadOffset` therefore requires `size >= 512`, and `ReadProbe.BoundPositiveIffWholeBlock` marks exactly where the panic begins.
- There is no separate "never succeeded" flag. Before the first success `ts` is the zero time (main.go:64). Any realistic clock reading is more than `MaxDuration` (about 292 years) after year 1, so `Since` saturates to `MaxDuration`, and no threshold is larger than that (`Freshness.NeverReadyBeforeSuccess`).
- Go's `select` picks at random when a tick and the cancellation are both pending (main.go:141-145), so one more tick can be handled after cancellation. The model allows this: the event sequence chooses which case fires, and nothing after the first cancellation is handled.

## Model

| member | source | states |
|---|---|---|
| GoTime.Wrap64 | main.go:80 | the result is in the `int64` range, congruent to the input modulo 2^64, and equal to the input when the input already fits |
| GoTime.Sub | main.go:80 | `time.Since`: always a `Duration`; the exact difference when it fits, otherwise the largest or smallest `Duration` |
| GoTime.DurationOfSeconds | main.go:80 | `Duration(seconds)*Second` is a `Duration`; whenever `seconds * 10^9` fits in `int64` (negative values included) it is exactly that, so it is at least one second for positive `seconds` without overflow |
| GoTime.SubMonotone | main.go:80 | the elapsed time `Since(u)` never decreases as the clock advances |
| Freshness.Ready | main.go:80 | `time.Since(ts) < threshold`; a ready answer implies the last success is less than `threshold` old, whatever the saturation of `Since` |
| Freshness.ReadyIffElapsedBelow | main.go:80 | for every threshold above the smallest `Duration`, ready exactly when `now - ts < threshold`; elapsed time equal to the threshold is not ready |
| Freshness.ReadyAtRecordTime | main.go:69-74 | a query at the instant of a success, with a positive threshold, is ready |
| Freshness.ReadyWindow | main.go:80 | after a success at `t`, for `now >= t`: ready exactly while `now < t + threshold` |
| Freshness.NeverReadyBeforeSuccess | main.go:64 | with `ts` still the zero time, no representable threshold makes a realistic clock reading ready |
| Freshness.StaysNotReady | main.go:80 | without a new success, not ready at `t1` implies not ready at every later `t2` |
| Freshness.ThreeSecondScenario | main.go:80 | with a 3-second threshold: ready 0.5 s and 2.9 s after a success, not ready 3.1 s after it |
| Freshness.FreshnessTracker.constructor | main.go:63-64 | the tracker starts with `ts` at the zero time and keeps the given threshold |
| Freshness.FreshnessTracker.RecordSuccess | main.go:69-74 | `setts`: `ts` becomes the current time and nothing else changes |
| Freshness.FreshnessTracker.IsReady | main.go:76-81 | `ready`: the answer is `Ready(ts, now, threshold)`, i.e. `now - ts < threshold` for any threshold above the smallest `Duration` |
| ProbeLoop.FirstDone | main.go:140-146 | the first cancellation's position: every earlier event is a tick and the event there is a cancellation |
| ProbeLoop.Step | main.go:147-151 | one iteration: a successful check sets `ts` to the stamp taken after the check, a failed one leaves `ts` unchanged |
| ProbeLoop.AfterTicks | main.go:140-152 | the timestamp after a run of ticks is either the initial one or the stamp of some successful tick |
| ProbeLoop.AfterTicksNoSuccess | main.go:147-151 | ticks whose checks all failed leave the timestamp unchanged |
| ProbeLoop.AfterTicksLastSuccess | main.go:147-151 | after a run of ticks, the timestamp is the stamp `setts` took after the last successful check |
| ProbeLoop.LastSuccessExists | main.go:147-151 | a run of ticks with any success has a last success |
| ProbeLoop.ReadyAfterTicks | main.go:140-152 | starting from the zero time, a realistic query is ready exactly when some tick succeeded and the stamp of the last successful check is less than the threshold old |
| ProbeLoop.RunProbeLoop | main.go:140-152 | the loop handles exactly the events before the first cancellation, exits if and only if a cancellation occurs (never on a failed check), and leaves `ts` equal to `AfterTicks` of the handled ticks |
| ReadProbe.AndNot | main.go:51 | Go's `x &^ m` on non-negative values, computed bit by bit; the result never exceeds `x` |
| ReadProbe.AndNotZero | main.go:51 | `x &^ 0 == x` |
| ReadProbe.AndNotLowMask | main.go:51 | `x &^ (2^k - 1)` equals `x` rounded down to a multiple of `2^k` |
| ReadProbe.OffsetBound | main.go:20-51 | `size &^ (blockSize-1)` is a multiple of 512, at most `size`, and greater than `size - 512` |
| ReadProbe.BoundPositiveIffWholeBlock | main.go:51 | the bound given to `rand.Int63n` is positive (no panic) exactly when `size >= 512` |
| ReadProbe.ChooseReadOffset | main.go:51 | the drawn offset satisfies `0 <= offset < bound <= size`, so the seek lands inside the file and the block read finds at least one byte |
| ReadProbe.OffsetNeedNotBeAligned | main.go:51 | an offset that is not a multiple of 512 is a possible draw |
| Config.SelectCheck | main.go:86-97 | an empty path is rejected first; otherwise `"stat"` selects the statfs check, `"read"` selects the read check, and any other mode is an unsupported-check error naming the mode |
| Config.ModeName | main.go:91-94 | the mode string of each strategy: `"stat"` exactly for the statfs check, `"read"` exactly for the read check |
| Config.ModeNameSelects | main.go:90-94 | given a path, each strategy's mode name selects that strategy |
| Config.AcceptedOnlyByName | main.go:86-97 | an accepted configuration has a non-empty path and a mode that is exactly the selected strategy's name |
| Config.DefaultModeIsStat | main.go:25 | the flag's default mode `"stat"` is accepted and selects the statfs check |

## Left out

- The HTTP server: the listener, the `/ready` handler's 200/500 status writing, and `server.Close` (main.go:99-132). These are network I/O.
- Goroutines, `context` cancellation, `sync.WaitGroup` and the mutex around `ts`. The tracker is modelled as a single-threaded object, and cancellation is an event in the loop's input.
- Signal handling (main.go:156-164) and process exit.
- The syscalls in `checkStat` and `checkRead`: `statfs`, open, seek and read. A check is an abstract success or failure. Only the offset arithmetic of `checkRead` is modelled.
- The `math/rand` source. The offset is an arbitrary value in `[0, bound)`.
- Flag parsing and logging.
- Floating-point flag values. `check-interval` and `check-timeout` are floats truncated to whole seconds by `time.Duration(f) * time.Second`. The model takes the whole seconds as an integer (`GoTime.DurationOfSeconds`). The ticker interval is not modelled, because tick times come with the events.
- Go's monotonic clock readings. Instants are wall-clock nanoseconds.
- ReadProbe.OffsetBound: modelled for sizes in `[0, 2^63)` only, the values a successful `Seek` returns. Negative sizes are not modelled.
