# Timeline: a verified model of a deadline-sharing cache

This project models the `Timeline` of the Go package `timers` in Dafny.
A Timeline hands out cancellable deadline handles. It shares one handle among
all deadlines that fall into the same resolution window. The model has two files:

- `buckets.dfy` (module `Buckets`) holds the pure arithmetic. It has Go's truncating
  `/` and `%`, the rounding of an instant (nanoseconds since the Unix epoch) up to
  its bucket key, and the default resolution of 100ms. It also has the jittered
  expiration of a new bucket, the staleness test of the sweep, and the cleanup schedule.
- `timeline.dfy` (module `Timelines`) holds the state. `Entry` is a handle: a
  constant deadline and a `cancelled` flag, compared by identity. `Timeline` is a
  class. Its fields are the configured resolution, the map from bucket key to
  handle, the stored cleanup time and the sweep gate. A ghost set `Issued`
  records every handle ever handed out. `Timeline.Valid()` is the cache invariant:
  - every key is a multiple of the resolution;
  - every stored handle is live, and its deadline lies inside its key's window;
  - distinct keys hold distinct handles;
  - every issued handle is either still stored or cancelled.

  The methods `Context`, `Timeout`, `Cancel`, `Cleanup`, `TryLockCleanup` and
  `UnlockCleanup` follow the Go methods statement by statement. Two steps of
  `Context` are their own methods: `Insert`, the insertion on a miss, and
  `SweepIfDue`, the throttled sweep.

The model follows the code where the code and its documentation differ:

- The sweep is attempted only on the miss path of `Context`. A hit returns before it.
- The stored cleanup time starts at 0, which is the Unix epoch and never Go's zero
  `Time`. So the due test is just "stored time before now". The next due time is
  the stored time plus 100 windows, not `now` plus 100 windows. From the initial
  state, about `now / (100 * r)` consecutive misses each run a sweep before the
  throttle takes effect (`Buckets.SweepsWhileBehind`, and
  `Timelines.SweepsUntilCaughtUp` for the sweeps of the Timeline itself).
- Rounding is a true ceiling, and monotonic, only for instants at or after the
  epoch. Before the epoch, truncating division puts a non-boundary instant one
  window too late (`Buckets.BucketKeyOvershootsBeforeEpoch`).
- `Timeout` and `Deadline` are documented to expire at the requested instant
  "plus up to the timeline's resolution". The code first rounds the instant up
  to its key, by up to one window, and then adds a jitter of up to one more
  window. So a handle can expire almost two windows late. For example, with
  `r = 10`, the instant 1 gets key 10 and, with jitter 9, expires at 19, past
  1 + 10 (`Buckets.ExpiryCanExceedOneWindow`, `Buckets.ExpiryOvershootExample`).
  The model follows the code: `Buckets.ExpirationBounds` proves the bound of
  two windows.
- The sweep runs after the insertion in the same call. A handle created for an
  instant far in the past can be removed, and cancelled, before `Context` returns.

## Model

| member | source | states |
|---|---|---|
| `Buckets.GoDiv` | timeline.go:95-96 | the quotient truncates toward zero: the remainder `a - q*b` lies in `[0, b)` for `a >= 0` and in `(-b, 0]` for `a < 0` |
| `Buckets.GoMod` | timeline.go:95 | Go's identity `a == (a / b) * b + a % b` holds with the truncating quotient; the remainder has the sign of the dividend and magnitude below `b`; it is zero exactly when `a` is a multiple of `b` |
| `Buckets.BucketKey` | timeline.go:90-97 | the key is a multiple of the resolution and is never before the requested instant |
| `Buckets.BucketKeyOfMultiple` | timeline.go:93-97 | an instant already on a window boundary is left unchanged |
| `Buckets.BucketKeyIdempotent` | timeline.go:93-97 | rounding a key again gives the same key |
| `Buckets.BucketKeyTight` | timeline.go:93-97 | for instants at or after the epoch, `at <= key < at + r` |
| `Buckets.BucketKeyLeast` | timeline.go:93-97 | for instants at or after the epoch, the key is at or below every multiple of `r` that is not before `at` (it rounds up to the nearest boundary) |
| `Buckets.BucketKeyMonotone` | timeline.go:93-97 | for `0 <= at1 <= at2`, the key of `at1` is at most the key of `at2` |
| `Buckets.SameBucketIffNoBoundary` | timeline.go:93-97 | two instants at or after the epoch share a key if and only if no multiple of `r` lies in `[at1, at2)`: the same window gives the same key, and different windows give different keys |
| `Buckets.BucketKeyOvershootsBeforeEpoch` | timeline.go:95-96 | before the epoch, a non-boundary instant's key is one window past the nearest boundary, so the key is more than `r` after the instant |
| `Buckets.BucketKeyNotMonotoneBeforeEpoch` | timeline.go:95-96 | with `r = 10`, -5 rounds to 10 while 0 rounds to 0 |
| `Buckets.ResolutionFor` | timeline.go:172-177 | the effective resolution is never zero; it is the configured value when that is nonzero, and otherwise the 100ms default; it is positive exactly when the configured value is non-negative |
| `Buckets.JitterTime` | timeline.go:206-215 | a bucket boundary plus a jitter drawn from `[0, d)` lies in `[t, t + d)` |
| `Buckets.ExpirationBounds` | timeline.go:107-116 | the handle created for an instant `at >= 0` expires no earlier than `at` and less than two windows after it |
| `Buckets.ExpiryCanExceedOneWindow` | timeline.go:74-75 | whenever rounding moves the instant up by at least 2, the largest jitter makes the handle expire more than one window after the instant, beyond the documented "plus up to the timeline's resolution" |
| `Buckets.ExpiryOvershootExample` | timeline.go:93-97 | with `r = 10`, the instant 1 rounds to key 10 and with jitter 9 expires at 19, later than 1 + 10 |
| `Buckets.WindowsDisjoint` | timeline.go:108-117 | an expiration lies inside at most one window, so buckets with different keys never share an expiration |
| `Buckets.Expired` | timeline.go:159 | defines staleness as `now > deadline + r`, Go's `now.After(deadline.Add(r))` |
| `Buckets.NotExpiredBeforeDeadline` | timeline.go:159 | the sweep's staleness test never holds before a bucket's own deadline |
| `Buckets.NextCleanupTime` | timeline.go:132-134 | the next due time is exactly 100 windows after the previous due time, and so strictly later |
| `Buckets.CleanupDue` | timeline.go:121 | defines the sweep's due test as "stored time before `now`", because the stored time is never Go's zero `Time` |
| `Buckets.SweepsWhileBehind` | timeline.go:121-134 | at a fixed `now`, the number `n` of consecutive calls that sweep from stored time `c` is the least `n` with `c + n*100r >= now`, and 0 when nothing is due |
| `Timelines.Swept` | timeline.go:156-167 | defines the net effect of the sweep loop: the sub-map of the buckets that are not stale at `now`, each under its own handle |
| `Timelines.SweptKeepsLive` | timeline.go:159-164 | a sweep keeps every bucket with `deadline + r >= now`, under the same handle |
| `Timelines.SweptIdempotent` | timeline.go:156-167 | sweeping twice at the same instant removes nothing more |
| `Timelines.SweptShrinksOverTime` | timeline.go:159 | a later sweep keeps no bucket that an earlier sweep removes |
| `Timelines.SweptKeysRecent` | timeline.go:152-170 | after a sweep at `now`, every remaining key of a well-formed map is later than `now - 2r` |
| `Timelines.Entry.constructor` | timeline.go:191-197 | a new handle carries the given deadline and is live |
| `Timelines.Entry.Cancel` | timeline.go:186-188 | calling a handle's cancel function leaves it cancelled |
| `Timelines.Timeline.constructor` | timeline.go:22-38 | the zero-valued timeline is valid, with an empty map, cleanup time 0 and a free gate |
| `Timelines.Timeline.Resolution` | timeline.go:172-177 | the timeline's effective resolution is its configured one when that is nonzero, and 100ms otherwise; it is positive exactly when the configured value is non-negative |
| `Timelines.Timeline.TryLockCleanup` | timeline.go:144-146 | the gate is won if and only if it was 0, and winning sets it to 1; otherwise it is unchanged |
| `Timelines.Timeline.UnlockCleanup` | timeline.go:148-150 | releasing the gate sets it to 0 |
| `Timelines.Timeline.Cleanup` | timeline.go:152-170 | the new map is exactly the old map minus the stale buckets (`now > deadline + r`); exactly the removed handles get cancelled; the kept ones stay live with the same handle; the invariant is preserved |
| `Timelines.Timeline.Evict` | timeline.go:159-164 | removing a stale bucket calls its handle's cancel function and deletes exactly that key, keeping the invariant |
| `Timelines.Timeline.Insert` | timeline.go:110-119 | a miss stores exactly one new handle under the key (Go's nil map being the empty map) and leaves every other key untouched |
| `Timelines.Timeline.SweepIfDue` | timeline.go:121-127 | a sweep runs if and only if the stored time is before `now` and the gate is free; it first stores the old due time plus 100 windows; the gate ends as it started |
| `Timelines.Timeline.Context` | timeline.go:89-130 | the returned handle's deadline lies in `[key, key + r)`. On a hit, the stored handle is returned and nothing changes. On a miss, one fresh handle with deadline `key + j` is inserted and the other keys are untouched. A due sweep then runs on the map that holds it. The gate is unchanged, and cancelled handles stay cancelled |
| `Timelines.Timeline.Timeout` | timeline.go:74-79 | a timeout of `d` from `now` is the handle for the instant `now + d`: its deadline lies in that instant's window; a hit returns the stored handle; the sweep gate ends as it started; on a hit, the stored handle is returned live and the map, the issued handles and the cleanup time are unchanged; a miss returns a fresh handle expiring at the key plus the jitter and adds exactly that handle to the issued ones |
| `Timelines.Timeline.Cancel` | timeline.go:61-72 | afterwards the map is empty, every handle the timeline ever issued is cancelled, and the timeline is still valid for later use |
| `Timelines.SameWindowSharesHandle` | timeline_test.go:70-86 | two requests with the same key, each made at its own current time, return the identical, live handle, provided the first is made no later than one window after the key (so even a handle with the largest jitter survives the first call's sweep) |
| `Timelines.DistinctWindowsDistinctHandles` | timeline.go:89-130 | requests with different keys return different handles with different deadlines |
| `Timelines.CancelCancelsEveryHandle` | timeline_test.go:88-101 | after timeouts of 1s, 2s and 3s, each taken at its own current time, and then `Cancel`, all three handles are cancelled and the map is empty |
| `Timelines.SweepsUntilCaughtUp` | timeline.go:121-134 | repeated sweep attempts at one `now` with the gate free sweep exactly `SweepsWhileBehind` times, each advancing the stored time by 100 windows, until it is no longer before `now` |
| `Timelines.RequestAfterCancel` | timeline.go:110-117 | after `Cancel`, a request for an instant not before `now` lazily creates a fresh, live handle, while every earlier handle stays cancelled |

## Left out

- `Sleep` in sleep.go is left out. It only waits on a timer and a context's done channel. Blocking behaviour cannot be expressed here.
- Concurrency is left out. The read/write mutex and the atomic load, store and compare-and-swap become plain sequential field accesses. The double-checked lookup at timeline.go:110-111 becomes the single lookup before `Insert`. `loadCleanupTime` and `storeCleanupTime` become the read and write of `cleanupTime` inside `SweepIfDue`.
- The behaviour of Go's `context` package is left out. A handle does not fire on its own when its deadline passes, and it has no done channel and no `Err` value. A handle is reduced to its deadline and to whether its cancel function was called.
- The background context is left out. Cancelling it would cancel every bucket handle (timeline_test.go:104-119). `context.WithDeadline` would also clamp a handle's deadline to an earlier deadline of the background context. Neither is modelled.
- The clock and the random source are left out. `now` is a parameter, and so is the jitter draw `j`, constrained to `[0, r)` as `Int63n` guarantees. `Deadline(instant)` is `Context(instant, now)` with the current time, so it is not modelled separately.
- int64 wrap-around is left out. Instants, keys and cleanup times are unbounded integers, so overflow of `((k/r)+1)*r` or of `last + 100*r` near the int64 limits is not modelled.
- Go's nil map is modelled as the empty map. Lookups, ranging and deletion behave the same on both. Creating the map before the first insertion has no counterpart here.
- Timelines.Timeline.constructor: requires a non-negative configured resolution. Go accepts a negative one, but the first miss then panics in `Int63n` (timeline.go:208). The panic happens while `t.mutex` (taken at timeline.go:110) and the package-wide `jitterMutex` (taken at timeline.go:207) are held, and no `defer` releases them. If the panic is recovered, later calls on that timeline block at timeline.go:99, and a miss on any other Timeline blocks at timeline.go:207. Panics and blocking are not modelled; `Context` instead requires a positive resolution.
- Timelines.Timeline.Timeout: states the window bounds, the unchanged sweep gate, the whole hit case, and the new handle of a miss with the issued handles it adds, but not the sweep outcome of a miss. That part is stated once, by `Context`, which `Timeout` calls with the instant `now + d`.
- The `HighRes` and `LowRes` presets appear only as the constants `HighResolution` and `LowResolution` in `Buckets`.
- The timing-based tests and the benchmark are left out. They measure wall-clock delays.
