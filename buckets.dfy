/**
 The arithmetic of a Timeline: how a requested instant (nanoseconds since the
 Unix epoch) is rounded to the key of its resolution window, the default
 resolution, the jittered expiration of a new bucket, when a bucket counts as
 stale, and when the next cleanup sweep is due.

 Go's integer `/` and `%` truncate toward zero, whereas Dafny's are Euclidean;
 `GoDiv` and `GoMod` spell out Go's operators.
 */
module Buckets {

  /** One millisecond, in nanoseconds (Go's `time.Millisecond`). */
  const Millisecond: int := 1_000_000

  /** The resolution used when a Timeline's configured resolution is zero. */
  const DefaultResolution: int := 100 * Millisecond

  /** Configured resolutions of the two shared presets. */
  const HighResolution: int := 10 * Millisecond
  const LowResolution: int := 1000 * Millisecond

  /** Number of resolution windows between two scheduled cleanup sweeps. */
  const CleanupWindows: int := 100

  /** `m` is a whole multiple of `r`. */
  predicate IsMultiple(m: int, r: int)
    requires r > 0
  {
    m % r == 0
  }

  // ---------------------------------------------------------------------------
  // Go's truncating division

  /** Go's `a / b` for a positive divisor: the quotient rounded toward zero. */
  function GoDiv(a: int, b: int): (q: int)
    requires b > 0
    ensures a >= 0 ==> 0 <= a - q * b < b
    ensures a < 0 ==> -b < a - q * b <= 0
  {
    if a >= 0 then a / b else -((-a) / b)
  }

  /** Go's `a % b` for a positive divisor: the remainder takes the sign of `a`. */
  function GoMod(a: int, b: int): (m: int)
    requires b > 0
    ensures -b < m < b
    ensures a >= 0 ==> m >= 0
    ensures a < 0 ==> m <= 0
    ensures m == 0 <==> IsMultiple(a, b)
    ensures a == GoDiv(a, b) * b + m
  {
    var q := GoDiv(a, b);
    MultipleOfProduct(q, b);
    MultipleWithinWindow(a, q * b, b);
    a - q * b
  }

  // ---------------------------------------------------------------------------
  // Small facts about multiples

  lemma MulMonotone(x: int, y: int, r: int)
    requires r > 0 && x <= y
    ensures x * r <= y * r
  {
    assert y * r - x * r == (y - x) * r;
  }

  /** Every product `q * r` is a multiple of `r`. */
  lemma MultipleOfProduct(q: int, r: int)
    requires r > 0
    ensures IsMultiple(q * r, r)
  {
    var m := q * r;
    var d := m / r;
    assert m == d * r + m % r;
    assert (q - d) * r == m % r;
    if q - d >= 1 {
      MulMonotone(1, q - d, r);
    } else if q - d <= -1 {
      MulMonotone(q - d, -1, r);
    }
  }

  /** Within less than one window of a multiple `c` of `r`, `c` is the only multiple. */
  lemma MultipleWithinWindow(a: int, c: int, r: int)
    requires r > 0 && IsMultiple(c, r)
    requires c - r < a < c + r
    ensures IsMultiple(a, r) <==> a == c
  {
    if IsMultiple(a, r) && a < c {
      MultiplesApart(a, c, r);
    } else if IsMultiple(a, r) && c < a {
      MultiplesApart(c, a, r);
    }
  }

  /** Two different multiples of `r` are at least `r` apart. */
  lemma MultiplesApart(m1: int, m2: int, r: int)
    requires r > 0 && IsMultiple(m1, r) && IsMultiple(m2, r) && m1 < m2
    ensures m1 + r <= m2
  {
    var p1, p2 := m1 / r, m2 / r;
    assert m1 == p1 * r && m2 == p2 * r;
    if p2 <= p1 {
      MulMonotone(p2, p1, r);
    }
    MulMonotone(p1 + 1, p2, r);
  }

  // ---------------------------------------------------------------------------
  // Bucket keys

  /**
   The key of the window holding `at`: `at` itself when it is a multiple of the
   resolution, otherwise `((at / r) + 1) * r` with Go's truncating operators.
   */
  function BucketKey(at: int, r: int): (k: int)
    requires r > 0
    ensures IsMultiple(k, r)
    ensures at <= k
  {
    if GoMod(at, r) != 0 then
      MultipleOfProduct(GoDiv(at, r) + 1, r);
      (GoDiv(at, r) + 1) * r
    else
      at
  }

  /** An instant that already lies on a window boundary is its own key. */
  lemma BucketKeyOfMultiple(at: int, r: int)
    requires r > 0 && IsMultiple(at, r)
    ensures BucketKey(at, r) == at
  {
  }

  /** Rounding is idempotent: a key is its own key. */
  lemma BucketKeyIdempotent(at: int, r: int)
    requires r > 0
    ensures BucketKey(BucketKey(at, r), r) == BucketKey(at, r)
  {
    BucketKeyOfMultiple(BucketKey(at, r), r);
  }

  /** For instants at or after the epoch, the key lies less than one window after the instant. */
  lemma BucketKeyTight(at: int, r: int)
    requires r > 0 && at >= 0
    ensures at <= BucketKey(at, r) < at + r
  {
    var q := GoDiv(at, r);
    assert (q + 1) * r == q * r + r;
  }

  /** For instants at or after the epoch, the key is the least multiple of `r` that is not before `at`. */
  lemma BucketKeyLeast(at: int, r: int, m: int)
    requires r > 0 && at >= 0
    requires IsMultiple(m, r) && at <= m
    ensures BucketKey(at, r) <= m
  {
    var k := BucketKey(at, r);
    BucketKeyTight(at, r);
    if m < k {
      MultiplesApart(m, k, r);
    }
  }

  /** For instants at or after the epoch, rounding is monotonic. */
  lemma BucketKeyMonotone(at1: int, at2: int, r: int)
    requires r > 0 && 0 <= at1 <= at2
    ensures BucketKey(at1, r) <= BucketKey(at2, r)
  {
    BucketKeyLeast(at1, r, BucketKey(at2, r));
  }

  /**
   Two instants at or after the epoch share a key exactly when no window
   boundary separates them: no multiple of `r` lies in `[at1, at2)`.
   */
  lemma SameBucketIffNoBoundary(at1: int, at2: int, r: int)
    requires r > 0 && 0 <= at1 <= at2
    ensures BucketKey(at1, r) == BucketKey(at2, r) <==>
            forall m :: at1 <= m < at2 ==> !IsMultiple(m, r)
  {
    var k1, k2 := BucketKey(at1, r), BucketKey(at2, r);
    if k1 == k2 {
      forall m | at1 <= m < at2 && IsMultiple(m, r)
        ensures false
      {
        BucketKeyLeast(at1, r, m);
      }
    }
    if forall m :: at1 <= m < at2 ==> !IsMultiple(m, r) {
      BucketKeyMonotone(at1, at2, r);
      BucketKeyLeast(at2, r, k1);
    }
  }

  /**
   Before the epoch, truncating division makes an instant that is not on a
   boundary round past the nearest boundary: `BucketKey(at, r) - r` is the least
   multiple of `r` not before `at`, so the key is more than one window late.
   */
  lemma BucketKeyOvershootsBeforeEpoch(at: int, r: int)
    requires r > 0 && at < 0 && !IsMultiple(at, r)
    ensures IsMultiple(BucketKey(at, r) - r, r)
    ensures at < BucketKey(at, r) - r < at + r
    ensures at + r < BucketKey(at, r)
  {
    var q := GoDiv(at, r);
    assert (q + 1) * r - r == q * r;
    MultipleOfProduct(q, r);
  }

  /** A concrete case where rounding before the epoch is not monotonic: with r = 10, -5 rounds to 10 but 0 rounds to 0. */
  lemma BucketKeyNotMonotoneBeforeEpoch()
    ensures BucketKey(-5, 10) == 10 && BucketKey(0, 10) == 0
  {
  }

  // ---------------------------------------------------------------------------
  // Resolution and jitter

  /** The effective resolution: the configured value when nonzero, otherwise 100ms. */
  function ResolutionFor(configured: int): (r: int)
    ensures r != 0
    ensures r > 0 <==> configured >= 0
    ensures configured != 0 ==> r == configured
    ensures configured == 0 ==> r == DefaultResolution
  {
    if configured != 0 then configured else DefaultResolution
  }

  /**
   The expiration of a new bucket: its boundary `t` plus a jitter `j` drawn
   from `[0, d)` (the random draw itself is the parameter `j`).
   */
  function JitterTime(t: int, d: int, j: int): (e: int)
    requires 0 <= j < d
    ensures t <= e < t + d
  {
    t + j
  }

  /**
   The bucket created for an instant `at` at or after the epoch expires no
   earlier than `at` and less than two windows after it.
   */
  lemma ExpirationBounds(at: int, r: int, j: int)
    requires r > 0 && at >= 0 && 0 <= j < r
    ensures at <= JitterTime(BucketKey(at, r), r, j) < at + 2 * r
  {
    BucketKeyTight(at, r);
  }

  /**
   A new bucket's expiration can lie more than one window after the requested
   instant: rounding up and the jitter each add up to one window.
   */
  lemma ExpiryCanExceedOneWindow(at: int, r: int)
    requires r > 0 && at >= 0 && at + 2 <= BucketKey(at, r)
    ensures at + r < JitterTime(BucketKey(at, r), r, r - 1)
  {
  }

  /** With `r = 10`, the instant 1 gets key 10 and, with jitter 9, expires at 19, past 1 + 10. */
  lemma ExpiryOvershootExample()
    ensures BucketKey(1, 10) == 10 && JitterTime(BucketKey(1, 10), 10, 9) == 19
    ensures JitterTime(BucketKey(1, 10), 10, 9) > 1 + 10
  {
  }

  /**
   Two buckets with different keys never share an expiration: the jitter keeps
   each expiration inside its own window.
   */
  lemma WindowsDisjoint(k1: int, k2: int, r: int, e: int)
    requires r > 0 && IsMultiple(k1, r) && IsMultiple(k2, r)
    requires k1 <= e < k1 + r && k2 <= e < k2 + r
    ensures k1 == k2
  {
    if k1 < k2 {
      MultiplesApart(k1, k2, r);
    } else if k2 < k1 {
      MultiplesApart(k2, k1, r);
    }
  }

  // ---------------------------------------------------------------------------
  // Staleness and the cleanup schedule

  /** A bucket is stale once `now` is past its deadline plus one window of grace. */
  predicate Expired(deadline: int, now: int, r: int)
  {
    now > deadline + r
  }

  /** The sweep never removes a bucket whose own deadline has not yet passed. */
  lemma NotExpiredBeforeDeadline(deadline: int, now: int, r: int)
    requires r > 0 && now <= deadline
    ensures !Expired(deadline, now, r)
  {
  }

  /** The time at which the sweep after the one due at `last` becomes due. */
  function NextCleanupTime(last: int, r: int): (next: int)
    requires r > 0
    ensures next > last
    ensures next - last == CleanupWindows * r
  {
    last + CleanupWindows * r
  }

  /** The due test: the stored cleanup time is before `now`. */
  predicate CleanupDue(cleanupTime: int, now: int)
  {
    cleanupTime < now
  }

  /**
   How many consecutive calls that run the sweep gate at the same `now`, with
   the gate free, each perform a sweep when the stored cleanup time starts at
   `cleanupTime`: every sweep advances the stored time by one cleanup interval,
   not to `now` plus an interval, so a stored time far behind `now` lets many
   calls in a row sweep.
   */
  function SweepsWhileBehind(cleanupTime: int, now: int, r: int): (n: nat)
    requires r > 0
    ensures cleanupTime + n * (CleanupWindows * r) >= now
    ensures CleanupDue(cleanupTime, now) ==> cleanupTime + (n - 1) * (CleanupWindows * r) < now
    ensures !CleanupDue(cleanupTime, now) ==> n == 0
    decreases now - cleanupTime
  {
    if CleanupDue(cleanupTime, now) then
      var rest := SweepsWhileBehind(NextCleanupTime(cleanupTime, r), now, r);
      assert (rest + 1) * (CleanupWindows * r) == rest * (CleanupWindows * r) + CleanupWindows * r;
      rest + 1
    else
      0
  }
}
