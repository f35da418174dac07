/**
 The deadline-sharing cache. A Timeline maps bucket keys to shared entries;
 every deadline that rounds to the same key gets the same entry. A lookup that
 misses creates the entry and may then run a throttled sweep that cancels and
 removes stale entries; `Cancel` cancels every entry and empties the map.

 The model is sequential: the read/write mutex and the atomic loads, stores and
 compare-and-swap become plain reads and writes of fields.
 */
module Timelines {
  import opened Buckets

  /**
   A shared deadline handle: the context a bucket hands out, reduced to its
   deadline and whether its cancel function has been called. Handles are
   compared by identity, as Go compares the contexts it hands out.
   */
  class Entry {
    const deadline: int
    var cancelled: bool

    /** A fresh, live handle expiring at `deadline`. */
    constructor (deadline: int)
      ensures this.deadline == deadline && !cancelled
    {
      this.deadline := deadline;
      cancelled := false;
    }

    /** The handle's cancel function; calling it again has no further effect. */
    method Cancel()
      modifies this
      ensures cancelled
    {
      cancelled := true;
    }
  }

  /** The buckets of `m` that a sweep at `now` keeps: those not yet stale. */
  function Swept(m: map<int, Entry>, now: int, r: int): (kept: map<int, Entry>)
  {
    map k | k in m && !Expired(m[k].deadline, now, r) :: m[k]
  }

  /** A sweep keeps every bucket whose deadline plus one window has not passed, with the same handle. */
  lemma SweptKeepsLive(m: map<int, Entry>, now: int, r: int, k: int)
    requires k in m && m[k].deadline + r >= now
    ensures k in Swept(m, now, r) && Swept(m, now, r)[k] == m[k]
  {
  }

  /** Sweeping twice at the same instant removes nothing more. */
  lemma SweptIdempotent(m: map<int, Entry>, now: int, r: int)
    ensures Swept(Swept(m, now, r), now, r) == Swept(m, now, r)
  {
  }

  /** A later sweep keeps no bucket that an earlier one removed. */
  lemma SweptShrinksOverTime(m: map<int, Entry>, now1: int, now2: int, r: int)
    requires now1 <= now2
    ensures Swept(m, now2, r).Keys <= Swept(m, now1, r).Keys
  {
    forall k | k in Swept(m, now2, r)
      ensures k in Swept(m, now1, r)
    {
      assert !Expired(m[k].deadline, now1, r);
    }
  }

  /**
   After a sweep at `now`, every key left in a well-formed map (each deadline
   inside its own window) is later than `now - 2 * r`: stale windows are gone.
   */
  lemma SweptKeysRecent(m: map<int, Entry>, now: int, r: int)
    requires r > 0
    requires forall k :: k in m ==> k <= m[k].deadline < k + r
    ensures forall k :: k in Swept(m, now, r) ==> k > now - 2 * r
  {
    forall k | k in Swept(m, now, r)
      ensures k > now - 2 * r
    {
      assert !Expired(m[k].deadline, now, r);
    }
  }

  class Timeline {
    /** The configured resolution in nanoseconds; zero selects the default. */
    const configured: int
    var deadlines: map<int, Entry>
    var cleanupTime: int
    var cleanupLock: int
    /** Every handle this timeline has ever handed out. */
    ghost var Issued: set<Entry>

    /** The effective resolution: the configured one, or 100ms when none is configured. */
    function Resolution(): (r: int)
      reads this
      ensures configured != 0 ==> r == configured
      ensures configured == 0 ==> r == DefaultResolution
      ensures r > 0 <==> configured >= 0
    {
      ResolutionFor(configured)
    }

    /**
     The cache invariant: every key is a window boundary and holds a live handle
     whose deadline lies inside that window; distinct keys hold distinct
     handles; and every handle ever issued is either still in the map or cancelled.
     */
    ghost predicate Valid()
      reads this, Issued
    {
      && Resolution() > 0
      && (forall k :: k in deadlines ==> deadlines[k] in Issued)
      && (forall k :: k in deadlines ==>
            && IsMultiple(k, Resolution())
            && k <= deadlines[k].deadline < k + Resolution()
            && !deadlines[k].cancelled)
      && (forall k1, k2 :: k1 in deadlines && k2 in deadlines && k1 != k2 ==> deadlines[k1] != deadlines[k2])
      && (forall x :: x in Issued ==> Stored(x) || x.cancelled)
    }

    /** The handle `x` is stored under some key. */
    ghost predicate Stored(x: Entry)
      reads this
    {
      exists k :: k in deadlines && deadlines[k] == x
    }

    /** A zero-valued timeline with the given configured resolution. */
    constructor (configured: int)
      requires ResolutionFor(configured) > 0
      ensures Valid()
      ensures this.configured == configured
      ensures deadlines == map[] && cleanupTime == 0 && cleanupLock == 0 && Issued == {}
    {
      this.configured := configured;
      deadlines := map[];
      cleanupTime := 0;
      cleanupLock := 0;
      Issued := {};
    }

    /** The non-blocking sweep gate: succeeds exactly when it is free, and then takes it. */
    method TryLockCleanup() returns (won: bool)
      modifies this`cleanupLock
      ensures won <==> old(cleanupLock) == 0
      ensures cleanupLock == if won then 1 else old(cleanupLock)
    {
      won := cleanupLock == 0;
      if won {
        cleanupLock := 1;
      }
    }

    /** Releases the sweep gate. */
    method UnlockCleanup()
      modifies this`cleanupLock
      ensures cleanupLock == 0
    {
      cleanupLock := 0;
    }

    /**
     Cancels and removes exactly the stale buckets: those whose deadline plus one
     window is before `now`. Every other bucket stays, with the same handle, live.
     */
    method Cleanup(now: int)
      requires Valid()
      modifies this`deadlines, Issued
      ensures Valid()
      ensures forall x :: x in old(Issued) && old(x.cancelled) ==> x.cancelled
      ensures deadlines == Swept(old(deadlines), now, Resolution())
      ensures forall k :: k in old(deadlines) ==>
                old(deadlines)[k].cancelled == Expired(old(deadlines)[k].deadline, now, Resolution())
    {
      var r := Resolution();
      ghost var start := deadlines;
      var todo := deadlines.Keys;
      while exists k :: k in todo
        invariant todo <= start.Keys
        invariant forall k :: k in deadlines <==> k in start && (k in todo || !Expired(start[k].deadline, now, r))
        invariant forall k :: k in deadlines ==> deadlines[k] == start[k]
        invariant forall k :: k in start ==> start[k].cancelled == (k !in todo && Expired(start[k].deadline, now, r))
        invariant Valid()
        invariant forall x :: x in Issued && old(x.cancelled) ==> x.cancelled
        decreases |todo|
      {
        var k :| k in todo;
        if Expired(deadlines[k].deadline, now, r) {
          Evict(k);
        }
        todo := todo - {k};
      }
      forall k
        ensures k in deadlines <==> k in Swept(start, now, r)
      {
        assert k !in todo;
      }
      assert forall k :: k in deadlines ==> deadlines[k] == Swept(start, now, r)[k];
      assert deadlines == Swept(start, now, r);
    }

    /** Cancels the handle stored under `k` and removes it from the map. */
    method Evict(k: int)
      requires Valid() && k in deadlines
      modifies this`deadlines, deadlines[k]
      ensures Valid()
      ensures deadlines == old(deadlines) - {k}
      ensures old(deadlines)[k].cancelled
    {
      ghost var before := deadlines;
      ghost var live := set x | x in Issued && !x.cancelled;
      deadlines[k].Cancel();
      deadlines := deadlines - {k};
      forall x | x in Issued && !x.cancelled
        ensures Stored(x)
      {
        assert x in live;
        var k' :| k' in before && before[k'] == x;
        assert k' != k && deadlines[k'] == x;
      }
    }

    /** Stores a new live handle under a key that has none (Go's nil map is the empty map here). */
    method Insert(k: int, e: Entry)
      requires Valid() && k !in deadlines && e !in Issued && !e.cancelled
      requires IsMultiple(k, Resolution()) && k <= e.deadline < k + Resolution()
      modifies this`deadlines, this`Issued
      ensures Valid()
      ensures deadlines == old(deadlines)[k := e] && Issued == old(Issued) + {e}
    {
      ghost var before := deadlines;
      deadlines := deadlines[k := e];
      Issued := Issued + {e};
      forall x | x in Issued && !x.cancelled
        ensures Stored(x)
      {
        if x != e {
          var k' :| k' in before && before[k'] == x;
          assert k' != k && k' in deadlines && deadlines[k'] == x;
        } else {
          assert deadlines[k] == e;
        }
      }
    }

    /**
     The throttled sweep: when the stored cleanup time is before `now` and the
     sweep gate is free, takes the gate, stores the next cleanup time (one
     cleanup interval after the stored one, not after `now`), sweeps at `now`
     and releases the gate. Otherwise nothing changes.
     */
    method SweepIfDue(now: int)
      requires Valid()
      modifies this`deadlines, this`cleanupTime, this`cleanupLock, Issued
      ensures Valid()
      ensures forall x :: x in old(Issued) && old(x.cancelled) ==> x.cancelled
      ensures cleanupLock == old(cleanupLock)
      ensures if CleanupDue(old(cleanupTime), now) && old(cleanupLock) == 0 then
                && cleanupTime == NextCleanupTime(old(cleanupTime), Resolution())
                && deadlines == Swept(old(deadlines), now, Resolution())
                && forall k :: k in old(deadlines) ==>
                     old(deadlines)[k].cancelled == Expired(old(deadlines)[k].deadline, now, Resolution())
              else
                && cleanupTime == old(cleanupTime)
                && deadlines == old(deadlines)
    {
      // The stored time is an int64 nanosecond count, so it never stands for
      // Go's zero Time: the due test reduces to "before now".
      var last := cleanupTime;
      if CleanupDue(last, now) {
        var won := TryLockCleanup();
        if won {
          cleanupTime := NextCleanupTime(last, Resolution());
          Cleanup(now);
          UnlockCleanup();
        }
      }
    }

    /**
     Returns the shared handle for the window of `at`. On a hit the handle already
     stored is returned and nothing changes. On a miss one new handle, expiring at
     the key plus the jitter `j`, is stored under the key; then, if the stored
     cleanup time is before `now` and the sweep gate is free, the next cleanup time
     is advanced by one cleanup interval and a sweep at `now` runs, which may
     remove (and cancel) the new handle too when it is already stale.
     */
    method Context(at: int, now: int, j: int) returns (e: Entry)
      requires Valid()
      requires 0 <= j < Resolution()
      modifies this, Issued
      ensures Valid()
      ensures forall x :: x in old(Issued) && old(x.cancelled) ==> x.cancelled
      ensures e in Issued
      ensures BucketKey(at, Resolution()) <= e.deadline < BucketKey(at, Resolution()) + Resolution()
      ensures cleanupLock == old(cleanupLock)
      ensures forall k :: k in deadlines ==>
                (k in old(deadlines) && deadlines[k] == old(deadlines)[k]) || fresh(deadlines[k])
      ensures var k := BucketKey(at, Resolution());
              k in old(deadlines) ==>
                && e == old(deadlines)[k] && !e.cancelled
                && deadlines == old(deadlines) && Issued == old(Issued)
                && cleanupTime == old(cleanupTime)
      ensures var k := BucketKey(at, Resolution());
              k !in old(deadlines) ==>
                && fresh(e) && e.deadline == JitterTime(k, Resolution(), j)
                && Issued == old(Issued) + {e}
                && var inserted := old(deadlines)[k := e];
                   if CleanupDue(old(cleanupTime), now) && old(cleanupLock) == 0 then
                     && cleanupTime == NextCleanupTime(old(cleanupTime), Resolution())
                     && deadlines == Swept(inserted, now, Resolution())
                     && forall k' :: k' in inserted ==>
                          inserted[k'].cancelled == Expired(inserted[k'].deadline, now, Resolution())
                   else
                     && cleanupTime == old(cleanupTime)
                     && deadlines == inserted
                     && !e.cancelled
    {
      var r := Resolution();
      var k := BucketKey(at, r);
      if k in deadlines {
        // fast path
        e := deadlines[k];
        return;
      }
      e := new Entry(JitterTime(k, r, j));
      Insert(k, e);
      SweepIfDue(now);
    }

    /** The handle for the instant `d` nanoseconds after `now`. */
    method Timeout(d: int, now: int, j: int) returns (e: Entry)
      requires Valid()
      requires 0 <= j < Resolution()
      modifies this, Issued
      ensures Valid() && e in Issued
      ensures forall x :: x in old(Issued) && old(x.cancelled) ==> x.cancelled
      ensures cleanupLock == old(cleanupLock)
      ensures old(Issued) <= Issued && fresh(Issued - old(Issued))
      ensures BucketKey(now + d, Resolution()) <= e.deadline < BucketKey(now + d, Resolution()) + Resolution()
      ensures var k := BucketKey(now + d, Resolution());
              k in old(deadlines) ==>
                && e == old(deadlines)[k] && !e.cancelled
                && deadlines == old(deadlines) && Issued == old(Issued)
                && cleanupTime == old(cleanupTime)
      ensures BucketKey(now + d, Resolution()) !in old(deadlines) ==>
                fresh(e) && e.deadline == JitterTime(BucketKey(now + d, Resolution()), Resolution(), j)
                && Issued == old(Issued) + {e}
      ensures forall k :: k in deadlines ==>
                (k in old(deadlines) && deadlines[k] == old(deadlines)[k]) || fresh(deadlines[k])
    {
      e := Context(now + d, now, j);
    }

    /**
     Cancels every handle in the map and empties it. Afterwards every handle this
     timeline ever issued is cancelled, and the timeline remains usable.
     */
    method Cancel()
      requires Valid()
      modifies this`deadlines, Issued
      ensures Valid()
      ensures forall x :: x in old(Issued) && old(x.cancelled) ==> x.cancelled
      ensures deadlines == map[]
      ensures forall x :: x in Issued ==> x.cancelled
    {
      ghost var start := deadlines;
      var todo := deadlines.Keys;
      while exists k :: k in todo
        invariant todo <= deadlines.Keys
        invariant deadlines == start
        invariant forall k :: k in deadlines ==> deadlines[k].cancelled == (k !in todo)
        invariant forall x :: x in Issued ==> Stored(x) || x.cancelled
        invariant forall x :: x in Issued && old(x.cancelled) ==> x.cancelled
        decreases |todo|
      {
        var k :| k in todo;
        deadlines[k].Cancel();
        todo := todo - {k};
      }
      forall x | x in Issued
        ensures x.cancelled
      {
        if Stored(x) {
          var k :| k in deadlines && deadlines[k] == x;
        }
      }
      deadlines := map[];
    }
  }

  // ---------------------------------------------------------------------------
  // Client views: what callers of a Timeline can rely on

  /**
   Two requests whose instants share a bucket key get the very same handle,
   provided the first is made no later than one window after the key (a sweep
   in the first call could otherwise remove the new handle). The second call
   is a hit, so its own `now` does not matter.
   */
  method SameWindowSharesHandle(t: Timeline, at1: int, at2: int, now1: int, now2: int, j1: int, j2: int)
    returns (e1: Entry, e2: Entry)
    requires t.Valid() && 0 <= j1 < t.Resolution() && 0 <= j2 < t.Resolution()
    requires BucketKey(at1, t.Resolution()) == BucketKey(at2, t.Resolution())
    requires now1 <= BucketKey(at1, t.Resolution()) + t.Resolution()
    modifies t, t.Issued
    ensures t.Valid()
    ensures e1 == e2 && !e1.cancelled
  {
    e1 := t.Context(at1, now1, j1);
    var k := BucketKey(at1, t.Resolution());
    assert k in t.deadlines && t.deadlines[k] == e1;
    e2 := t.Context(at2, now2, j2);
  }

  /** Two requests whose instants have different bucket keys get different handles. */
  method DistinctWindowsDistinctHandles(t: Timeline, at1: int, at2: int, now1: int, now2: int, j1: int, j2: int)
    returns (e1: Entry, e2: Entry)
    requires t.Valid() && 0 <= j1 < t.Resolution() && 0 <= j2 < t.Resolution()
    requires BucketKey(at1, t.Resolution()) != BucketKey(at2, t.Resolution())
    modifies t, t.Issued
    ensures t.Valid()
    ensures e1 != e2 && e1.deadline != e2.deadline
  {
    var r := t.Resolution();
    e1 := t.Context(at1, now1, j1);
    e2 := t.Context(at2, now2, j2);
    if e1.deadline == e2.deadline {
      WindowsDisjoint(BucketKey(at1, r), BucketKey(at2, r), r, e1.deadline);
    }
  }

  /** Three timeouts of one, two and three seconds followed by `Cancel` leave all three handles cancelled. */
  method CancelCancelsEveryHandle(t: Timeline, now1: int, now2: int, now3: int, j1: int, j2: int, j3: int)
    returns (c1: Entry, c2: Entry, c3: Entry)
    requires t.Valid()
    requires 0 <= j1 < t.Resolution() && 0 <= j2 < t.Resolution() && 0 <= j3 < t.Resolution()
    modifies t, t.Issued
    ensures t.Valid() && t.deadlines == map[]
    ensures c1.cancelled && c2.cancelled && c3.cancelled
  {
    c1 := t.Timeout(1000 * Millisecond, now1, j1);
    c2 := t.Timeout(2000 * Millisecond, now2, j2);
    c3 := t.Timeout(3000 * Millisecond, now3, j3);
    t.Cancel();
  }

  /**
   Misses that keep arriving at the same `now` with the sweep gate free each
   run the throttled sweep until the stored cleanup time catches up with `now`:
   exactly `SweepsWhileBehind` of them sweep, and the stored time ends that many
   cleanup intervals later.
   */
  method SweepsUntilCaughtUp(t: Timeline, now: int) returns (count: nat)
    requires t.Valid() && t.cleanupLock == 0
    modifies t, t.Issued
    ensures t.Valid() && t.cleanupLock == 0
    ensures count == SweepsWhileBehind(old(t.cleanupTime), now, t.Resolution())
    ensures t.cleanupTime == old(t.cleanupTime) + count * (CleanupWindows * t.Resolution())
    ensures !CleanupDue(t.cleanupTime, now)
  {
    var r := t.Resolution();
    count := 0;
    while CleanupDue(t.cleanupTime, now)
      invariant t.Valid() && t.cleanupLock == 0 && t.Issued == old(t.Issued)
      invariant t.cleanupTime == old(t.cleanupTime) + count * (CleanupWindows * r)
      invariant count + SweepsWhileBehind(t.cleanupTime, now, r) == SweepsWhileBehind(old(t.cleanupTime), now, r)
      decreases now - t.cleanupTime
    {
      t.SweepIfDue(now);
      count := count + 1;
    }
  }

  /** After `Cancel` the timeline stays usable: the next request lazily creates a fresh, live handle. */
  method RequestAfterCancel(t: Timeline, at: int, now: int, j: int) returns (e: Entry)
    requires t.Valid() && 0 <= j < t.Resolution()
    requires now <= at
    modifies t, t.Issued
    ensures t.Valid() && fresh(e) && !e.cancelled
    ensures forall x :: x in old(t.Issued) ==> x.cancelled
  {
    t.Cancel();
    e := t.Context(at, now, j);
  }
}
