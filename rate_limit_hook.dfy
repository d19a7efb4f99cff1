/** The client-side window counter of hooks/use-rate-limit.ts, used by the
    contact form (3 per 5 minutes) and the feedback widget (5 per 5 minutes).
    Browser storage is a map from keys to window records (the JSON encoding
    is left out); the caller's identifier and the clock are parameters. */
module RateLimitHook {
  import opened Wrappers
  import RateLimiting

  /** The stored record: requests admitted so far and the end of the window. */
  datatype Window = Window(count: int, resetTime: int)

  /** The verdict of one check: admitted with the record to write back, or
      refused with the number of seconds the message asks the user to wait. */
  datatype Verdict = Allowed(window: Window) | Denied(waitSeconds: int)

  /** The storage key: `rate_limit_` followed by `identifier:action`. */
  function StorageKey(identifier: string, action: string): (k: string)
    ensures k == "rate_limit_" + RateLimiting.Key(identifier, action)
  {
    "rate_limit_" + identifier + ":" + action
  }

  /** `Math.ceil(d / k)` for a positive divisor. */
  function CeilDiv(d: int, k: int): (q: int)
    requires k > 0
    ensures (q - 1) * k < d <= q * k
  {
    var f := (-d) / k;
    assert (-d) == f * k + (-d) % k;
    -f
  }

  /** The record the check works on: a missing record counts as an empty
      window starting now, and a record whose window has ended is replaced
      by one. */
  function Effective(stored: Option<Window>, now: int, windowMs: int): (w: Window)
    ensures w == Window(0, now + windowMs) || (stored == Some(w) && now <= w.resetTime)
  {
    var data := if stored.Some? then stored.value else Window(0, now + windowMs);
    if now > data.resetTime then Window(0, now + windowMs) else data
  }

  /** `checkRateLimit` as a function of the stored record. */
  function Check(stored: Option<Window>, now: int, maxRequests: int, windowMs: int): (v: Verdict)
    ensures v.Allowed? ==> v.window.count <= maxRequests && v.window.resetTime == Effective(stored, now, windowMs).resetTime
    ensures v.Allowed? && (stored.None? || stored.value.count >= 0) ==> v.window.count >= 1
    ensures v.Denied? ==> Effective(stored, now, windowMs).count >= maxRequests
  {
    var data := Effective(stored, now, windowMs);
    if data.count >= maxRequests then Denied(CeilDiv(data.resetTime - now, 1000))
    else Allowed(Window(data.count + 1, data.resetTime))
  }

  // ---------------------------------------------------------------------
  // Properties of one check

  /** A missing record is an empty window ending `windowMs` from now, and so
      is a record whose window has ended; a live record is used as stored. */
  lemma EffectiveWindow(stored: Option<Window>, now: int, windowMs: int)
    ensures stored.None? ==> Effective(stored, now, windowMs) == Window(0, now + windowMs)
    ensures stored.Some? && now > stored.value.resetTime ==> Effective(stored, now, windowMs) == Window(0, now + windowMs)
    ensures stored.Some? && now <= stored.value.resetTime ==> Effective(stored, now, windowMs) == stored.value
  {
  }

  /** The check refuses exactly when the (possibly renewed) count has reached
      the limit; otherwise it writes back one more request in the same window. */
  lemma CheckDecides(stored: Option<Window>, now: int, maxRequests: int, windowMs: int)
    ensures Check(stored, now, maxRequests, windowMs).Denied?
        <==> Effective(stored, now, windowMs).count >= maxRequests
    ensures Check(stored, now, maxRequests, windowMs).Allowed? ==>
              Check(stored, now, maxRequests, windowMs).window
              == Effective(stored, now, windowMs).(count := Effective(stored, now, windowMs).count + 1)
  {
  }

  /** A written-back count never exceeds the limit, and is at least 1 when
      the stored count was not negative. */
  lemma AllowedWithinLimit(stored: Option<Window>, now: int, maxRequests: int, windowMs: int)
    requires stored.Some? ==> stored.value.count >= 0
    ensures Check(stored, now, maxRequests, windowMs).Allowed? ==>
              1 <= Check(stored, now, maxRequests, windowMs).window.count <= maxRequests
  {
  }

  /** The wait in the refusal message is the time left in the window rounded
      up to whole seconds, never negative for a non-negative window length. */
  lemma WaitIsTimeLeft(stored: Option<Window>, now: int, maxRequests: int, windowMs: int)
    requires windowMs >= 0
    requires Check(stored, now, maxRequests, windowMs).Denied?
    ensures var left := Effective(stored, now, windowMs).resetTime - now;
            var n := Check(stored, now, maxRequests, windowMs).waitSeconds;
            left >= 0 && n >= 0 && (n - 1) * 1000 < left <= n * 1000
  {
    var left := Effective(stored, now, windowMs).resetTime - now;
    var n := CeilDiv(left, 1000);
    assert left >= 0;
  }

  /** For a limit of at least 1 this counter admits exactly when the
      in-memory limiter of lib/rate-limit/rate-limiter.ts would on the same
      record, and writes back the record the limiter would store. (With a
      limit below 1 the two part: the limiter still admits the first request
      of a window, this counter admits nothing.) */
  lemma {:induction false} AgreesWithLimiter(stored: Option<Window>, key: string, now: int, maxRequests: int, windowMs: int)
    requires maxRequests >= 1
    ensures var s: RateLimiting.Store :=
              if stored.Some? then map[key := RateLimiting.Entry(stored.value.count, stored.value.resetTime)] else map[];
            var d := RateLimiting.Admit(s, key, now, maxRequests, windowMs);
            var v := Check(stored, now, maxRequests, windowMs);
            v.Allowed? == d.allowed &&
            (v.Allowed? ==> key in d.store && d.store[key] == RateLimiting.Entry(v.window.count, v.window.resetTime))
  {
    var s: RateLimiting.Store :=
      if stored.Some? then map[key := RateLimiting.Entry(stored.value.count, stored.value.resetTime)] else map[];
    if stored.Some? {
      assert key in s && s[key] == RateLimiting.Entry(stored.value.count, stored.value.resetTime);
    } else {
      assert key !in s;
    }
  }

  /** With a limit below 1 the hook refuses a first request that the
      in-memory limiter admits. */
  lemma DiffersFromLimiterBelowOne(key: string, now: int, windowMs: int)
    ensures Check(None, now, 0, windowMs).Denied?
    ensures RateLimiting.Admit(map[], key, now, 0, windowMs).allowed
  {
  }

  // ---------------------------------------------------------------------
  // Browser storage and the hook

  /** The browser's key-value storage, shared by every hook on the page. */
  class LocalStorage {
    var items: map<string, Window>

    constructor ()
      ensures items == map[]
    {
      items := map[];
    }
  }

  /** One `useRateLimit` hook: its options and its `isLimited` state. */
  class RateLimitHook {
    const maxRequests: int
    const windowMs: int
    const action: string
    var isLimited: bool

    constructor (maxRequests: int, windowMs: int, action: string)
      ensures this.maxRequests == maxRequests && this.windowMs == windowMs && this.action == action
      ensures !isLimited
    {
      this.maxRequests := maxRequests;
      this.windowMs := windowMs;
      this.action := action;
      isLimited := false;
    }

    /** `checkRateLimit`: on a refusal sets `isLimited`, reports the wait and
        writes nothing; on admission writes the record back and clears
        `isLimited`. No other key of the storage changes. */
    method CheckRateLimit(storage: LocalStorage, identifier: string, now: int)
      returns (allowed: bool, waitSeconds: Option<int>)
      modifies this, storage
      ensures var key := StorageKey(identifier, action);
              var stored := if key in old(storage.items) then Some(old(storage.items)[key]) else None;
              var v := Check(stored, now, maxRequests, windowMs);
              allowed == v.Allowed? && isLimited == !allowed &&
              (v.Allowed? ==> storage.items == old(storage.items)[key := v.window] && waitSeconds == None) &&
              (v.Denied? ==> storage.items == old(storage.items) && waitSeconds == Some(v.waitSeconds))
    {
      var key := StorageKey(identifier, action);
      var data := if key in storage.items then storage.items[key] else Window(0, now + windowMs);
      if now > data.resetTime {
        data := Window(0, now + windowMs);
      }
      if data.count >= maxRequests {
        var remainingTime := CeilDiv(data.resetTime - now, 1000);
        isLimited := true;
        return false, Some(remainingTime);
      }
      data := data.(count := data.count + 1);
      storage.items := storage.items[key := data];
      isLimited := false;
      return true, None;
    }
  }

  // ---------------------------------------------------------------------
  // A run of checks on one key

  /** The verdicts and the final stored record of checks on one key at the
      given times. */
  function Run(stored: Option<Window>, times: seq<int>, maxRequests: int, windowMs: int): (seq<bool>, Option<Window>)
    decreases |times|
  {
    if times == [] then ([], stored)
    else
      var v := Check(stored, times[0], maxRequests, windowMs);
      var next := if v.Allowed? then Some(v.window) else stored;
      var (rest, last) := Run(next, times[1..], maxRequests, windowMs);
      ([v.Allowed?] + rest, last)
  }

  /** A record is written only by an admitted check: a run that admits
      nothing leaves a missing record missing. */
  lemma {:induction false} NothingPersistedUntilAllowed(times: seq<int>, maxRequests: int, windowMs: int)
    requires forall i :: 0 <= i < |Run(None, times, maxRequests, windowMs).0| ==> !Run(None, times, maxRequests, windowMs).0[i]
    ensures Run(None, times, maxRequests, windowMs).1 == None
    decreases |times|
  {
    if times != [] {
      var v := Check(None, times[0], maxRequests, windowMs);
      assert Run(None, times, maxRequests, windowMs).0[0] == v.Allowed?;
      var (rest, last) := Run(None, times[1..], maxRequests, windowMs);
      forall i | 0 <= i < |rest| ensures !rest[i] {
        assert rest[i] == Run(None, times, maxRequests, windowMs).0[i + 1];
      }
      NothingPersistedUntilAllowed(times[1..], maxRequests, windowMs);
    }
  }

  /** A run yields one verdict per check. */
  lemma {:induction false} RunLength(stored: Option<Window>, times: seq<int>, maxRequests: int, windowMs: int)
    ensures |Run(stored, times, maxRequests, windowMs).0| == |times|
    decreases |times|
  {
    if times != [] {
      var v := Check(stored, times[0], maxRequests, windowMs);
      var next := if v.Allowed? then Some(v.window) else stored;
      RunLength(next, times[1..], maxRequests, windowMs);
    }
  }

  /** Checks inside a window ending at `resetTime` that already holds `used`
      requests: the first ones up to the limit are admitted, the rest refused. */
  lemma {:induction false} InWindow(times: seq<int>, used: int, resetTime: int, maxRequests: int, windowMs: int)
    requires 1 <= used
    requires forall i :: 0 <= i < |times| ==> times[i] <= resetTime
    ensures |Run(Some(Window(used, resetTime)), times, maxRequests, windowMs).0| == |times|
    ensures forall i :: 0 <= i < |times| ==>
              Run(Some(Window(used, resetTime)), times, maxRequests, windowMs).0[i] == (used + i < maxRequests)
    decreases |times|
  {
    var stored := Some(Window(used, resetTime));
    RunLength(stored, times, maxRequests, windowMs);
    if times != [] {
      assert Effective(stored, times[0], windowMs) == Window(used, resetTime);
      var used' := if used < maxRequests then used + 1 else used;
      var v := Check(stored, times[0], maxRequests, windowMs);
      var next := if v.Allowed? then Some(v.window) else stored;
      assert next == Some(Window(used', resetTime));
      InWindow(times[1..], used', resetTime, maxRequests, windowMs);
      var rest := Run(next, times[1..], maxRequests, windowMs).0;
      forall i | 0 <= i < |times|
        ensures Run(stored, times, maxRequests, windowMs).0[i] == (used + i < maxRequests)
      {
        if i > 0 {
          assert Run(stored, times, maxRequests, windowMs).0[i] == rest[i - 1];
        }
      }
    }
  }

  /** Within the window a fresh key opens with its first check, the first
      `maxRequests` checks are admitted and every later one is refused. */
  lemma FirstMaxRequestsAdmitted(times: seq<int>, maxRequests: int, windowMs: int)
    requires |times| > 0
    requires forall i :: 0 <= i < |times| ==> times[i] <= times[0] + windowMs
    ensures |Run(None, times, maxRequests, windowMs).0| == |times|
    ensures forall i :: 0 <= i < |times| ==> Run(None, times, maxRequests, windowMs).0[i] == (i < maxRequests)
  {
    RunLength(None, times, maxRequests, windowMs);
    var v := Check(None, times[0], maxRequests, windowMs);
    var next := if v.Allowed? then Some(v.window) else None;
    var rest := Run(next, times[1..], maxRequests, windowMs).0;
    if maxRequests >= 1 {
      assert next == Some(Window(1, times[0] + windowMs));
      InWindow(times[1..], 1, times[0] + windowMs, maxRequests, windowMs);
    } else {
      NoneStaysRefused(times[1..], maxRequests, windowMs);
    }
    forall i | 0 <= i < |times|
      ensures Run(None, times, maxRequests, windowMs).0[i] == (i < maxRequests)
    {
      if i > 0 {
        assert Run(None, times, maxRequests, windowMs).0[i] == rest[i - 1];
      }
    }
  }

  /** With a limit below 1 every check of a missing record is refused. */
  lemma {:induction false} NoneStaysRefused(times: seq<int>, maxRequests: int, windowMs: int)
    requires maxRequests < 1
    ensures |Run(None, times, maxRequests, windowMs).0| == |times|
    ensures forall i :: 0 <= i < |times| ==> !Run(None, times, maxRequests, windowMs).0[i]
    decreases |times|
  {
    if times != [] {
      NoneStaysRefused(times[1..], maxRequests, windowMs);
      var rest := Run(None, times[1..], maxRequests, windowMs).0;
      forall i | 0 <= i < |times| ensures !Run(None, times, maxRequests, windowMs).0[i] {
        if i > 0 {
          assert Run(None, times, maxRequests, windowMs).0[i] == rest[i - 1];
        }
      }
    }
  }
}
