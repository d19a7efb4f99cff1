/** The fixed-window request throttle of lib/rate-limit/rate-limiter.ts.
    Each key `identifier:action` owns one window record; the record is
    dropped lazily once the clock has passed its reset time. */
module RateLimiting {

  /** One window: how many requests were admitted and when the window ends. */
  datatype Entry = Entry(count: int, resetTime: int)

  type Store = map<string, Entry>

  /** The storage key: the identifier and the action joined by a colon. */
  function Key(identifier: string, action: string): (k: string)
    ensures |k| == |identifier| + 1 + |action|
    ensures k[..|identifier|] == identifier && k[|identifier|] == ':' && k[|identifier| + 1..] == action
  {
    identifier + ":" + action
  }

  /** An entry is expired strictly after its reset time. */
  predicate Expired(e: Entry, now: int) {
    now > e.resetTime
  }

  /** The entries `cleanup` keeps: those that have not expired. */
  function Sweep(s: Store, now: int): (r: Store)
    ensures forall k :: k in r <==> k in s && !Expired(s[k], now)
    ensures forall k :: k in r ==> r[k] == s[k]
  {
    map k | k in s && !Expired(s[k], now) :: s[k]
  }

  /** The outcome of one admission decision: the verdict and the new store. */
  datatype Decision = Decision(allowed: bool, store: Store)

  /** The admission step of `isAllowed` after cleanup, on a given store. */
  function Admit(s: Store, key: string, now: int, maxRequests: int, windowMs: int): (d: Decision)
    ensures d.allowed <==> key !in s || Expired(s[key], now) || s[key].count < maxRequests
    ensures !d.allowed ==> d.store == s
    ensures key in d.store
    ensures forall k :: k != key ==> (k in d.store <==> k in s)
    ensures forall k :: k != key && k in s ==> d.store[k] == s[k]
  {
    if key !in s || Expired(s[key], now) then
      Decision(true, s[key := Entry(1, now + windowMs)])
    else if s[key].count >= maxRequests then
      Decision(false, s)
    else
      Decision(true, s[key := Entry(s[key].count + 1, s[key].resetTime)])
  }

  /** A whole `isAllowed` call when the clock reads `now` throughout. */
  function Call(s: Store, key: string, now: int, maxRequests: int, windowMs: int): (d: Decision)
    ensures forall k :: k != key ==> (k in d.store <==> k in s && !Expired(s[k], now))
    ensures forall k :: k != key && k in d.store ==> d.store[k] == s[k]
    ensures key in d.store
  {
    Admit(Sweep(s, now), key, now, maxRequests, windowMs)
  }

  /** What `getRemainingRequests` reports for a key. */
  function Remaining(s: Store, key: string, now: int, maxRequests: int): (r: int)
    ensures r >= 0 || r == maxRequests
    ensures (key !in s || Expired(s[key], now)) ==> r == maxRequests
    ensures key in s && !Expired(s[key], now) && s[key].count >= 1 ==> r < maxRequests || r == 0
  {
    if key !in s || Expired(s[key], now) then maxRequests
    else if maxRequests - s[key].count > 0 then maxRequests - s[key].count
    else 0
  }

  /** What `getResetTime` reports for a key: 0 when there is no live window. */
  function ResetAt(s: Store, key: string, now: int): (r: int)
    ensures key in s && !Expired(s[key], now) ==> r == s[key].resetTime && now <= r
    ensures !(key in s && !Expired(s[key], now)) ==> r == 0
  {
    if key !in s || Expired(s[key], now) then 0 else s[key].resetTime
  }

  function MaxOne(n: int): int { if n >= 1 then n else 1 }

  /** The store invariant: every stored count is at least 1 and at most the
      limit (a limit below 1 still lets the first request of a window in). */
  ghost predicate Bounded(s: Store, maxRequests: int) {
    forall k :: k in s ==> 1 <= s[k].count <= MaxOne(maxRequests)
  }

  // ---------------------------------------------------------------------
  // Properties of one call

  /** A key with no entry is admitted and gets a fresh window of count 1;
      no other key changes. */
  lemma AdmitFreshKey(s: Store, key: string, now: int, maxRequests: int, windowMs: int)
    requires key !in s
    ensures Admit(s, key, now, maxRequests, windowMs).allowed
    ensures Admit(s, key, now, maxRequests, windowMs).store == s[key := Entry(1, now + windowMs)]
  {
  }

  /** A live entry at its limit is refused and nothing in the store changes. */
  lemma AdmitDeniesAtLimit(s: Store, key: string, now: int, maxRequests: int, windowMs: int)
    requires key in s && !Expired(s[key], now) && s[key].count >= maxRequests
    ensures !Admit(s, key, now, maxRequests, windowMs).allowed
    ensures Admit(s, key, now, maxRequests, windowMs).store == s
  {
  }

  /** A live entry below its limit is admitted: its count goes up by one,
      its window end stays, and no other key changes. */
  lemma AdmitIncrements(s: Store, key: string, now: int, maxRequests: int, windowMs: int)
    requires key in s && !Expired(s[key], now) && s[key].count < maxRequests
    ensures Admit(s, key, now, maxRequests, windowMs).allowed
    ensures Admit(s, key, now, maxRequests, windowMs).store == s[key := Entry(s[key].count + 1, s[key].resetTime)]
  {
  }

  /** Admission keeps the store invariant. */
  lemma AdmitKeepsBound(s: Store, key: string, now: int, maxRequests: int, windowMs: int)
    requires Bounded(s, maxRequests)
    ensures Bounded(Admit(s, key, now, maxRequests, windowMs).store, maxRequests)
  {
    var d := Admit(s, key, now, maxRequests, windowMs);
    forall k | k in d.store ensures 1 <= d.store[k].count <= MaxOne(maxRequests) {
      if k != key {
        assert d.store[k] == s[k];
      }
    }
  }

  /** Admission touches no key but its own. */
  lemma AdmitFrames(s: Store, key: string, now: int, maxRequests: int, windowMs: int, other: string)
    requires other != key
    ensures other in Admit(s, key, now, maxRequests, windowMs).store <==> other in s
    ensures other in s ==> Admit(s, key, now, maxRequests, windowMs).store[other] == s[other]
  {
  }

  /** The remaining-requests query predicts the next admission at the same
      instant: with a limit of at least 1, the next call is admitted exactly
      when the query reports a positive number. */
  lemma RemainingPredictsAdmission(s: Store, key: string, now: int, maxRequests: int, windowMs: int)
    requires maxRequests >= 1
    ensures Call(s, key, now, maxRequests, windowMs).allowed <==> Remaining(s, key, now, maxRequests) > 0
  {
    var t := Sweep(s, now);
    if key in t {
      assert key in s && t[key] == s[key] && !Expired(s[key], now);
    } else {
      assert key !in s || Expired(s[key], now);
    }
  }

  /** After any call at time `now` with a non-negative window, the reset time
      the query reports is a live window end, at or after `now`. */
  lemma ResetAtAfterCall(s: Store, key: string, now: int, maxRequests: int, windowMs: int)
    requires windowMs >= 0
    requires Call(s, key, now, maxRequests, windowMs).allowed
    ensures ResetAt(Call(s, key, now, maxRequests, windowMs).store, key, now) >= now
    ensures key in Call(s, key, now, maxRequests, windowMs).store
    ensures ResetAt(Call(s, key, now, maxRequests, windowMs).store, key, now)
         == Call(s, key, now, maxRequests, windowMs).store[key].resetTime
  {
    var t := Sweep(s, now);
    if key in t {
      assert !Expired(t[key], now);
    }
  }

  /** An expired window is replaced: the next call is admitted with the count
      back at 1 and a window ending `windowMs` after now. */
  lemma ExpiredWindowResets(s: Store, key: string, now: int, maxRequests: int, windowMs: int)
    requires key in s && Expired(s[key], now)
    ensures Call(s, key, now, maxRequests, windowMs).allowed
    ensures Call(s, key, now, maxRequests, windowMs).store[key] == Entry(1, now + windowMs)
  {
    assert key !in Sweep(s, now);
  }

  /** Keys are plain concatenations, so distinct (identifier, action) pairs
      can share one counter. */
  lemma KeysCollide()
    ensures ("a:b", "c") != ("a", "b:c")
    ensures Key("a:b", "c") == Key("a", "b:c")
  {
    assert Key("a:b", "c") == "a:b:c";
    assert Key("a", "b:c") == "a:b:c";
  }

  /** Proof helper for the key lemmas: in a key whose identifier holds no
      colon, the first colon sits right after the identifier. */
  lemma FirstColonOfKey(identifier: string, action: string)
    requires ':' !in identifier
    ensures Key(identifier, action)[|identifier|] == ':'
    ensures forall j :: 0 <= j < |identifier| ==> Key(identifier, action)[j] != ':'
  {
    forall j | 0 <= j < |identifier| ensures Key(identifier, action)[j] != ':' {
      assert Key(identifier, action)[j] == identifier[j];
    }
  }

  /** When identifiers contain no colon, the key determines the pair. */
  lemma {:induction false} KeyInjectiveWithoutColon(i1: string, a1: string, i2: string, a2: string)
    requires ':' !in i1 && ':' !in i2
    requires Key(i1, a1) == Key(i2, a2)
    ensures i1 == i2 && a1 == a2
  {
    FirstColonOfKey(i1, a1);
    FirstColonOfKey(i2, a2);
    assert |i1| == |i2|;
    assert i1 == Key(i1, a1)[..|i1|];
    assert i2 == Key(i2, a2)[..|i2|];
    assert a1 == Key(i1, a1)[|i1| + 1..];
    assert a2 == Key(i2, a2)[|i2| + 1..];
  }

  // ---------------------------------------------------------------------
  // Properties of a burst of calls

  /** The verdicts and the final store of calls to one key at the given times. */
  function Burst(s: Store, key: string, times: seq<int>, maxRequests: int, windowMs: int): (seq<bool>, Store)
    decreases |times|
  {
    if times == [] then ([], s)
    else
      var d := Call(s, key, times[0], maxRequests, windowMs);
      var rest := Burst(d.store, key, times[1..], maxRequests, windowMs);
      ([d.allowed] + rest.0, rest.1)
  }

  /** Calls that fall inside the window opened at `start`, from a store whose
      entry holds `used` admitted requests: the first ones up to the limit
      are admitted, the rest refused, and the window end never moves. */
  lemma {:induction false} BurstInWindow(s: Store, key: string, times: seq<int>, maxRequests: int,
                                         windowMs: int, used: int, start: int)
    requires 1 <= used
    requires key in s && s[key] == Entry(used, start + windowMs)
    requires forall i :: 0 <= i < |times| ==> times[i] <= start + windowMs
    ensures |Burst(s, key, times, maxRequests, windowMs).0| == |times|
    ensures forall i :: 0 <= i < |times| ==>
              Burst(s, key, times, maxRequests, windowMs).0[i] == (used + i < maxRequests)
    ensures key in Burst(s, key, times, maxRequests, windowMs).1
    ensures Burst(s, key, times, maxRequests, windowMs).1[key].resetTime == start + windowMs
    ensures Burst(s, key, times, maxRequests, windowMs).1[key].count
         == if used >= maxRequests then used
            else if used + |times| < maxRequests then used + |times|
            else maxRequests
    decreases |times|
  {
    if times != [] {
      var t := Sweep(s, times[0]);
      assert key in t && t[key] == s[key];
      var d := Call(s, key, times[0], maxRequests, windowMs);
      var used' := if used < maxRequests then used + 1 else used;
      assert d.allowed == (used < maxRequests);
      assert d.store[key] == Entry(used', start + windowMs);
      BurstInWindow(d.store, key, times[1..], maxRequests, windowMs, used', start);
      var rest := Burst(d.store, key, times[1..], maxRequests, windowMs);
      forall i | 0 <= i < |times|
        ensures Burst(s, key, times, maxRequests, windowMs).0[i] == (used + i < maxRequests)
      {
        if i > 0 {
          assert Burst(s, key, times, maxRequests, windowMs).0[i] == rest.0[i - 1];
          assert rest.0[i - 1] == (used' + (i - 1) < maxRequests);
        }
      }
    }
  }

  /** Within one window, the first `maxRequests` calls for a fresh key are
      admitted and every later one is refused. */
  lemma FirstMaxRequestsAdmitted(s: Store, key: string, start: int, times: seq<int>,
                                 maxRequests: int, windowMs: int)
    requires key !in s
    requires forall i :: 0 <= i < |times| ==> times[i] <= start + windowMs
    ensures |Burst(s, key, [start] + times, maxRequests, windowMs).0| == |times| + 1
    ensures forall i :: 0 <= i < |times| + 1 ==>
              Burst(s, key, [start] + times, maxRequests, windowMs).0[i] == (i == 0 || i < maxRequests)
  {
    var d := Call(s, key, start, maxRequests, windowMs);
    assert key !in Sweep(s, start);
    assert d.allowed && d.store[key] == Entry(1, start + windowMs);
    BurstInWindow(d.store, key, times, maxRequests, windowMs, 1, start);
    assert ([start] + times)[1..] == times;
  }

  // ---------------------------------------------------------------------
  // The limiter object

  class RateLimiter {
    var storage: Store
    const maxRequests: int
    const windowMs: int

    ghost predicate Valid()
      reads this
    {
      Bounded(storage, maxRequests)
    }

    /** The source's defaults are 10 requests per 60000 ms. */
    constructor (maxRequests: int, windowMs: int)
      ensures Valid()
      ensures storage == map[] && this.maxRequests == maxRequests && this.windowMs == windowMs
    {
      this.maxRequests := maxRequests;
      this.windowMs := windowMs;
      storage := map[];
    }

    /** Deletes, one at a time, every entry whose window has ended. */
    method Cleanup(now: int)
      requires Valid()
      modifies this
      ensures Valid()
      ensures storage == Sweep(old(storage), now)
    {
      ghost var original := storage;
      var pending := storage.Keys;
      while pending != {}
        invariant pending <= original.Keys
        invariant storage == map k | k in original && (k in pending || !Expired(original[k], now)) :: original[k]
        decreases pending
      {
        var k :| k in pending;
        if now > storage[k].resetTime {
          storage := storage - {k};
        }
        pending := pending - {k};
      }
    }

    /** Admits or refuses one request. The clock is read twice in the
        source: `cleanupNow` by the cleanup pass, `now` by the decision. */
    method IsAllowed(identifier: string, action: string, cleanupNow: int, now: int) returns (allowed: bool)
      requires Valid()
      modifies this
      ensures Valid()
      ensures Decision(allowed, storage)
           == Admit(Sweep(old(storage), cleanupNow), Key(identifier, action), now, maxRequests, windowMs)
    {
      Cleanup(cleanupNow);
      var key := Key(identifier, action);
      AdmitKeepsBound(storage, key, now, maxRequests, windowMs);
      if key !in storage {
        storage := storage[key := Entry(1, now + windowMs)];
        return true;
      }
      var entry := storage[key];
      if now > entry.resetTime {
        storage := storage[key := Entry(1, now + windowMs)];
        return true;
      }
      if entry.count >= maxRequests {
        return false;
      }
      storage := storage[key := entry.(count := entry.count + 1)];
      return true;
    }

    /** Reports how many requests the key has left in its window. */
    method GetRemainingRequests(identifier: string, action: string, now: int) returns (r: int)
      requires Valid()
      ensures r == Remaining(storage, Key(identifier, action), now, maxRequests)
      ensures maxRequests >= 0 ==> 0 <= r <= maxRequests
      ensures Key(identifier, action) !in storage ==> r == maxRequests
    {
      var key := Key(identifier, action);
      if key !in storage || now > storage[key].resetTime {
        return maxRequests;
      }
      r := if 0 > maxRequests - storage[key].count then 0 else maxRequests - storage[key].count;
    }

    /** Reports when the key's window ends, or 0 when it has none. */
    method GetResetTime(identifier: string, action: string, now: int) returns (r: int)
      ensures r == ResetAt(storage, Key(identifier, action), now)
      ensures r != 0 ==> Key(identifier, action) in storage && r == storage[Key(identifier, action)].resetTime
      ensures Key(identifier, action) in storage && !Expired(storage[Key(identifier, action)], now)
              ==> r == storage[Key(identifier, action)].resetTime
    {
      var key := Key(identifier, action);
      if key !in storage || now > storage[key].resetTime {
        return 0;
      }
      r := storage[key].resetTime;
    }
  }
}
