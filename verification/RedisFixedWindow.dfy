/** app/algorithms/redis_fixed_window.py: one counter that Redis expires with its window. */
module RedisFixedWindow {
  import opened Prelude
  import opened Redis
  import FixedWindow

  datatype Outcome = Outcome(key: Slot<int>, reply: Reply)

  /** PTTL as the scripts use it: the seconds left, rounded up, or 0 without an expiry. */
  function ResetIn(key: Slot<int>, now: real): int {
    if key.Present? && key.expiry.Some? && key.expiry.value - now > 0.0 then Ceil(key.expiry.value - now) else 0
  }

  function AllowScript(stored: Slot<int>, limit: int, window: real, now: real): Outcome {
    var counted := Incr(At(stored, now));
    var key := if counted.value == 1 then Expire(counted, now, Some(window)) else counted;
    Outcome(key, Reply(key.value <= limit, MaxInt(0, limit - key.value), ResetIn(key, now)))
  }

  /** The keys `rateguard:fixed_window:<client>` that every worker shares. */
  class Keyspace {
    var keys: map<string, Slot<int>>

    function Of(client: string): Slot<int>
      reads this
    {
      if client in keys then keys[client] else Absent
    }
  }

  class RedisFixedWindowRateLimiter {
    const storage: Keyspace
    const client: string
    var limit: int
    var window: real
    var cachedRemaining: Option<int>
    var cachedReset: Option<int>

    constructor (storage: Keyspace, client: string, limit: int, window: real)
      ensures this.storage == storage && this.client == client && this.limit == limit && this.window == window
      ensures cachedRemaining == None && cachedReset == None
    {
      this.storage, this.client, this.limit, this.window := storage, client, limit, window;
      cachedRemaining, cachedReset := None, None;
    }

    /** Only this client's key changes, and it changes as the script says, whichever worker's
        limiter object makes the call. */
    method AllowRequest(now: real) returns (ok: bool)
      modifies this`cachedRemaining, this`cachedReset, storage
      ensures var o := AllowScript(old(storage.Of(client)), limit, window, now);
              && storage.keys == old(storage.keys)[client := o.key]
              && ok == o.reply.allowed
              && cachedRemaining == Some(o.reply.remaining) && cachedReset == Some(o.reply.resetIn)
    {
      var key := Incr(At(storage.Of(client), now));
      var current := key.value;
      if current == 1 {
        key := Expire(key, now, Some(window));
      }
      storage.keys := storage.keys[client := key];
      ok := current <= limit;
      var remaining := limit - current;
      if remaining < 0 {
        remaining := 0;
      }
      cachedRemaining, cachedReset := Some(remaining), Some(ResetIn(key, now));
    }

    /** Before any decision of this object the counter is read; afterwards the value of its
        last decision is repeated, however old it is. */
    method RemainingRequests(now: real) returns (n: int)
      ensures n == match cachedRemaining
                   case Some(r) => r
                   case None => var k := At(storage.Of(client), now); MaxInt(0, limit - if k.Present? then k.value else 0)
    {
      if cachedRemaining.Some? {
        return cachedRemaining.value;
      }
      var k := At(storage.Of(client), now);
      var current := if k.Present? then k.value else 0;
      n := if limit - current < 0 then 0 else limit - current;
    }

    method ResetTime(now: real) returns (n: int)
      ensures n == match cachedReset
                   case Some(r) => r
                   case None => ResetIn(At(storage.Of(client), now), now)
    {
      if cachedReset.Some? {
        return cachedReset.value;
      }
      n := ResetIn(At(storage.Of(client), now), now);
    }
  }

  // ----- Agreement with the memory limiter

  function Decisions(key: Slot<int>, times: seq<real>, limit: int, window: real): (r: seq<bool>)
    ensures |r| == |times|
    decreases |times|
  {
    if times == [] then []
    else
      var o := AllowScript(key, limit, window, times[0]);
      [o.reply.allowed] + Decisions(o.key, times[1..], limit, window)
  }

  function MemoryCalls(times: seq<real>, limit: int, window: real): (calls: seq<FixedWindow.Call>)
    ensures |calls| == |times|
    ensures forall i :: 0 <= i < |times| ==> calls[i] == FixedWindow.Call(Allow, limit, window, times[i])
  {
    seq(|times|, i requires 0 <= i < |times| => FixedWindow.Call(Allow, limit, window, times[i]))
  }

  predicate Ordered(times: seq<real>) {
    forall i, j :: 0 <= i < j < |times| ==> times[i] <= times[j]
  }

  /** The relation between the two: the windows open at the same instant, and memory counts what
      Redis counts up to the limit (Redis goes on counting rejected attempts). */
  predicate Matches(s: FixedWindow.State, key: Slot<int>, limit: int, window: real) {
    && key.Present? && key.value >= 1 && key.expiry == Some(s.start + window)
    && s.count == MinInt(key.value, limit)
  }

  lemma {:induction false} SameFrom(s: FixedWindow.State, key: Slot<int>, times: seq<real>, limit: int, window: real)
    requires limit >= 0 && window > 0.0 && Ordered(times) && Matches(s, key, limit, window)
    ensures Decisions(key, times, limit, window) == FixedWindow.Decisions(s, MemoryCalls(times, limit, window))
    decreases |times|
  {
    if times != [] {
      var calls := MemoryCalls(times, limit, window);
      assert calls[1..] == MemoryCalls(times[1..], limit, window);
      var o := AllowScript(key, limit, window, times[0]);
      SameFrom(FixedWindow.Next(s, calls[0]), o.key, times[1..], limit, window);
    }
  }

  /** For every run of requests under one limit, the Redis limiter and a memory limiter created
      at the first request take the same decisions. */
  lemma {:induction false} SameDecisionsAsMemory(times: seq<real>, limit: int, window: real)
    requires limit >= 0 && window > 0.0 && Ordered(times) && times != []
    ensures Decisions(Absent, times, limit, window)
         == FixedWindow.Decisions(FixedWindow.State(0, times[0]), MemoryCalls(times, limit, window))
  {
    var calls := MemoryCalls(times, limit, window);
    var s := FixedWindow.State(0, times[0]);
    assert calls[1..] == MemoryCalls(times[1..], limit, window);
    var o := AllowScript(Absent, limit, window, times[0]);
    SameFrom(FixedWindow.Next(s, calls[0]), o.key, times[1..], limit, window);
  }

  // ----- Raising the limit

  function Admissions(key: Slot<int>, times: seq<real>, limit: int, window: real): nat
    decreases |times|
  {
    if times == [] then 0
    else
      var o := AllowScript(key, limit, window, times[0]);
      (if o.reply.allowed then 1 else 0) + Admissions(o.key, times[1..], limit, window)
  }

  /** No request finds the counter expired. */
  predicate StillLives(key: Slot<int>, times: seq<real>) {
    forall i :: 0 <= i < |times| ==> At(key, times[i]) == key
  }

  /** For the rest of a window, whenever requests come, what is still admitted is what the limit
      leaves above the counter, and the counter includes rejected attempts. */
  lemma {:induction false} AdmittedAboveCounter(key: Slot<int>, times: seq<real>, limit: int, window: real)
    requires key.Present? && key.value >= 1 && StillLives(key, times)
    ensures Admissions(key, times, limit, window) == MinInt(|times|, MaxInt(0, limit - key.value))
    decreases |times|
  {
    if times != [] {
      var next := AllowScript(key, limit, window, times[0]).key;
      forall i | 0 <= i < |times[1..]| ensures At(next, times[1..][i]) == next {
        assert At(key, times[i + 1]) == key;
      }
      AdmittedAboveCounter(next, times[1..], limit, window);
    }
  }

  /** RateGuard's README.md:358 promises that raising a full limiter from a to b lets exactly b - a more
      through in the current window. In Redis this holds if and only if the counter, which counts
      every attempt in the window under whatever limit, stands at a. */
  lemma {:induction false} RaisingAdmitsDifferenceIff(key: Slot<int>, a: int, b: int, times: seq<real>, window: real)
    requires key.Present? && 1 <= a <= key.value && a < b && |times| >= b - a && StillLives(key, times)
    ensures Admissions(key, times, b, window) == b - a <==> key.value == a
  {
    AdmittedAboveCounter(key, times, b, window);
  }

  function After(key: Slot<int>, times: seq<real>, limit: int, window: real): Slot<int>
    decreases |times|
  {
    if times == [] then key else After(AllowScript(key, limit, window, times[0]).key, times[1..], limit, window)
  }

  /** While the counter lives, every attempt raises it by one. */
  lemma {:induction false} CountsAttempts(key: Slot<int>, times: seq<real>, limit: int, window: real)
    requires key.Present? && key.value >= 1 && StillLives(key, times)
    ensures After(key, times, limit, window) == key.(value := key.value + |times|)
    decreases |times|
  {
    if times != [] {
      var next := AllowScript(key, limit, window, times[0]).key;
      forall i | 0 <= i < |times[1..]| ensures At(next, times[1..][i]) == next {
        assert At(key, times[i + 1]) == key;
      }
      CountsAttempts(next, times[1..], limit, window);
    }
  }

  /** Over runs: a client fills the window that its first request opens under limit a, and the limit is
      then raised to b. In the rest of the window exactly b - a more are admitted if and only if none of
      the requests under a was rejected. */
  lemma {:induction false} RaisingAfterRunIff(first: real, before: seq<real>, after: seq<real>, a: int, b: int, window: real)
    requires window > 0.0 && 1 <= a <= 1 + |before| && a < b && |after| >= b - a
    requires forall i :: 0 <= i < |before| ==> before[i] < first + window
    requires forall i :: 0 <= i < |after| ==> after[i] < first + window
    ensures var all := [first] + before;
            && Admissions(Absent, all, a, window) == a
            && (Admissions(After(Absent, all, a, window), after, b, window) == b - a
                <==> Admissions(Absent, all, a, window) == |all|)
  {
    var all := [first] + before;
    assert all[1..] == before;
    var key := AllowScript(Absent, a, window, first).key;
    AdmittedAboveCounter(key, before, a, window);
    CountsAttempts(key, before, a, window);
    RaisingAdmitsDifferenceIff(After(Absent, all, a, window), a, b, after, window);
  }

  // ----- The remaining count

  /** The count the reading script reports for what it finds is true: it is how many requests are
      admitted in the rest of the window, or in the window the first of them opens. */
  lemma {:induction false} RemainingIsAdmitted(found: Slot<int>, times: seq<real>, limit: int, window: real)
    requires limit >= 1 && window > 0.0 && Ordered(times)
    requires if found.Present? then found.value >= 1 && StillLives(found, times)
             else forall i :: 0 <= i < |times| ==> times[i] < times[0] + window
    ensures Admissions(found, times, limit, window)
         == MinInt(|times|, MaxInt(0, limit - if found.Present? then found.value else 0))
  {
    if found.Present? {
      AdmittedAboveCounter(found, times, limit, window);
    } else if times != [] {
      AdmittedAboveCounter(AllowScript(found, limit, window, times[0]).key, times[1..], limit, window);
    }
  }

  /** So is the count a decision reports, which the object repeats until its next decision. */
  lemma {:induction false} DecisionReportsAdmitted(key: Slot<int>, limit: int, window: real, now: real, times: seq<real>)
    requires window > 0.0 && (key.Present? ==> key.value >= 1)
    requires StillLives(AllowScript(key, limit, window, now).key, times)
    ensures var o := AllowScript(key, limit, window, now);
            Admissions(o.key, times, limit, window) == MinInt(|times|, o.reply.remaining)
  {
    AdmittedAboveCounter(AllowScript(key, limit, window, now).key, times, limit, window);
  }

  // ----- Waiting after a rejection

  /** The reported reset time of a counter the script built is always enough. */
  lemma {:induction false} WaitingIsEnough(key: Slot<int>, limit: int, window: real, now: real, retry: real)
    requires limit >= 1 && window > 0.0 && (key.Present? ==> key.expiry.Some? && key.value >= 1)
    requires now + AllowScript(key, limit, window, now).reply.resetIn as real <= retry
    ensures AllowScript(AllowScript(key, limit, window, now).key, limit, window, retry).reply.allowed
  {
  }

  /** And no shorter one is: after a rejection a retry a whole number of seconds later is admitted exactly
      from the reported number on. */
  lemma {:induction false} RetryAdmittedIff(key: Slot<int>, limit: int, window: real, now: real, n: nat)
    requires limit >= 1 && window > 0.0 && (key.Present? ==> key.expiry.Some? && key.value >= 1)
    requires !AllowScript(key, limit, window, now).reply.allowed
    ensures var o := AllowScript(key, limit, window, now);
            AllowScript(o.key, limit, window, now + n as real).reply.allowed <==> n >= o.reply.resetIn
  {
    var o := AllowScript(key, limit, window, now);
    assert n >= o.reply.resetIn ==> n as real >= o.reply.resetIn as real;
    assert n < o.reply.resetIn ==> n as real <= o.reply.resetIn as real - 1.0;
  }

  /** So is the time a reading reports, for whatever counter it finds. */
  lemma {:induction false} ReadWaitIsEnough(key: Slot<int>, limit: int, window: real, now: real, retry: real)
    requires limit >= 1 && window > 0.0 && (key.Present? ==> key.expiry.Some?)
    requires now + ResetIn(At(key, now), now) as real <= retry
    ensures AllowScript(key, limit, window, retry).reply.allowed
  {
    if At(key, now).Present? {
      assert key.expiry.value <= retry;
    }
  }
}
