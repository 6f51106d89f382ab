/** app/algorithms/redis_token_bucket.py: one hash of tokens and refill time, with a time to
    live that is renewed by every call. */
module RedisTokenBucket {
  import opened Prelude
  import opened Redis
  import TokenBucket

  datatype Bucket = Bucket(tokens: real, last: real)

  datatype Call = Call(capacity: int, rate: real, now: real)

  datatype Outcome = Outcome(key: Slot<Bucket>, reply: Reply)

  /** The tokens at `now`: a missing bucket is full, and only elapsed time refills (and caps). */
  function Refilled(stored: Slot<Bucket>, c: Call): Bucket {
    var found := At(stored, c.now);
    var b := if found.Present? then found.value else Bucket(c.capacity as real, c.now);
    var elapsed := c.now - b.last;
    if elapsed > 0.0 then Bucket(Min(c.capacity as real, b.tokens + Gain(elapsed, c.rate)), c.now) else b
  }

  function ResetIn(tokens: real, rate: real): int {
    if tokens < 1.0 && rate > 0.0 then Ceil((1.0 - tokens) / rate) else 0
  }

  /** The script; `ttl` None stands for the same script without its PEXPIRE. */
  function AllowScript(stored: Slot<Bucket>, c: Call, ttl: Option<real>): Outcome {
    var b := Refilled(stored, c);
    var allowed := b.tokens >= 1.0;
    var left := if allowed then b.(tokens := b.tokens - 1.0) else b;
    var found := At(stored, c.now);
    var written := if found.Present? then found.(value := left) else Present(left, None);
    Outcome(Expire(written, c.now, ttl), Reply(allowed, left.tokens.Floor, ResetIn(left.tokens, c.rate)))
  }

  /** The keys `rateguard:token_bucket:<client>` that every worker shares. */
  class Keyspace {
    var keys: map<string, Slot<Bucket>>

    function Of(client: string): Slot<Bucket>
      reads this
    {
      if client in keys then keys[client] else Absent
    }
  }

  class RedisTokenBucketRateLimiter {
    const storage: Keyspace
    const client: string
    const ttl: int
    var capacity: int
    var rate: real
    var cachedRemaining: Option<int>
    var cachedReset: Option<int>

    constructor (storage: Keyspace, client: string, capacity: int, rate: real)
      ensures this.storage == storage && this.client == client && this.capacity == capacity && this.rate == rate
      ensures ttl == DefaultTtl(capacity, rate) && cachedRemaining == None && cachedReset == None
    {
      this.storage, this.client, this.capacity, this.rate := storage, client, capacity, rate;
      var lifetime := if rate > 0.0 then Truncate(capacity as real / rate) else 3600;
      ttl := MaxInt(1, lifetime);
      cachedRemaining, cachedReset := None, None;
    }

    method AllowRequest(now: real) returns (ok: bool)
      modifies this`cachedRemaining, this`cachedReset, storage
      ensures var o := AllowScript(old(storage.Of(client)), Call(capacity, rate, now), Some(ttl as real));
              && storage.keys == old(storage.keys)[client := o.key]
              && ok == o.reply.allowed
              && cachedRemaining == Some(o.reply.remaining) && cachedReset == Some(o.reply.resetIn)
    {
      var data := At(storage.Of(client), now);
      var tokens, lastRefill := capacity as real, now;
      if data.Present? {
        tokens, lastRefill := data.value.tokens, data.value.last;
      }
      var elapsed := now - lastRefill;
      if elapsed > 0.0 {
        tokens := Min(capacity as real, tokens + Gain(elapsed, rate));
        lastRefill := now;
      }
      ok := false;
      if tokens >= 1.0 {
        tokens := tokens - 1.0;
        ok := true;
      }
      var stored := Bucket(tokens, lastRefill);
      data := if data.Present? then data.(value := stored) else Present(stored, None);
      storage.keys := storage.keys[client := Expire(data, now, Some(ttl as real))];
      var resetIn := 0;
      if tokens < 1.0 && rate > 0.0 {
        resetIn := Ceil((1.0 - tokens) / rate);
      }
      cachedRemaining, cachedReset := Some(tokens.Floor), Some(resetIn);
    }

    method RemainingRequests(now: real) returns (n: int)
      ensures n == match cachedRemaining
                   case Some(r) => r
                   case None => var k := At(storage.Of(client), now); if k.Present? then Truncate(k.value.tokens) else capacity
    {
      if cachedRemaining.Some? {
        return cachedRemaining.value;
      }
      var k := At(storage.Of(client), now);
      n := if k.Present? then Truncate(k.value.tokens) else capacity;
    }

    /** Before any decision of this object the wait is rounded down, after one it is the
        script's, rounded up. */
    method ResetTime(now: real) returns (n: int)
      ensures n == match cachedReset
                   case Some(r) => r
                   case None =>
                     var k := At(storage.Of(client), now);
                     var tokens := if k.Present? then k.value.tokens else capacity as real;
                     TokenBucket.ResetIn(TokenBucket.State(tokens, now), rate)
    {
      if cachedReset.Some? {
        return cachedReset.value;
      }
      var k := At(storage.Of(client), now);
      var tokens := if k.Present? then k.value.tokens else capacity as real;
      if tokens >= 1.0 {
        return 0;
      }
      if rate <= 0.0 {
        return 0;
      }
      n := WholeSeconds((1.0 - tokens) / rate);
    }
  }

  // ----- Runs

  predicate Timely(calls: seq<Call>, from: real) {
    && (forall i :: 0 <= i < |calls| ==> from <= calls[i].now && calls[i].rate >= 0.0 && calls[i].capacity >= 1)
    && (forall i, j :: 0 <= i < j < |calls| ==> calls[i].now <= calls[j].now)
  }

  predicate FixedSettings(calls: seq<Call>, capacity: int, rate: real) {
    forall i :: 0 <= i < |calls| ==> calls[i].capacity == capacity && calls[i].rate == rate
  }

  function After(key: Slot<Bucket>, calls: seq<Call>, ttl: Option<real>): Slot<Bucket>
    decreases |calls|
  {
    if calls == [] then key else After(AllowScript(key, calls[0], ttl).key, calls[1..], ttl)
  }

  function Replies(key: Slot<Bucket>, calls: seq<Call>, ttl: Option<real>): (r: seq<Reply>)
    ensures |r| == |calls|
    decreases |calls|
  {
    if calls == [] then []
    else
      var o := AllowScript(key, calls[0], ttl);
      [o.reply] + Replies(o.key, calls[1..], ttl)
  }

  // ----- Can the expiry of the key be noticed?

  /** A full refill fits into the time to live. */
  predicate RefillsInTime(capacity: int, rate: real, ttl: real) {
    Gain(ttl, rate) >= capacity as real
  }

  lemma {:induction false} SameAfterCall(b: Bucket, calls: seq<Call>, ttl: real)
    requires ttl > 0.0 && b.tokens >= 0.0 && Timely(calls, b.last)
    requires forall i :: 0 <= i < |calls| ==> RefillsInTime(calls[i].capacity, calls[i].rate, ttl)
    ensures Replies(Present(b, Some(b.last + ttl)), calls, Some(ttl)) == Replies(Present(b, None), calls, None)
    decreases |calls|
  {
    if calls != [] {
      hide AllowScript, RefillsInTime;
      SameCall(b, calls[0], ttl, ttl);
      SameAfterCall(AllowScript(Present(b, None), calls[0], None).key.value, calls[1..], ttl);
    }
  }

  /** One call on a bucket that may have expired against one that never does. */
  lemma {:induction false} SameCall(b: Bucket, c: Call, ttl: real, lives: real)
    requires ttl > 0.0 && b.tokens >= 0.0 && b.last <= c.now && c.rate >= 0.0 && c.capacity >= 1
    requires RefillsInTime(c.capacity, c.rate, ttl)
    ensures var expiring := AllowScript(Present(b, Some(b.last + ttl)), c, Some(lives));
            var forever := AllowScript(Present(b, None), c, None);
            && expiring.reply == forever.reply
            && forever.key.Present? && forever.key.expiry == None
            && forever.key.value.last == c.now && forever.key.value.tokens >= 0.0
            && expiring.key == Present(forever.key.value, Some(c.now + lives))
  {
    GainNonNegative(c.now - b.last, c.rate);
    if b.last + ttl <= c.now {
      GainMonotone(ttl, c.now - b.last, c.rate);
    }
  }

  /** The key's expiry cannot be noticed: on every run, re-tuned or not, in which each setting
      refills in time, the script answers as it would without a time to live. */
  lemma {:induction false} ExpiryUnnoticed(calls: seq<Call>, ttl: real, from: real)
    requires ttl > 0.0 && Timely(calls, from)
    requires forall i :: 0 <= i < |calls| ==> RefillsInTime(calls[i].capacity, calls[i].rate, ttl)
    ensures Replies(Absent, calls, Some(ttl)) == Replies(Absent, calls, None)
  {
    if calls != [] {
      SameAfterCall(AllowScript(Absent, calls[0], None).key.value, calls[1..], ttl);
    }
  }

  // Objects built under different policies, in this worker or others, share the key of a client and
  // renew it each with its own time to live.
  datatype Shared = Shared(call: Call, ttl: real)

  function CallsIn(run: seq<Shared>): (calls: seq<Call>)
    ensures |calls| == |run| && forall i :: 0 <= i < |run| ==> calls[i] == run[i].call
  {
    seq(|run|, i requires 0 <= i < |run| => run[i].call)
  }

  function SharedReplies(key: Slot<Bucket>, run: seq<Shared>): seq<Reply>
    decreases |run|
  {
    if run == [] then []
    else
      var o := AllowScript(key, run[0].call, Some(run[0].ttl));
      [o.reply] + SharedReplies(o.key, run[1..])
  }

  /** At every call a full refill, under the setting now in force, fits into the time to live of the object
      that made the call before. */
  predicate SharedRefills(run: seq<Shared>) {
    && (forall i :: 0 <= i < |run| ==> run[i].ttl > 0.0)
    && (forall i :: 0 <= i < |run| - 1 ==> RefillsInTime(run[i + 1].call.capacity, run[i + 1].call.rate, run[i].ttl))
  }

  lemma {:induction false} SharedSame(b: Bucket, ttl: real, run: seq<Shared>)
    requires ttl > 0.0 && b.tokens >= 0.0 && Timely(CallsIn(run), b.last) && SharedRefills(run)
    requires run != [] ==> RefillsInTime(run[0].call.capacity, run[0].call.rate, ttl)
    ensures SharedReplies(Present(b, Some(b.last + ttl)), run) == Replies(Present(b, None), CallsIn(run), None)
    decreases |run|
  {
    hide AllowScript, RefillsInTime;
    if run != [] {
      var c, lives := run[0].call, run[0].ttl;
      assert CallsIn(run)[0] == c && CallsIn(run)[1..] == CallsIn(run[1..]);
      SameCall(b, c, ttl, lives);
      if |run| > 1 {
        assert RefillsInTime(run[0 + 1].call.capacity, run[0 + 1].call.rate, run[0].ttl);
      }
      forall i | 0 <= i < |run[1..]| - 1
        ensures RefillsInTime(run[1..][i + 1].call.capacity, run[1..][i + 1].call.rate, run[1..][i].ttl)
      {
        assert RefillsInTime(run[i + 1 + 1].call.capacity, run[i + 1 + 1].call.rate, run[i + 1].ttl);
      }
      SharedSame(AllowScript(Present(b, None), c, None).key.value, lives, run[1..]);
    }
  }

  /** With a time to live for every call expiry cannot be noticed either, if at every call a full refill
      fits into the one that the call before has set. */
  lemma {:induction false} SharedExpiryUnnoticed(run: seq<Shared>, from: real)
    requires Timely(CallsIn(run), from) && SharedRefills(run)
    ensures SharedReplies(Absent, run) == Replies(Absent, CallsIn(run), None)
  {
    if run != [] {
      assert CallsIn(run)[0] == run[0].call && CallsIn(run)[1..] == CallsIn(run[1..]);
      if |run| > 1 {
        assert RefillsInTime(run[0 + 1].call.capacity, run[0 + 1].call.rate, run[0].ttl);
      }
      SharedSame(AllowScript(Absent, run[0].call, None).key.value, run[0].ttl, run[1..]);
    }
  }

  function Burst(n: nat, capacity: int, rate: real, t: real): (b: seq<Call>)
    ensures |b| == n && forall i :: 0 <= i < n ==> b[i] == Call(capacity, rate, t)
  {
    seq(n, i => Call(capacity, rate, t))
  }

  /** n calls at one instant: the last is admitted exactly when there were n tokens. */
  lemma {:induction false} LastOfBurst(key: Slot<Bucket>, n: nat, capacity: int, rate: real, t: real, ttl: Option<real>)
    requires n >= 1 && (ttl.Some? ==> ttl.value > 0.0)
    requires Refilled(key, Call(capacity, rate, t)).last == t
    ensures var tokens := Refilled(key, Call(capacity, rate, t)).tokens;
            Replies(key, Burst(n, capacity, rate, t), ttl)[n - 1].allowed <==> tokens >= n as real
    decreases n
  {
    var c := Call(capacity, rate, t);
    var calls := Burst(n, capacity, rate, t);
    var o := AllowScript(key, c, ttl);
    if n > 1 {
      assert calls[1..] == Burst(n - 1, capacity, rate, t);
      LastOfBurst(o.key, n - 1, capacity, rate, t, ttl);
      assert Replies(key, calls, ttl)[n - 1] == Replies(o.key, calls[1..], ttl)[n - 2];
    }
  }

  lemma {:induction false} AfterBurst(key: Slot<Bucket>, n: nat, capacity: int, rate: real, t: real, ttl: Option<real>)
    requires n >= 1 && (ttl.Some? ==> ttl.value > 0.0)
    requires Refilled(key, Call(capacity, rate, t)).last == t
    requires Refilled(key, Call(capacity, rate, t)).tokens == n as real
    requires ttl == None ==> !key.Present? || key.expiry == None
    ensures After(key, Burst(n, capacity, rate, t), ttl)
         == Present(Bucket(0.0, t), if ttl.Some? then Some(t + ttl.value) else None)
    decreases n
  {
    var calls := Burst(n, capacity, rate, t);
    assert calls[0] == Call(capacity, rate, t);
    var o := AllowScript(key, calls[0], ttl);
    assert calls[1..] == Burst(n - 1, capacity, rate, t);
    if n > 1 {
      AfterBurst(o.key, n - 1, capacity, rate, t, ttl);
    }
  }

  lemma {:induction false} RepliesOfConcat(key: Slot<Bucket>, a: seq<Call>, b: seq<Call>, ttl: Option<real>)
    ensures Replies(key, a + b, ttl) == Replies(key, a, ttl) + Replies(After(key, a, ttl), b, ttl)
    decreases |a|
  {
    if a == [] {
      assert a + b == b;
    } else {
      assert (a + b)[1..] == a[1..] + b;
      RepliesOfConcat(AllowScript(key, a[0], ttl).key, a[1..], b, ttl);
    }
  }

  /** Empty the bucket, stay away for exactly the time to live, and ask for everything again. */
  function Probe(capacity: nat, rate: real, ttl: real): seq<Call> {
    Burst(capacity, capacity, rate, 0.0) + Burst(capacity, capacity, rate, ttl)
  }

  lemma {:induction false} ProbeLastReply(capacity: nat, rate: real, ttl: real, lives: Option<real>)
    requires capacity >= 1 && rate >= 0.0 && ttl > 0.0 && (lives == None || lives == Some(ttl))
    ensures Replies(Absent, Probe(capacity, rate, ttl), lives)[2 * capacity - 1].allowed
            <==> lives == Some(ttl) || RefillsInTime(capacity, rate, ttl)
  {
    var first := Burst(capacity, capacity, rate, 0.0);
    var second := Burst(capacity, capacity, rate, ttl);
    AfterBurst(Absent, capacity, capacity, rate, 0.0, lives);
    RepliesOfConcat(Absent, first, second, lives);
    LastOfBurst(After(Absent, first, lives), capacity, capacity, rate, ttl, lives);
    assert Replies(Absent, first + second, lives)[2 * capacity - 1]
        == Replies(After(Absent, first, lives), second, lives)[capacity - 1];
  }

  /** A capacity with a rate. */
  datatype Setting = Setting(capacity: int, rate: real)

  /** No run that starts under `a` and goes on under `b` is decided differently because of the time to
      live. */
  ghost predicate NeverNoticed(a: Setting, b: Setting, ttl: real) {
    forall before: seq<Call>, after: seq<Call> {:trigger Timely(before + after, 0.0)} ::
      Timely(before + after, 0.0) && FixedSettings(before, a.capacity, a.rate) && FixedSettings(after, b.capacity, b.rate)
      ==> SameDecisions(before + after, ttl)
  }

  predicate SameDecisions(calls: seq<Call>, ttl: real) {
    forall i :: 0 <= i < |calls| ==> Replies(Absent, calls, Some(ttl))[i].allowed == Replies(Absent, calls, None)[i].allowed
  }

  /** The probe shows expiry whenever a full refill does not fit into the time to live. */
  lemma {:induction false} ProbeNotices(p: Setting, ttl: real)
    requires p.capacity >= 1 && p.rate >= 0.0 && ttl > 0.0 && !RefillsInTime(p.capacity, p.rate, ttl)
    ensures var run := Probe(p.capacity, p.rate, ttl);
            Timely(run, 0.0) && FixedSettings(run, p.capacity, p.rate) && !SameDecisions(run, ttl)
  {
    hide Replies, RefillsInTime;
    ProbeLastReply(p.capacity, p.rate, ttl, Some(ttl));
    ProbeLastReply(p.capacity, p.rate, ttl, None);
  }

  /** Exact for a re-tune: expiry changes no decision on any run under `a` and then under `b` if and
      only if under each a full refill fits into the time to live. */
  lemma {:induction false} RetuneUnnoticedIff(a: Setting, b: Setting, ttl: real)
    requires a.capacity >= 1 && b.capacity >= 1 && a.rate >= 0.0 && b.rate >= 0.0 && ttl > 0.0
    ensures NeverNoticed(a, b, ttl) <==> RefillsInTime(a.capacity, a.rate, ttl) && RefillsInTime(b.capacity, b.rate, ttl)
  {
    hide Replies, RefillsInTime;
    if !RefillsInTime(a.capacity, a.rate, ttl) {
      ProbeNotices(a, ttl);
      assert Probe(a.capacity, a.rate, ttl) + [] == Probe(a.capacity, a.rate, ttl) && FixedSettings([], b.capacity, b.rate);
    } else if !RefillsInTime(b.capacity, b.rate, ttl) {
      ProbeNotices(b, ttl);
      assert [] + Probe(b.capacity, b.rate, ttl) == Probe(b.capacity, b.rate, ttl) && FixedSettings([], a.capacity, a.rate);
    } else {
      forall before: seq<Call>, after: seq<Call> |
        Timely(before + after, 0.0) && FixedSettings(before, a.capacity, a.rate) && FixedSettings(after, b.capacity, b.rate)
        ensures SameDecisions(before + after, ttl)
      {
        ExpiryUnnoticed(before + after, ttl, 0.0);
      }
    }
  }

  /** For one setting throughout: if and only if a full refill fits into the time to live. */
  lemma {:induction false} ExpiryUnnoticedIff(p: Setting, ttl: real)
    requires p.capacity >= 1 && p.rate >= 0.0 && ttl > 0.0
    ensures NeverNoticed(p, p, ttl) <==> RefillsInTime(p.capacity, p.rate, ttl)
  {
    RetuneUnnoticedIff(p, p, ttl);
  }

  // ----- Agreement with the memory limiter

  function MemoryDecisions(s: TokenBucket.State, calls: seq<Call>): (r: seq<bool>)
    ensures |r| == |calls|
    decreases |calls|
  {
    if calls == [] then []
    else
      var c := TokenBucket.Call(Allow, calls[0].capacity, calls[0].rate, calls[0].now);
      [TokenBucket.Admits(s, c)] + MemoryDecisions(TokenBucket.Next(s, c), calls[1..])
  }

  /** No call at the same instant as the one before has a capacity lower by more than the one token that
      call may have taken: the script caps only when time has passed. */
  predicate CapsInTime(calls: seq<Call>) {
    forall i :: 0 <= i < |calls| - 1 ==> CapsAfter(calls[i].capacity, calls[i].now, calls[i + 1])
  }

  predicate CapsAfter(capacity: int, last: real, c: Call) {
    last < c.now || c.capacity >= capacity - 1
  }

  /** One call, on tokens that a call under `capacity` left. */
  lemma {:induction false} SameDecision(b: Bucket, capacity: int, c: Call)
    requires 0.0 <= b.tokens && (b.tokens <= (capacity - 1) as real || b.tokens < 1.0)
    requires b.last <= c.now && c.rate >= 0.0 && c.capacity >= 1 && CapsAfter(capacity, b.last, c)
    ensures var o := AllowScript(Present(b, None), c, None);
            var m := TokenBucket.Call(Allow, c.capacity, c.rate, c.now);
            var s := TokenBucket.State(b.tokens, b.last);
            && o.reply.allowed == TokenBucket.Admits(s, m)
            && o.key.Present? && o.key.expiry == None
            && TokenBucket.Next(s, m) == TokenBucket.State(o.key.value.tokens, o.key.value.last)
            && o.key.value.last == c.now && 0.0 <= o.key.value.tokens
            && (o.key.value.tokens <= (c.capacity - 1) as real || o.key.value.tokens < 1.0)
  {
    GainNonNegative(c.now - b.last, c.rate);
    GainAtZero(c.rate);
  }

  lemma {:induction false} SameFrom(b: Bucket, capacity: int, calls: seq<Call>)
    requires 0.0 <= b.tokens && (b.tokens <= (capacity - 1) as real || b.tokens < 1.0)
    requires Timely(calls, b.last) && CapsInTime(calls) && (calls != [] ==> CapsAfter(capacity, b.last, calls[0]))
    ensures forall i :: 0 <= i < |calls| ==>
              Replies(Present(b, None), calls, None)[i].allowed
              == MemoryDecisions(TokenBucket.State(b.tokens, b.last), calls)[i]
    decreases |calls|
  {
    hide AllowScript, TokenBucket.Admits, TokenBucket.Next, CapsAfter;
    if calls != [] {
      SameDecision(b, capacity, calls[0]);
      forall i | 0 <= i < |calls[1..]| - 1 ensures CapsAfter(calls[1..][i].capacity, calls[1..][i].now, calls[1..][i + 1]) {
        assert CapsAfter(calls[i + 1].capacity, calls[i + 1].now, calls[i + 1 + 1]);
      }
      if |calls| > 1 {
        assert CapsAfter(calls[0].capacity, calls[0].now, calls[0 + 1]);
      }
      SameFrom(AllowScript(Present(b, None), calls[0], None).key.value, calls[0].capacity, calls[1..]);
    }
  }

  /** On every run whose settings refill in time, through every re-tune that does not lower the capacity by
      more than one at one instant, the Redis bucket decides as a memory bucket created at the first
      request does. */
  lemma {:induction false} SameDecisionsAsMemory(calls: seq<Call>, ttl: real)
    requires calls != [] && ttl > 0.0 && Timely(calls, calls[0].now) && CapsInTime(calls)
    requires forall i :: 0 <= i < |calls| ==> RefillsInTime(calls[i].capacity, calls[i].rate, ttl)
    ensures SameAsMemory(calls, ttl)
  {
    hide AllowScript, TokenBucket.Admits, TokenBucket.Next, CapsAfter, RefillsInTime;
    var c := calls[0];
    ExpiryUnnoticed(calls, ttl, c.now);
    SameFirst(c);
    forall i | 0 <= i < |calls[1..]| - 1 ensures CapsAfter(calls[1..][i].capacity, calls[1..][i].now, calls[1..][i + 1]) {
      assert CapsAfter(calls[i + 1].capacity, calls[i + 1].now, calls[i + 1 + 1]);
    }
    if |calls| > 1 {
      assert CapsAfter(calls[0].capacity, calls[0].now, calls[0 + 1]);
    }
    SameFrom(AllowScript(Absent, c, None).key.value, c.capacity, calls[1..]);
  }

  /** The first call of all finds a full bucket in both. */
  lemma {:induction false} SameFirst(c: Call)
    requires c.capacity >= 1
    ensures var o := AllowScript(Absent, c, None);
            var m := TokenBucket.Call(Allow, c.capacity, c.rate, c.now);
            var s := TokenBucket.State(c.capacity as real, c.now);
            && o.reply.allowed == TokenBucket.Admits(s, m)
            && o.key == Present(Bucket((c.capacity - 1) as real, c.now), None)
            && TokenBucket.Next(s, m) == TokenBucket.State((c.capacity - 1) as real, c.now)
  {
    GainAtZero(c.rate);
  }

  predicate SameAsMemory(calls: seq<Call>, ttl: real)
    requires calls != []
  {
    forall i :: 0 <= i < |calls| ==>
      Replies(Absent, calls, Some(ttl))[i].allowed
      == MemoryDecisions(TokenBucket.State(calls[0].capacity as real, calls[0].now), calls)[i]
  }

  lemma {:induction false} LastOfMemoryBurst(s: TokenBucket.State, n: nat, capacity: int, rate: real, t: real)
    requires n >= 1 && s.last == t && capacity >= 1
    ensures MemoryDecisions(s, Burst(n, capacity, rate, t))[n - 1] <==> Min(capacity as real, s.tokens) >= n as real
    decreases n
  {
    GainAtZero(rate);
    var calls := Burst(n, capacity, rate, t);
    if n > 1 {
      var next := TokenBucket.Next(s, TokenBucket.Call(Allow, capacity, rate, t));
      assert calls[1..] == Burst(n - 1, capacity, rate, t);
      LastOfMemoryBurst(next, n - 1, capacity, rate, t);
      assert MemoryDecisions(s, calls)[n - 1] == MemoryDecisions(next, calls[1..])[n - 2];
    }
  }

  /** One request under `a`, then one more than `b` holds, all at one instant. */
  function LoweredAtOnce(a: Setting, b: Setting): seq<Call>
    requires b.capacity >= 0
  {
    [Call(a.capacity, a.rate, 0.0)] + Burst(b.capacity + 1, b.capacity, b.rate, 0.0)
  }

  lemma {:induction false} LoweringDiffers(a: Setting, b: Setting, ttl: real)
    requires 1 <= b.capacity < a.capacity - 1 && ttl > 0.0
    ensures !SameAsMemory(LoweredAtOnce(a, b), ttl)
  {
    var first, n := Call(a.capacity, a.rate, 0.0), b.capacity + 1;
    var rest := Burst(n, b.capacity, b.rate, 0.0);
    var calls := LoweredAtOnce(a, b);
    assert calls[1..] == rest;
    SameFirst(first);
    var key := AllowScript(Absent, first, Some(ttl)).key;
    assert key == Present(Bucket((a.capacity - 1) as real, 0.0), Some(0.0 + ttl));
    LastOfBurst(key, n, b.capacity, b.rate, 0.0, Some(ttl));
    LastOfMemoryBurst(TokenBucket.State((a.capacity - 1) as real, 0.0), n, b.capacity, b.rate, 0.0);
    assert Replies(Absent, calls, Some(ttl))[n] == Replies(key, rest, Some(ttl))[n - 1];
    assert MemoryDecisions(TokenBucket.State(a.capacity as real, 0.0), calls)[n]
        == MemoryDecisions(TokenBucket.State((a.capacity - 1) as real, 0.0), rest)[n - 1];
  }

  ghost predicate RetuneSameAsMemory(a: Setting, b: Setting, ttl: real) {
    forall before: seq<Call>, after: seq<Call> {:trigger Timely(before + after, 0.0)} ::
      before + after != [] && Timely(before + after, 0.0)
      && FixedSettings(before, a.capacity, a.rate) && FixedSettings(after, b.capacity, b.rate)
      ==> SameAsMemory(before + after, ttl)
  }

  /** Exact for a re-tune between settings that refill in time: Redis decides every run under `a` and then
      under `b` as memory does if and only if the capacity is lowered by no more than one. */
  lemma {:induction false} RetuneSameAsMemoryIff(a: Setting, b: Setting, ttl: real)
    requires a.capacity >= 1 && b.capacity >= 1 && a.rate >= 0.0 && b.rate >= 0.0 && ttl > 0.0
    requires RefillsInTime(a.capacity, a.rate, ttl) && RefillsInTime(b.capacity, b.rate, ttl)
    ensures RetuneSameAsMemory(a, b, ttl) <==> b.capacity >= a.capacity - 1
  {
    hide Replies, MemoryDecisions, RefillsInTime;
    if b.capacity >= a.capacity - 1 {
      forall before: seq<Call>, after: seq<Call> |
        before + after != [] && Timely(before + after, 0.0)
        && FixedSettings(before, a.capacity, a.rate) && FixedSettings(after, b.capacity, b.rate)
        ensures SameAsMemory(before + after, ttl)
      {
        SameDecisionsAsMemory(before + after, ttl);
      }
    } else {
      LoweringDiffers(a, b, ttl);
      var before, after := [Call(a.capacity, a.rate, 0.0)], Burst(b.capacity + 1, b.capacity, b.rate, 0.0);
      assert Timely(before + after, 0.0);
    }
  }

  // ----- Waiting after a rejection

  /** The reset time the script reports with a rejection is always enough. */
  lemma {:induction false} WaitingIsEnough(key: Slot<Bucket>, capacity: int, rate: real, ttl: Option<real>, now: real, retry: real)
    requires capacity >= 1 && rate > 0.0
    requires At(key, now).Present? ==> key.value.last <= now
    requires var o := AllowScript(key, Call(capacity, rate, now), ttl);
             !o.reply.allowed && now + o.reply.resetIn as real <= retry
    ensures var o := AllowScript(key, Call(capacity, rate, now), ttl);
            AllowScript(o.key, Call(capacity, rate, retry), ttl).reply.allowed
  {
    var b := Refilled(key, Call(capacity, rate, now));
    PositiveWait(1.0 - b.tokens, rate);
    GainReaches(1.0 - b.tokens, rate, retry - b.last);
  }

  /** And no shorter one is: after a rejection a retry a whole number of seconds later is admitted exactly
      from the reported number on, whether the key expires or not. */
  lemma {:induction false} RetryAdmittedIff(key: Slot<Bucket>, capacity: int, rate: real, ttl: Option<real>, now: real, n: nat)
    requires capacity >= 1 && rate > 0.0 && (ttl.Some? ==> ttl.value > 0.0 && RefillsInTime(capacity, rate, ttl.value))
    requires At(key, now).Present? ==> key.value.last <= now && key.value.tokens >= 0.0 && (ttl == None ==> key.expiry == None)
    requires !AllowScript(key, Call(capacity, rate, now), ttl).reply.allowed
    ensures var o := AllowScript(key, Call(capacity, rate, now), ttl);
            AllowScript(o.key, Call(capacity, rate, now + n as real), ttl).reply.allowed <==> n >= o.reply.resetIn
  {
    var c := Call(capacity, rate, now);
    var o := AllowScript(key, c, ttl);
    var b := Refilled(key, c);
    assert b.last == now;
    WholeWait(1.0 - b.tokens, rate, n);
    ReachedAfter(b, capacity, rate, ttl, n as real);
  }

  /** A whole number of seconds brings a needed amount exactly from the rounded-up quotient on. */
  lemma {:induction false} WholeWait(need: real, rate: real, n: nat)
    requires rate > 0.0
    ensures Gain(n as real, rate) >= need <==> n >= Ceil(need / rate)
  {
    GainReaches(need, rate, n as real);
    var least := Ceil(need / rate);
    assert n >= least ==> n as real >= least as real;
    assert n < least ==> n as real <= least as real - 1.0;
  }

  /** When a bucket left with less than a token admits again, though its key may have expired by then. */
  lemma {:induction false} ReachedAfter(b: Bucket, capacity: int, rate: real, ttl: Option<real>, wait: real)
    requires capacity >= 1 && rate > 0.0 && 0.0 <= b.tokens < 1.0 && wait >= 0.0
    requires ttl.Some? ==> ttl.value > 0.0 && RefillsInTime(capacity, rate, ttl.value)
    ensures var left := Present(b, if ttl.Some? then Some(b.last + ttl.value) else None);
            AllowScript(left, Call(capacity, rate, b.last + wait), ttl).reply.allowed <==> Gain(wait, rate) >= 1.0 - b.tokens
  {
    assert b.last + wait - b.last == wait;
    GainAtZero(rate);
    if ttl.Some? && ttl.value <= wait {
      GainMonotone(ttl.value, wait, rate);
    }
  }

  /** Whatever a decision answered, it reports 0 exactly when another request at the same instant would be
      admitted. */
  lemma {:induction false} ReportsZeroIffRoom(key: Slot<Bucket>, c: Call, ttl: Option<real>)
    requires c.capacity >= 1 && c.rate > 0.0 && (ttl.Some? ==> ttl.value > 0.0)
    requires var b := Refilled(key, c); b.last == c.now && b.tokens >= 0.0
    ensures var o := AllowScript(key, c, ttl);
            o.reply.resetIn == 0 <==> AllowScript(o.key, c, ttl).reply.allowed
  {
    var o := AllowScript(key, c, ttl);
    var left := o.key.value.tokens;
    if left < 1.0 {
      PositiveWait(1.0 - left, c.rate);
    }
  }

  /** Before an object's first decision it reports the wait from the tokens as stored, rounded down: a
      retry one second past that is admitted. */
  lemma {:induction false} ReadWaitIsEnough(key: Slot<Bucket>, capacity: int, rate: real, ttl: Option<real>, now: real, retry: real)
    requires capacity >= 1 && rate > 0.0
    requires At(key, now).Present? ==> key.value.last <= now
    requires var found := At(key, now);
             var tokens := if found.Present? then found.value.tokens else capacity as real;
             now + TokenBucket.ResetIn(TokenBucket.State(tokens, now), rate) as real + 1.0 <= retry
    ensures AllowScript(key, Call(capacity, rate, retry), ttl).reply.allowed
  {
    var found := At(key, retry);
    if found.Present? {
      assert At(key, now) == key;
      var b := key.value;
      GainReaches(1.0 - b.tokens, rate, retry - b.last);
      GainNonNegative(retry - b.last, rate);
    }
  }

  // ----- The remaining count

  /** Of n requests at one instant, as many are admitted as there are whole tokens. */
  lemma {:induction false} AdmittedOfBurst(key: Slot<Bucket>, n: nat, capacity: int, rate: real, t: real, ttl: Option<real>)
    requires ttl.Some? ==> ttl.value > 0.0
    requires var b := Refilled(key, Call(capacity, rate, t)); b.last == t && b.tokens >= 0.0
    ensures Allowed(Replies(key, Burst(n, capacity, rate, t), ttl))
         == MinInt(n, Refilled(key, Call(capacity, rate, t)).tokens.Floor)
    decreases n
  {
    if n > 0 {
      var o := AllowScript(key, Call(capacity, rate, t), ttl);
      var calls := Burst(n, capacity, rate, t);
      assert calls[1..] == Burst(n - 1, capacity, rate, t);
      AdmittedOfBurst(o.key, n - 1, capacity, rate, t, ttl);
    }
  }

  /** The count a decision reports, which the object repeats until its next decision, is true: of n
      further requests made at once exactly that many are admitted. */
  lemma {:induction false} DecisionReportsAdmitted(key: Slot<Bucket>, c: Call, n: nat, ttl: Option<real>)
    requires ttl.Some? ==> ttl.value > 0.0
    requires var b := Refilled(key, c); b.last == c.now && b.tokens >= 0.0
    ensures var o := AllowScript(key, c, ttl);
            Allowed(Replies(o.key, Burst(n, c.capacity, c.rate, c.now), ttl)) == MinInt(n, o.reply.remaining)
  {
    AdmittedOfBurst(AllowScript(key, c, ttl).key, n, c.capacity, c.rate, c.now, ttl);
  }

  /** Before an object's first decision it reports the whole tokens as stored, neither refilled nor
      capped. It reports more than would be admitted exactly when time has passed since the bucket was
      written and the capacity was lowered below the whole tokens stored, and exactly what would be
      admitted if and only if refilling and capping leave the whole tokens alone. */
  lemma {:induction false} ReadOverstatesIff(key: Slot<Bucket>, n: nat, capacity: int, rate: real, now: real, ttl: Option<real>)
    requires capacity >= 1 && rate >= 0.0 && (ttl.Some? ==> ttl.value > 0.0)
    requires At(key, now).Present? ==> key.value.last <= now && 0.0 <= key.value.tokens
    requires n >= capacity && (At(key, now).Present? ==> n >= key.value.tokens.Floor)
    ensures var found := At(key, now);
            var reported := if found.Present? then Truncate(found.value.tokens) else capacity;
            var admitted := Allowed(Replies(key, Burst(n, capacity, rate, now), ttl));
            && (reported > admitted <==> found.Present? && found.value.last < now && found.value.tokens.Floor > capacity)
            && (reported == admitted
                <==> !found.Present? || Refilled(key, Call(capacity, rate, now)).tokens.Floor == found.value.tokens.Floor)
  {
    if At(key, now).Present? {
      GainNonNegative(now - key.value.last, rate);
    }
    AdmittedOfBurst(key, n, capacity, rate, now, ttl);
  }
}
