/** app/algorithms/redis_leaky_bucket.py: a sorted set of queued requests, a sequence number and
    the time of the last leak, in three keys whose time to live every decision renews. */
module RedisLeakyBucket {
  import opened Prelude
  import opened Redis
  import LeakyBucket

  datatype Keys = Keys(zset: Slot<seq<Member>>, seqNo: Slot<int>, last: Slot<real>)

  datatype Call = Call(capacity: int, rate: real, now: real)

  datatype Outcome = Outcome(keys: Keys, reply: Reply)

  const NO_KEYS := Keys(Absent, Absent, Absent)

  function Found(k: Keys, now: real): Keys {
    Keys(At(k.zset, now), At(k.seqNo, now), At(k.last, now))
  }

  /** The first half of the script: read or start the leak clock, and drain whole requests from
      the low ranks. SET gives the clock key no expiry. */
  function Leak(found: Keys, rate: real, now: real): Keys {
    if found.last.Absent? then found.(last := Present(now, None))
    else
      var leaked := Leaked(found, rate, now);
      if leaked > 0 then
        Keys(WithMembers(found.zset, RemoveByRank(Members(found.zset), leaked)), found.seqNo, Present(now, None))
      else found
  }

  function Leaked(found: Keys, rate: real, now: real): int {
    if found.last.Present? && now > found.last.value then Gain(now - found.last.value, rate).Floor else 0
  }

  function Enqueue(k: Keys, now: real): Keys {
    var seqNo := Incr(k.seqNo);
    k.(seqNo := seqNo, zset := WithMembers(k.zset, ZAdd(Members(k.zset), Member(now, seqNo.value))))
  }

  function ExpireAll(k: Keys, now: real, ttl: Option<real>): Keys {
    Keys(Expire(k.zset, now, ttl), Expire(k.seqNo, now, ttl), Expire(k.last, now, ttl))
  }

  function ResetIn(count: int, capacity: int, rate: real): int {
    if count >= capacity && rate > 0.0 then MaxInt(1, Ceil(1.0 / rate)) else 0
  }

  /** The script; `ttl` None stands for the same script without its PEXPIRE commands. */
  function AllowScript(stored: Keys, c: Call, ttl: Option<real>): Outcome {
    var k := Leak(Found(stored, c.now), c.rate, c.now);
    var count := |Members(k.zset)|;
    var allowed := count < c.capacity;
    var written := if allowed then Enqueue(k, c.now) else k;
    Outcome(ExpireAll(written, c.now, ttl),
            Reply(allowed, MaxInt(0, c.capacity - count - if allowed then 1 else 0), ResetIn(count, c.capacity, c.rate)))
  }

  /** The reading script drains as well, but renews only the clock key, and only if it sets it. */
  function ReadScript(stored: Keys, c: Call, ttl: Option<real>): Outcome {
    var found := Found(stored, c.now);
    var k := Leak(found, c.rate, c.now);
    var count := |Members(k.zset)|;
    var written := found.last.Absent? || Leaked(found, c.rate, c.now) > 0;
    Outcome(if written then k.(last := Expire(k.last, c.now, ttl)) else k,
            Reply(false, MaxInt(0, c.capacity - count), ResetIn(count, c.capacity, c.rate)))
  }

  /** The keys `rateguard:leaky_bucket:<client>`, with `:seq` and `:last_leak`. */
  class Keyspace {
    var keys: map<string, Keys>

    function Of(client: string): Keys
      reads this
    {
      if client in keys then keys[client] else NO_KEYS
    }
  }

  class RedisLeakyBucketRateLimiter {
    const storage: Keyspace
    const client: string
    const ttl: int
    var capacity: int
    var rate: real
    var cachedRemaining: Option<int>
    var cachedReset: Option<int>

    constructor (storage: Keyspace, client: string, capacity: int, rate: real)
      ensures this.storage == storage && this.client == client && this.capacity == capacity && this.rate == rate
      ensures ttl == DefaultTtl(capacity, rate) && cachedRemaining == None && cachedReset == None
    {
      this.storage, this.client, this.capacity, this.rate := storage, client, capacity, rate;
      var lifetime := if rate > 0.0 then Truncate(capacity as real / rate) else 3600;
      ttl := MaxInt(1, lifetime);
      cachedRemaining, cachedReset := None, None;
    }

    method AllowRequest(now: real) returns (ok: bool)
      modifies this`cachedRemaining, this`cachedReset, storage
      ensures var o := AllowScript(old(storage.Of(client)), Call(capacity, rate, now), Some(ttl as real));
              && storage.keys == old(storage.keys)[client := o.keys]
              && ok == o.reply.allowed
              && cachedRemaining == Some(o.reply.remaining) && cachedReset == Some(o.reply.resetIn)
    {
      var stored := storage.Of(client);
      var zset, seqNo, lastKey := At(stored.zset, now), At(stored.seqNo, now), At(stored.last, now);
      var last := now;
      if lastKey.Absent? {
        lastKey := Present(now, None);
      } else {
        last := lastKey.value;
      }
      var leaked := 0;
      if now > last {
        leaked := Gain(now - last, rate).Floor;
        if leaked > 0 {
          zset := WithMembers(zset, RemoveByRank(Members(zset), leaked));
          lastKey := Present(now, None);
        }
      }
      var count := |Members(zset)|;
      ok := false;
      if count < capacity {
        seqNo := Incr(seqNo);
        zset := WithMembers(zset, ZAdd(Members(zset), Member(now, seqNo.value)));
        ok := true;
      }
      var lives := Some(ttl as real);
      storage.keys := storage.keys[client := Keys(Expire(zset, now, lives), Expire(seqNo, now, lives), Expire(lastKey, now, lives))];
      var remaining := capacity - count - if ok then 1 else 0;
      if remaining < 0 {
        remaining := 0;
      }
      var resetIn := 0;
      if count >= capacity {
        if rate > 0.0 {
          resetIn := Ceil(1.0 / rate);
          if resetIn < 1 {
            resetIn := 1;
          }
        }
      }
      cachedRemaining, cachedReset := Some(remaining), Some(resetIn);
    }

    method RunRead(now: real) returns (remaining: int, resetIn: int)
      modifies storage
      ensures var o := ReadScript(old(storage.Of(client)), Call(capacity, rate, now), Some(ttl as real));
              && storage.keys == old(storage.keys)[client := o.keys]
              && remaining == o.reply.remaining && resetIn == o.reply.resetIn
    {
      var stored := storage.Of(client);
      var zset, seqNo, lastKey := At(stored.zset, now), At(stored.seqNo, now), At(stored.last, now);
      var lives := Some(ttl as real);
      if lastKey.Absent? {
        lastKey := Expire(Present(now, None), now, lives);
      } else if now > lastKey.value {
        var leaked := Gain(now - lastKey.value, rate).Floor;
        if leaked > 0 {
          zset := WithMembers(zset, RemoveByRank(Members(zset), leaked));
          lastKey := Expire(Present(now, None), now, lives);
        }
      }
      storage.keys := storage.keys[client := Keys(zset, seqNo, lastKey)];
      var count := |Members(zset)|;
      remaining := MaxInt(0, capacity - count);
      resetIn := if count >= capacity && rate > 0.0 then MaxInt(1, Ceil(1.0 / rate)) else 0;
    }

    /** Before any decision of this object the script reads; afterwards the value of its last
        decision is repeated. */
    method RemainingRequests(now: real) returns (n: int)
      modifies storage
      ensures match old(cachedRemaining)
              case Some(r) => n == r && storage.keys == old(storage.keys)
              case None =>
                var o := ReadScript(old(storage.Of(client)), Call(capacity, rate, now), Some(ttl as real));
                n == o.reply.remaining && storage.keys == old(storage.keys)[client := o.keys]
    {
      if cachedRemaining.Some? {
        return cachedRemaining.value;
      }
      var remaining, resetIn := RunRead(now);
      return remaining;
    }

    method ResetTime(now: real) returns (n: int)
      modifies storage
      ensures match old(cachedReset)
              case Some(r) => n == r && storage.keys == old(storage.keys)
              case None =>
                var o := ReadScript(old(storage.Of(client)), Call(capacity, rate, now), Some(ttl as real));
                n == o.reply.resetIn && storage.keys == old(storage.keys)[client := o.keys]
    {
      if cachedReset.Some? {
        return cachedReset.value;
      }
      var remaining, resetIn := RunRead(now);
      return resetIn;
    }
  }

  // ----- Runs of decisions

  predicate Timely(calls: seq<Call>, from: real) {
    && (forall i :: 0 <= i < |calls| ==> 0.0 <= from <= calls[i].now && calls[i].rate >= 0.0 && calls[i].capacity >= 1)
    && (forall i, j :: 0 <= i < j < |calls| ==> calls[i].now <= calls[j].now)
  }

  predicate FixedSettings(calls: seq<Call>, capacity: int, rate: real) {
    forall i :: 0 <= i < |calls| ==> calls[i].capacity == capacity && calls[i].rate == rate
  }

  function After(k: Keys, calls: seq<Call>, ttl: Option<real>): Keys
    decreases |calls|
  {
    if calls == [] then k else After(AllowScript(k, calls[0], ttl).keys, calls[1..], ttl)
  }

  function Replies(k: Keys, calls: seq<Call>, ttl: Option<real>): (r: seq<Reply>)
    ensures |r| == |calls|
    decreases |calls|
  {
    if calls == [] then []
    else
      var o := AllowScript(k, calls[0], ttl);
      [o.reply] + Replies(o.keys, calls[1..], ttl)
  }

  /** What a decision at `now` leaves: three keys with one common expiry and a set that holds at
      least one request, none added after `now`, with distinct names. */
  predicate Left(k: Keys, now: real, ttl: Option<real>) {
    var expiry := if ttl.Some? then Some(now + ttl.value) else None;
    && k.zset.Present? && k.zset.expiry == expiry && k.zset.value != []
    && k.seqNo.Present? && k.seqNo.expiry == expiry
    && k.last.Present? && k.last.expiry == expiry && k.last.value <= now
    && Built(k.zset.value, now, k.seqNo.value)
  }

  /** What any script finds: a set is never empty and never without the number it was named
      from, and the clock was not set in the future. */
  predicate Usable(k: Keys, now: real, ttl: Option<real>) {
    && (k.zset.Present? ==>
          && k.zset.value != [] && k.seqNo.Present? && k.seqNo.expiry == k.zset.expiry
          && Built(k.zset.value, now, k.seqNo.value))
    && (k.last.Present? ==> k.last.value <= now)
    && (ttl == None ==>
          && (k.zset.Present? ==> k.zset.expiry == None)
          && (k.seqNo.Present? ==> k.seqNo.expiry == None)
          && (k.last.Present? ==> k.last.expiry == None))
  }

  function Queued(k: Keys, c: Call): nat {
    |Members(Leak(Found(k, c.now), c.rate, c.now).zset)|
  }

  /** What the first half of the script leaves still satisfies what it found. */
  lemma {:induction false} LeakKeepsBuilt(k: Keys, c: Call, before: real, ttl: Option<real>)
    requires 0.0 <= before <= c.now && Usable(k, before, ttl)
    ensures var l := Leak(Found(k, c.now), c.rate, c.now);
            && l.last.Present? && l.last.value <= c.now
            && (l.seqNo.Absent? ==> l.zset.Absent?)
            && Built(Members(l.zset), c.now, if l.seqNo.Present? then l.seqNo.value else 0)
            && (l.zset.Present? ==> l.zset.value != [])
  {
    var l := Leak(Found(k, c.now), c.rate, c.now);
    if l.zset.Present? {
      var z := k.zset.value;
      BackPartBuilt(z, |z| - |l.zset.value|, before, c.now, k.seqNo.value);
    }
  }

  /** One decision: the set grows by exactly one when a request is admitted. */
  lemma {:induction false} DecisionLeaves(k: Keys, c: Call, before: real, ttl: Option<real>)
    requires 0.0 <= before <= c.now && c.capacity >= 1 && (ttl.Some? ==> ttl.value > 0.0)
    requires Usable(k, before, ttl)
    ensures var o := AllowScript(k, c, ttl);
            && Left(o.keys, c.now, ttl)
            && |o.keys.zset.value| == Queued(k, c) + (if o.reply.allowed then 1 else 0)
            && o.keys.last.value == Leak(Found(k, c.now), c.rate, c.now).last.value
  {
    hide Leak, Built, Usable, ZAdd, Members, Expire, Incr, WithMembers;
    var l := Leak(Found(k, c.now), c.rate, c.now);
    LeakKeepsBuilt(k, c, before, ttl);
    ExpiryAfter(k, c, before, ttl);
    WrittenFrom(l, c, ttl);
  }

  /** The deciding half of the script, on what draining left. */
  lemma {:induction false} WrittenFrom(l: Keys, c: Call, ttl: Option<real>)
    requires 0.0 <= c.now && c.capacity >= 1
    requires l.last.Present? && (l.seqNo.Absent? ==> l.zset.Absent?) && (l.zset.Present? ==> l.zset.value != [])
    requires Built(Members(l.zset), c.now, if l.seqNo.Present? then l.seqNo.value else 0)
    ensures var n := |Members(l.zset)|;
            var r := ExpireAll(if n < c.capacity then Enqueue(l, c.now) else l, c.now, ttl);
            && r.zset.Present? && |r.zset.value| == n + (if n < c.capacity then 1 else 0) && r.zset.value != []
            && r.seqNo.Present? && Built(r.zset.value, c.now, r.seqNo.value)
            && r.last.Present? && r.last.value == l.last.value
  {
    var issued := if l.seqNo.Present? then l.seqNo.value else 0;
    AddNewest(Members(l.zset), Member(c.now, issued + 1), issued);
  }

  /** PEXPIRE sets one expiry; without it none is ever set. */
  lemma {:induction false} ExpiryAfter(k: Keys, c: Call, before: real, ttl: Option<real>)
    requires Usable(k, before, ttl)
    ensures var r := AllowScript(k, c, ttl).keys;
            var expiry := if ttl.Some? then Some(c.now + ttl.value) else None;
            && (r.zset.Present? ==> r.zset.expiry == expiry)
            && (r.seqNo.Present? ==> r.seqNo.expiry == expiry)
            && (r.last.Present? ==> r.last.expiry == expiry)
  {
    hide Built, Gain, RemoveByRank, ZAdd;
  }

  // ----- Can the expiry of the keys be noticed?

  /** As many requests as `most` drain within the time to live. */
  predicate DrainsInTime(most: int, rate: real, ttl: real) {
    Gain(ttl, rate) >= most as real
  }

  /** Two stores that differ only in expiry and in the numbers they have issued. */
  predicate Alike(k: Keys, forever: Keys, now: real, ttl: real) {
    && Left(k, now, Some(ttl)) && Left(forever, now, None)
    && |k.zset.value| == |forever.zset.value| && k.last.value == forever.last.value
  }

  lemma {:induction false} SameCount(k: Keys, forever: Keys, c: Call, before: real, ttl: real, most: int)
    requires ttl > 0.0 && 0.0 <= before <= c.now && c.rate >= 0.0
    requires DrainsInTime(most, c.rate, ttl) && Alike(k, forever, before, ttl) && |k.zset.value| <= most
    ensures Queued(k, c) == Queued(forever, c) <= most
    ensures Leak(Found(k, c.now), c.rate, c.now).last.value == Leak(Found(forever, c.now), c.rate, c.now).last.value
  {
    GainNonNegative(c.now - k.last.value, c.rate);
    if before + ttl <= c.now {
      GainMonotone(ttl, c.now - k.last.value, c.rate);
      assert Found(k, c.now) == NO_KEYS;
    } else {
      assert Found(k, c.now) == k;
    }
  }

  /** At every call what can be queued by then, the largest capacity in force before it, drains
      within the time to live at the rate now in force. */
  predicate DrainsAlong(calls: seq<Call>, most: int, ttl: real)
    decreases |calls|
  {
    calls == []
    || (DrainsInTime(most, calls[0].rate, ttl) && DrainsAlong(calls[1..], MaxInt(most, calls[0].capacity), ttl))
  }

  lemma {:induction false} SameReplies(k: Keys, forever: Keys, calls: seq<Call>, before: real, ttl: real, most: int)
    requires ttl > 0.0 && 0.0 <= before && Timely(calls, before) && DrainsAlong(calls, most, ttl)
    requires Alike(k, forever, before, ttl) && |k.zset.value| <= most
    ensures Replies(k, calls, Some(ttl)) == Replies(forever, calls, None)
    decreases |calls|
  {
    hide Leak, Found, Built, Enqueue, ExpireAll, Members;
    if calls != [] {
      var c := calls[0];
      SameCount(k, forever, c, before, ttl, most);
      DecisionLeaves(k, c, before, Some(ttl));
      DecisionLeaves(forever, c, before, None);
      SameReplies(AllowScript(k, c, Some(ttl)).keys, AllowScript(forever, c, None).keys, calls[1..], c.now, ttl,
                  MaxInt(most, c.capacity));
    }
  }

  /** The expiry of the keys cannot be noticed: on every run, re-tuned or not, along which what was
      admitted under earlier settings drains within the time to live, the script answers as it
      would without a time to live. */
  lemma {:induction false} ExpiryUnnoticed(calls: seq<Call>, ttl: real)
    requires ttl > 0.0 && Timely(calls, 0.0) && DrainsAlong(calls, 0, ttl)
    ensures Replies(NO_KEYS, calls, Some(ttl)) == Replies(NO_KEYS, calls, None)
  {
    if calls != [] {
      var c := calls[0];
      DecisionLeaves(NO_KEYS, c, 0.0, Some(ttl));
      DecisionLeaves(NO_KEYS, c, 0.0, None);
      SameReplies(AllowScript(NO_KEYS, c, Some(ttl)).keys, AllowScript(NO_KEYS, c, None).keys, calls[1..], c.now, ttl, c.capacity);
    }
  }

  // Objects built under different policies, in this worker or others, share the keys of a client and
  // renew them each with its own time to live.
  datatype Shared = Shared(call: Call, ttl: real)

  function CallsIn(run: seq<Shared>): (calls: seq<Call>)
    ensures |calls| == |run| && forall i :: 0 <= i < |run| ==> calls[i] == run[i].call
  {
    seq(|run|, i requires 0 <= i < |run| => run[i].call)
  }

  function SharedReplies(k: Keys, run: seq<Shared>): seq<Reply>
    decreases |run|
  {
    if run == [] then []
    else
      var o := AllowScript(k, run[0].call, Some(run[0].ttl));
      [o.reply] + SharedReplies(o.keys, run[1..])
  }

  /** At every call what can be queued by then drains, at the rate now in force, within the time to live
      of the object that made the call before. */
  predicate SharedDrains(run: seq<Shared>, most: int, ttl: real)
    decreases |run|
  {
    run == []
    || (run[0].ttl > 0.0 && DrainsInTime(most, run[0].call.rate, ttl)
        && SharedDrains(run[1..], MaxInt(most, run[0].call.capacity), run[0].ttl))
  }

  lemma {:induction false} SharedSame(k: Keys, forever: Keys, run: seq<Shared>, before: real, ttl: real, most: int)
    requires ttl > 0.0 && 0.0 <= before && Timely(CallsIn(run), before) && SharedDrains(run, most, ttl)
    requires Alike(k, forever, before, ttl) && |k.zset.value| <= most
    ensures SharedReplies(k, run) == Replies(forever, CallsIn(run), None)
    decreases |run|
  {
    hide Leak, Found, Built, Enqueue, ExpireAll, Members;
    if run != [] {
      var c, lives := run[0].call, run[0].ttl;
      assert CallsIn(run)[1..] == CallsIn(run[1..]);
      assert Timely(CallsIn(run), before) && CallsIn(run)[0] == c;
      SameCount(k, forever, c, before, ttl, most);
      OwnTtlLeaves(k, c, before, ttl, lives);
      DecisionLeaves(forever, c, before, None);
      SharedSame(AllowScript(k, c, Some(lives)).keys, AllowScript(forever, c, None).keys, run[1..], c.now, lives, MaxInt(most, c.capacity));
    }
  }

  /** A decision renews with its own time to live whatever the one before had. */
  lemma {:induction false} OwnTtlLeaves(k: Keys, c: Call, before: real, ttl: real, lives: real)
    requires 0.0 <= before <= c.now && c.capacity >= 1 && lives > 0.0 && Left(k, before, Some(ttl))
    ensures var o := AllowScript(k, c, Some(lives));
            && Left(o.keys, c.now, Some(lives))
            && |o.keys.zset.value| == Queued(k, c) + (if o.reply.allowed then 1 else 0)
            && o.keys.last.value == Leak(Found(k, c.now), c.rate, c.now).last.value
  {
    hide Leak, Built, Enqueue, ExpireAll;
    DecisionLeaves(k, c, before, Some(lives));
  }

  /** With a time to live for every call expiry cannot be noticed either, if at every call what was
      admitted before drains within the time to live the call before has set. */
  lemma {:induction false} SharedExpiryUnnoticed(run: seq<Shared>)
    requires Timely(CallsIn(run), 0.0)
    requires run != [] ==> run[0].ttl > 0.0 && SharedDrains(run[1..], run[0].call.capacity, run[0].ttl)
    ensures SharedReplies(NO_KEYS, run) == Replies(NO_KEYS, CallsIn(run), None)
  {
    if run != [] {
      var c, lives := run[0].call, run[0].ttl;
      assert CallsIn(run)[1..] == CallsIn(run[1..]);
      assert CallsIn(run)[0] == c;
      DecisionLeaves(NO_KEYS, c, 0.0, Some(lives));
      DecisionLeaves(NO_KEYS, c, 0.0, None);
      SharedSame(AllowScript(NO_KEYS, c, Some(lives)).keys, AllowScript(NO_KEYS, c, None).keys, run[1..], c.now, lives, c.capacity);
    }
  }

  /** Under one setting from here on, the run fits if its own capacity and what came before do. */
  lemma {:induction false} SettingDrains(calls: seq<Call>, capacity: int, rate: real, most: int, ttl: real)
    requires FixedSettings(calls, capacity, rate) && DrainsInTime(MaxInt(most, capacity), rate, ttl)
    ensures DrainsAlong(calls, most, ttl)
    decreases |calls|
  {
    if calls != [] {
      SettingDrains(calls[1..], capacity, rate, MaxInt(most, capacity), ttl);
    }
  }

  lemma {:induction false} RetunedDrains(before: seq<Call>, after: seq<Call>, a: Setting, b: Setting, most: int, ttl: real)
    requires FixedSettings(before, a.capacity, a.rate) && FixedSettings(after, b.capacity, b.rate) && most <= a.capacity
    requires DrainsInTime(a.capacity, a.rate, ttl) && DrainsInTime(MaxInt(a.capacity, b.capacity), b.rate, ttl)
    ensures DrainsAlong(before + after, most, ttl)
    decreases |before|
  {
    if before == [] {
      assert before + after == after;
      SettingDrains(after, b.capacity, b.rate, most, ttl);
    } else {
      assert (before + after)[1..] == before[1..] + after;
      RetunedDrains(before[1..], after, a, b, MaxInt(most, a.capacity), ttl);
    }
  }

  function Burst(n: nat, capacity: int, rate: real, t: real): (b: seq<Call>)
    ensures |b| == n && forall i :: 0 <= i < n ==> b[i] == Call(capacity, rate, t)
  {
    seq(n, i => Call(capacity, rate, t))
  }

  /** A second decision at the same instant finds exactly what the first one left. */
  lemma {:induction false} NothingLeaksAtOnce(k: Keys, c: Call, before: real, ttl: Option<real>)
    requires 0.0 <= before <= c.now && c.capacity >= 1 && (ttl.Some? ==> ttl.value > 0.0)
    requires Usable(k, before, ttl)
    ensures var o := AllowScript(k, c, ttl);
            && Left(o.keys, c.now, ttl)
            && Leak(Found(o.keys, c.now), c.rate, c.now) == o.keys
            && Queued(o.keys, c) == Queued(k, c) + (if o.reply.allowed then 1 else 0)
  {
    DecisionLeaves(k, c, before, ttl);
  }

  /** n decisions at one instant: the last is admitted exactly when all n fit. */
  lemma {:induction false} LastOfBurst(k: Keys, n: nat, capacity: int, rate: real, t: real, before: real, ttl: Option<real>)
    requires n >= 1 && capacity >= 1 && 0.0 <= before <= t && (ttl.Some? ==> ttl.value > 0.0)
    requires Usable(k, before, ttl)
    ensures Replies(k, Burst(n, capacity, rate, t), ttl)[n - 1].allowed
            <==> Queued(k, Call(capacity, rate, t)) + n <= capacity
    decreases n
  {
    var c := Call(capacity, rate, t);
    var calls := Burst(n, capacity, rate, t);
    var o := AllowScript(k, c, ttl);
    if n > 1 {
      NothingLeaksAtOnce(k, c, before, ttl);
      assert calls[1..] == Burst(n - 1, capacity, rate, t);
      LastOfBurst(o.keys, n - 1, capacity, rate, t, t, ttl);
      assert Replies(k, calls, ttl)[n - 1] == Replies(o.keys, calls[1..], ttl)[n - 2];
    }
  }

  lemma {:induction false} AfterBurst(k: Keys, n: nat, capacity: int, rate: real, t: real, before: real, ttl: Option<real>)
    requires n >= 1 && capacity >= 1 && 0.0 <= before <= t && (ttl.Some? ==> ttl.value > 0.0)
    requires Usable(k, before, ttl) && Leak(Found(k, t), rate, t).last.value == t
    requires Queued(k, Call(capacity, rate, t)) + n == capacity
    ensures var r := After(k, Burst(n, capacity, rate, t), ttl);
            Left(r, t, ttl) && r.last.value == t && |r.zset.value| == capacity
    decreases n
  {
    var c := Call(capacity, rate, t);
    var calls := Burst(n, capacity, rate, t);
    assert calls[0] == c;
    NothingLeaksAtOnce(k, c, before, ttl);
    DecisionLeaves(k, c, before, ttl);
    var o := AllowScript(k, c, ttl);
    assert calls[1..] == Burst(n - 1, capacity, rate, t);
    if n > 1 {
      AfterBurst(o.keys, n - 1, capacity, rate, t, t, ttl);
    }
  }

  lemma {:induction false} RepliesOfConcat(k: Keys, a: seq<Call>, b: seq<Call>, ttl: Option<real>)
    ensures Replies(k, a + b, ttl) == Replies(k, a, ttl) + Replies(After(k, a, ttl), b, ttl)
    decreases |a|
  {
    if a == [] {
      assert a + b == b;
    } else {
      assert (a + b)[1..] == a[1..] + b;
      RepliesOfConcat(AllowScript(k, a[0], ttl).keys, a[1..], b, ttl);
    }
  }

  /** A bucket of `held` requests left alone for the time to live: is it found empty? */
  lemma {:induction false} EmptiedIff(filled: Keys, held: nat, c: Call, lives: Option<real>)
    requires held >= 1 && c.rate >= 0.0 && c.now > 0.0 && (lives == None || lives == Some(c.now))
    requires Left(filled, 0.0, lives) && filled.last.value == 0.0 && |filled.zset.value| == held
    ensures Queued(filled, c) == 0 <==> lives == Some(c.now) || DrainsInTime(held, c.rate, c.now)
  {
    assert c.now - 0.0 == c.now;
    GainNonNegative(c.now, c.rate);
    if lives == Some(c.now) {
      assert Found(filled, c.now) == NO_KEYS;
    } else {
      assert Found(filled, c.now) == filled;
    }
  }

  /** A capacity with a rate. */
  datatype Setting = Setting(capacity: int, rate: real)

  /** Fill the bucket under `a`, stay away for exactly the time to live, and fill it again under
      `b`: was the last request of the second burst admitted? */
  lemma {:induction false} ProbeLastReply(a: Setting, b: Setting, ttl: real, lives: Option<real>)
    requires a.capacity >= 1 && b.capacity >= 1 && b.rate >= 0.0 && ttl > 0.0 && (lives == None || lives == Some(ttl))
    ensures var run := Burst(a.capacity, a.capacity, a.rate, 0.0) + Burst(b.capacity, b.capacity, b.rate, ttl);
            Replies(NO_KEYS, run, lives)[a.capacity + b.capacity - 1].allowed
            <==> lives == Some(ttl) || DrainsInTime(a.capacity, b.rate, ttl)
  {
    hide AllowScript, Built, DrainsInTime, Replies, After, Enqueue, ExpireAll;
    var first := Burst(a.capacity, a.capacity, a.rate, 0.0);
    var second := Burst(b.capacity, b.capacity, b.rate, ttl);
    AfterBurst(NO_KEYS, a.capacity, a.capacity, a.rate, 0.0, 0.0, lives);
    RepliesOfConcat(NO_KEYS, first, second, lives);
    var filled := After(NO_KEYS, first, lives);
    LastOfBurst(filled, b.capacity, b.capacity, b.rate, ttl, 0.0, lives);
    EmptiedIff(filled, a.capacity, Call(b.capacity, b.rate, ttl), lives);
    assert Replies(NO_KEYS, first + second, lives)[a.capacity + b.capacity - 1] == Replies(filled, second, lives)[b.capacity - 1];
  }

  /** No run that starts under `a` and goes on under `b` is decided differently because of the time to
      live. */
  ghost predicate NeverNoticed(a: Setting, b: Setting, ttl: real) {
    forall before: seq<Call>, after: seq<Call> {:trigger Timely(before + after, 0.0)} ::
      Timely(before + after, 0.0) && FixedSettings(before, a.capacity, a.rate) && FixedSettings(after, b.capacity, b.rate)
      ==> SameDecisions(before + after, ttl)
  }

  predicate SameDecisions(calls: seq<Call>, ttl: real) {
    forall i :: 0 <= i < |calls| ==> Replies(NO_KEYS, calls, Some(ttl))[i].allowed == Replies(NO_KEYS, calls, None)[i].allowed
  }

  /** The probe shows expiry whenever what was queued under `a` does not drain in time under `b`. */
  lemma {:induction false} ProbeNotices(a: Setting, b: Setting, ttl: real)
    requires a.capacity >= 1 && b.capacity >= 1 && a.rate >= 0.0 && b.rate >= 0.0 && ttl > 0.0
    requires !DrainsInTime(a.capacity, b.rate, ttl)
    ensures var run := Burst(a.capacity, a.capacity, a.rate, 0.0) + Burst(b.capacity, b.capacity, b.rate, ttl);
            Timely(run, 0.0) && !SameDecisions(run, ttl)
  {
    hide Replies, DrainsInTime;
    ProbeLastReply(a, b, ttl, Some(ttl));
    ProbeLastReply(a, b, ttl, None);
    var first, second := Burst(a.capacity, a.capacity, a.rate, 0.0), Burst(b.capacity, b.capacity, b.rate, ttl);
    assert forall i :: 0 <= i < |first + second| ==> (first + second)[i] == if i < |first| then first[i] else second[i - |first|];
  }

  /** Exact for a re-tune: expiry changes no decision on any run under `a` and then under `b` if and
      only if both capacities drain within the time to live at the rate of `b`, and that of `a`
      at its own. */
  lemma {:induction false} RetuneUnnoticedIff(a: Setting, b: Setting, ttl: real)
    requires a.capacity >= 1 && b.capacity >= 1 && a.rate >= 0.0 && b.rate >= 0.0 && ttl > 0.0
    ensures NeverNoticed(a, b, ttl)
            <==> DrainsInTime(a.capacity, a.rate, ttl) && DrainsInTime(MaxInt(a.capacity, b.capacity), b.rate, ttl)
  {
    hide Replies;
    if !DrainsInTime(a.capacity, b.rate, ttl) {
      ProbeNotices(a, b, ttl);
    } else if !DrainsInTime(a.capacity, a.rate, ttl) {
      ProbeNotices(a, a, ttl);
      var run := Burst(a.capacity, a.capacity, a.rate, 0.0) + Burst(a.capacity, a.capacity, a.rate, ttl);
      assert run + [] == run && FixedSettings([], b.capacity, b.rate);
    } else if !DrainsInTime(b.capacity, b.rate, ttl) {
      ProbeNotices(b, b, ttl);
      var run := Burst(b.capacity, b.capacity, b.rate, 0.0) + Burst(b.capacity, b.capacity, b.rate, ttl);
      assert [] + run == run && FixedSettings([], a.capacity, a.rate);
    } else {
      forall before: seq<Call>, after: seq<Call> |
        Timely(before + after, 0.0) && FixedSettings(before, a.capacity, a.rate) && FixedSettings(after, b.capacity, b.rate)
        ensures SameDecisions(before + after, ttl)
      {
        RetunedDrains(before, after, a, b, 0, ttl);
        ExpiryUnnoticed(before + after, ttl);
      }
    }
  }

  /** For one setting throughout: if and only if a full bucket drains within the time to live. */
  lemma {:induction false} ExpiryUnnoticedIff(p: Setting, ttl: real)
    requires p.capacity >= 1 && p.rate >= 0.0 && ttl > 0.0
    ensures NeverNoticed(p, p, ttl) <==> DrainsInTime(p.capacity, p.rate, ttl)
  {
    RetuneUnnoticedIff(p, p, ttl);
  }

  // ----- Agreement with the memory limiter

  function MemoryDecisions(s: LeakyBucket.State, calls: seq<Call>): (r: seq<bool>)
    ensures |r| == |calls|
    decreases |calls|
  {
    if calls == [] then []
    else
      var c := LeakyBucket.Call(Allow, calls[0].capacity, calls[0].rate, calls[0].now, calls[0].now);
      [LeakyBucket.Admits(s, c)] + MemoryDecisions(LeakyBucket.Next(s, c), calls[1..])
  }

  /** One decision without expiry against one of the memory bucket. */
  lemma {:induction false} SameDecision(k: Keys, s: LeakyBucket.State, c: Call, before: real)
    requires 0.0 <= before <= c.now && c.capacity >= 1 && c.rate >= 0.0 && Left(k, before, None)
    requires |s.queue| == |k.zset.value| && s.last == k.last.value
    ensures var m := LeakyBucket.Call(Allow, c.capacity, c.rate, c.now, c.now);
            var o := AllowScript(k, c, None);
            && o.reply.allowed == LeakyBucket.Admits(s, m)
            && o.keys.zset.Present? && |o.keys.zset.value| == |LeakyBucket.Next(s, m).queue|
            && o.keys.last.Present? && o.keys.last.value == LeakyBucket.Next(s, m).last
  {
    hide Built, Enqueue, ExpireAll;
    DecisionLeaves(k, c, before, None);
    GainNonNegative(c.now - s.last, c.rate);
    GainAtZero(c.rate);
  }

  lemma {:induction false} SameFrom(k: Keys, s: LeakyBucket.State, calls: seq<Call>, before: real)
    requires 0.0 <= before && Timely(calls, before) && Left(k, before, None)
    requires |s.queue| == |k.zset.value| && s.last == k.last.value
    ensures forall i :: 0 <= i < |calls| ==> Replies(k, calls, None)[i].allowed == MemoryDecisions(s, calls)[i]
    decreases |calls|
  {
    hide AllowScript, LeakyBucket.Next, LeakyBucket.Admits, Built;
    if calls != [] {
      var c := calls[0];
      DecisionLeaves(k, c, before, None);
      SameDecision(k, s, c, before);
      var m := LeakyBucket.Call(Allow, c.capacity, c.rate, c.now, c.now);
      SameFrom(AllowScript(k, c, None).keys, LeakyBucket.Next(s, m), calls[1..], c.now);
    }
  }

  lemma {:induction false} SameFirstDecision(c: Call)
    requires c.capacity >= 1 && 0.0 <= c.now
    ensures var s := LeakyBucket.State([], c.now);
            var m := LeakyBucket.Call(Allow, c.capacity, c.rate, c.now, c.now);
            var o := AllowScript(NO_KEYS, c, None);
            && o.reply.allowed == LeakyBucket.Admits(s, m)
            && |o.keys.zset.value| == |LeakyBucket.Next(s, m).queue|
            && o.keys.last.value == LeakyBucket.Next(s, m).last
  {
    GainAtZero(c.rate);
    DecisionLeaves(NO_KEYS, c, c.now, None);
  }

  /** Without expiry the script decides every run, through every re-tune, as a memory bucket
      created at the first request does. */
  lemma {:induction false} ForeverSameAsMemory(calls: seq<Call>)
    requires calls != [] && Timely(calls, 0.0)
    ensures forall i :: 0 <= i < |calls| ==>
              Replies(NO_KEYS, calls, None)[i].allowed == MemoryDecisions(LeakyBucket.State([], calls[0].now), calls)[i]
  {
    hide AllowScript, LeakyBucket.Next, LeakyBucket.Admits;
    var c := calls[0];
    SameFirstDecision(c);
    DecisionLeaves(NO_KEYS, c, 0.0, None);
    var m := LeakyBucket.Call(Allow, c.capacity, c.rate, c.now, c.now);
    SameFrom(AllowScript(NO_KEYS, c, None).keys, LeakyBucket.Next(LeakyBucket.State([], c.now), m), calls[1..], c.now);
  }

  /** On every run in which expiry cannot be noticed, Redis decides as a memory bucket created
      at the first request does. */
  lemma {:induction false} SameDecisionsAsMemory(calls: seq<Call>, ttl: real)
    requires calls != [] && ttl > 0.0 && Timely(calls, 0.0) && DrainsAlong(calls, 0, ttl)
    ensures forall i :: 0 <= i < |calls| ==>
              Replies(NO_KEYS, calls, Some(ttl))[i].allowed
              == MemoryDecisions(LeakyBucket.State([], calls[0].now), calls)[i]
  {
    ExpiryUnnoticed(calls, ttl);
    ForeverSameAsMemory(calls);
  }

  // ----- Waiting after a rejection

  /** Exactly when a retry is admitted while the keys live: when enough whole requests have
      drained since the last leak. */
  lemma {:induction false} RetryAdmittedIff(k: Keys, c: Call, before: real, ttl: Option<real>)
    requires Left(k, before, ttl) && before <= c.now && c.capacity >= 1 && c.rate >= 0.0
    requires Found(k, c.now) == k
    ensures AllowScript(k, c, ttl).reply.allowed
            <==> |k.zset.value| < c.capacity + Gain(c.now - k.last.value, c.rate).Floor
  {
    hide Built, Enqueue, ExpireAll;
    GainNonNegative(c.now - k.last.value, c.rate);
    GainAtZero(c.rate);
  }

  /** The reset time reported with a rejection is enough when the set holds no more than the
      capacity, whether or not the keys expire meanwhile. */
  lemma {:induction false} WaitingIsEnough(k: Keys, c: Call, before: real, ttl: Option<real>, retry: real)
    requires 0.0 <= before <= c.now && c.capacity >= 1 && c.rate > 0.0 && (ttl.Some? ==> ttl.value > 0.0)
    requires Usable(k, before, ttl) && Queued(k, c) <= c.capacity
    requires var o := AllowScript(k, c, ttl);
             !o.reply.allowed && c.now + o.reply.resetIn as real <= retry
    ensures AllowScript(AllowScript(k, c, ttl).keys, c.(now := retry), ttl).reply.allowed
  {
    var o := AllowScript(k, c, ttl);
    DecisionLeaves(k, c, before, ttl);
    GainReaches(1.0, c.rate, retry - o.keys.last.value);
    if Found(o.keys, retry) == o.keys {
      RetryAdmittedIff(o.keys, c.(now := retry), c.now, ttl);
    } else {
      assert Found(o.keys, retry) == NO_KEYS;
    }
  }

  /** A decision reports a wait exactly when it rejects, and then the least whole number of seconds in which
      one request drains, at least 1. */
  lemma {:induction false} ReportsDrainOfOne(k: Keys, c: Call, ttl: Option<real>, n: nat)
    requires c.rate > 0.0
    ensures var o := AllowScript(k, c, ttl).reply;
            if o.allowed then o.resetIn == 0 else n >= o.resetIn <==> n >= 1 && Gain(n as real, c.rate) >= 1.0
  {
    GainReaches(1.0, c.rate, n as real);
    var least := Ceil(1.0 / c.rate);
    assert n >= least ==> n as real >= least as real;
    assert n < least ==> n as real <= least as real - 1.0;
  }

  /** The clock key lives at least as long as the set: whatever the scripts leave satisfies this. */
  predicate ClockOutlives(k: Keys) {
    k.zset.Present? && k.zset.expiry.Some? ==>
      k.last.Present? && k.last.expiry.Some? && k.zset.expiry.value <= k.last.expiry.value
  }

  lemma {:induction false} ScriptsKeepClock(k: Keys, c: Call, before: real, ttl: real)
    requires 0.0 <= before <= c.now && c.capacity >= 1 && ttl > 0.0 && Usable(k, before, Some(ttl))
    requires ClockOutlives(k) && (k.zset.Present? && k.zset.expiry.Some? ==> k.zset.expiry.value <= before + ttl)
    ensures ClockOutlives(AllowScript(k, c, Some(ttl)).keys) && ClockOutlives(ReadScript(k, c, Some(ttl)).keys)
  {
    hide Built, Enqueue;
    DecisionLeaves(k, c, before, Some(ttl));
  }

  /** The reset time the reading script reports is enough while the set holds no more than the
      capacity, whether or not the keys expire meanwhile. */
  lemma {:induction false} ReadWaitIsEnough(k: Keys, c: Call, before: real, ttl: real, retry: real)
    requires 0.0 <= before <= c.now <= retry && c.capacity >= 1 && c.rate > 0.0 && ttl > 0.0
    requires Usable(k, before, Some(ttl)) && ClockOutlives(k) && (k.zset.Present? ==> k.zset.expiry.Some?)
    requires k.zset.Present? && k.zset.expiry.Some? ==> k.zset.expiry.value <= before + ttl
    requires Queued(k, c) <= c.capacity && c.now + ReadScript(k, c, Some(ttl)).reply.resetIn as real <= retry
    ensures AllowScript(ReadScript(k, c, Some(ttl)).keys, c.(now := retry), Some(ttl)).reply.allowed
  {
    hide Built, Enqueue;
    var r := ReadScript(k, c, Some(ttl)).keys;
    ScriptsKeepClock(k, c, before, ttl);
    ReadQueue(k, c, ttl);
    if At(r.zset, retry).Present? {
      GainNonNegative(retry - r.last.value, c.rate);
      GainReaches(1.0, c.rate, retry - r.last.value);
    }
  }

  /** What a reading leaves is what it counted. */
  lemma {:induction false} ReadQueue(k: Keys, c: Call, ttl: real)
    requires k.last.Present? ==> k.last.value <= c.now
    ensures var r := ReadScript(k, c, Some(ttl)).keys;
            |Members(r.zset)| == Queued(k, c) && r.last.Present? && r.last.value <= c.now
  {
  }

  /** After the capacity is lowered the script does not count how many places are missing, unlike
      the memory bucket: after a rejection that left `over` requests too many, a retry at the reported
      time is admitted exactly if one more than that number drains by then, counted from the last
      leak, or the keys expire. */
  lemma {:induction false} WaitingAfterTighteningIff(k: Keys, c: Call, before: real, over: nat, ttl: real)
    requires 0.0 <= before <= c.now && c.capacity >= 1 && c.rate > 0.0 && ttl > 0.0
    requires Usable(k, before, Some(ttl)) && Queued(k, c) == c.capacity + over
    ensures var o := AllowScript(k, c, Some(ttl));
            var wait := o.reply.resetIn as real;
            && !o.reply.allowed && o.reply.resetIn == MaxInt(1, Ceil(1.0 / c.rate))
            && o.keys.last.Present?
            && (AllowScript(o.keys, c.(now := c.now + wait), Some(ttl)).reply.allowed
                <==> ttl <= wait || Gain(c.now + wait - o.keys.last.value, c.rate) >= (over + 1) as real)
  {
    hide Leak, Built, Usable;
    DecisionLeaves(k, c, before, Some(ttl));
    var o := AllowScript(k, c, Some(ttl));
    RetryAfter(o.keys, c, o.reply.resetIn as real, over, ttl);
  }

  /** The same from what the rejection left. */
  lemma {:induction false} RetryAfter(k: Keys, c: Call, wait: real, over: nat, ttl: real)
    requires 0.0 <= c.now && c.capacity >= 1 && c.rate > 0.0 && ttl > 0.0 && wait >= 0.0
    requires Left(k, c.now, Some(ttl)) && |k.zset.value| == c.capacity + over
    ensures AllowScript(k, c.(now := c.now + wait), Some(ttl)).reply.allowed
            <==> ttl <= wait || Gain(c.now + wait - k.last.value, c.rate) >= (over + 1) as real
  {
    hide Built;
    var again := c.(now := c.now + wait);
    if ttl <= wait {
      assert Found(k, again.now) == NO_KEYS;
    } else {
      assert Found(k, again.now) == k;
      RetryAdmittedIff(k, again, c.now, Some(ttl));
    }
  }

  lemma {:induction false} NothingDrainedYet(k: Keys, c: Call, ttl: real)
    requires Left(k, c.now, Some(ttl)) && k.last.value == c.now && ttl > 0.0 && c.capacity >= 1 && 0.0 <= c.now
    ensures Queued(k, c) == |k.zset.value| && AllowScript(k, c, Some(ttl)).keys.last == Present(c.now, Some(c.now + ttl))
  {
    hide Built;
  }

  /** A bucket built for and filled at capacity + 1, with one request a second, and lowered to
      capacity: a retry at the reported time, one second, is still rejected, for every capacity. */
  lemma {:induction false} WaitingFailsAfterTightening(capacity: nat)
    requires capacity >= 1
    ensures var ttl := DefaultTtl(capacity + 1, 1.0) as real;
            var k := After(NO_KEYS, Burst(capacity + 1, capacity + 1, 1.0, 0.0), Some(ttl));
            var o := AllowScript(k, Call(capacity, 1.0, 0.0), Some(ttl));
            && ttl == (capacity + 1) as real
            && !o.reply.allowed && o.reply.resetIn == 1
            && !AllowScript(o.keys, Call(capacity, 1.0, 1.0), Some(ttl)).reply.allowed
  {
    hide AllowScript, After, Built;
    var ttl := DefaultTtl(capacity + 1, 1.0) as real;
    AfterBurst(NO_KEYS, capacity + 1, capacity + 1, 1.0, 0.0, 0.0, Some(ttl));
    var k := After(NO_KEYS, Burst(capacity + 1, capacity + 1, 1.0, 0.0), Some(ttl));
    var c := Call(capacity, 1.0, 0.0);
    LeftUsable(k, 0.0, Some(ttl));
    NothingDrainedYet(k, c, ttl);
    WaitingAfterTighteningIff(k, c, 0.0, 1, ttl);
    assert Gain(0.0 + 1.0 - 0.0, 1.0) == 1.0;
    assert c.(now := c.now + 1.0) == Call(capacity, 1.0, 1.0);
  }

  // ----- The remaining count

  /** Of n decisions at one instant, as many admit as there are free places. */
  lemma {:induction false} AdmittedOfBurst(k: Keys, n: nat, capacity: int, rate: real, t: real, before: real, ttl: Option<real>)
    requires capacity >= 1 && 0.0 <= before <= t && (ttl.Some? ==> ttl.value > 0.0) && Usable(k, before, ttl)
    ensures Allowed(Replies(k, Burst(n, capacity, rate, t), ttl))
         == MinInt(n, MaxInt(0, capacity - Queued(k, Call(capacity, rate, t))))
    decreases n
  {
    hide Usable, Left, Leak, Enqueue, ExpireAll, Built;
    if n > 0 {
      var c := Call(capacity, rate, t);
      var calls := Burst(n, capacity, rate, t);
      assert calls[1..] == Burst(n - 1, capacity, rate, t);
      NothingLeaksAtOnce(k, c, before, ttl);
      LeftUsable(AllowScript(k, c, ttl).keys, t, ttl);
      AdmittedOfBurst(AllowScript(k, c, ttl).keys, n - 1, capacity, rate, t, t, ttl);
    }
  }

  lemma {:induction false} LeftUsable(k: Keys, now: real, ttl: Option<real>)
    requires Left(k, now, ttl)
    ensures Usable(k, now, ttl)
  {
  }

  /** The count either script reports is true: of n further requests made at once exactly that many are
      admitted. */
  lemma {:induction false} RemainingIsAdmitted(k: Keys, n: nat, c: Call, before: real, ttl: Option<real>)
    requires c.capacity >= 1 && 0.0 <= before <= c.now && (ttl.Some? ==> ttl.value > 0.0) && Usable(k, before, ttl)
    ensures var o := AllowScript(k, c, ttl);
            Allowed(Replies(o.keys, Burst(n, c.capacity, c.rate, c.now), ttl)) == MinInt(n, o.reply.remaining)
    ensures Allowed(Replies(k, Burst(n, c.capacity, c.rate, c.now), ttl)) == MinInt(n, ReadScript(k, c, ttl).reply.remaining)
  {
    hide Usable, Left, Leak, Enqueue, ExpireAll, Built, Replies;
    NothingLeaksAtOnce(k, c, before, ttl);
    LeftUsable(AllowScript(k, c, ttl).keys, c.now, ttl);
    AdmittedOfBurst(AllowScript(k, c, ttl).keys, n, c.capacity, c.rate, c.now, c.now, ttl);
    AdmittedOfBurst(k, n, c.capacity, c.rate, c.now, before, ttl);
  }
}
