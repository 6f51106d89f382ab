/** app/algorithms/redis_sliding_window.py: a sorted set of admission times and the sequence
    number that keeps their names apart. */
module RedisSlidingWindow {
  import opened Prelude
  import opened Redis
  import SlidingWindow

  datatype Keys = Keys(zset: Slot<seq<Member>>, seqNo: Slot<int>)

  datatype Outcome = Outcome(keys: Keys, reply: Reply)

  const NO_KEYS := Keys(Absent, Absent)

  /** Both keys live this much longer than the window. */
  const GRACE := 5.0

  function Found(k: Keys, now: real): Keys {
    Keys(At(k.zset, now), At(k.seqNo, now))
  }

  /** ZREMRANGEBYSCORE key 0 (now - window) */
  function Prune(found: Keys, window: real, now: real): Keys {
    found.(zset := WithMembers(found.zset, RemoveByScore(Members(found.zset), now - window)))
  }

  function Enqueue(k: Keys, now: real): Keys {
    var seqNo := Incr(k.seqNo);
    Keys(WithMembers(k.zset, ZAdd(Members(k.zset), Member(now, seqNo.value))), seqNo)
  }

  /** The wait for the oldest entry, at least 1, when the window is full. */
  function ResetIn(z: seq<Member>, limit: int, window: real, now: real): int {
    if |z| >= limit && z != [] then MaxInt(1, Ceil(z[0].score + window - now)) else 0
  }

  function AllowScript(stored: Keys, limit: int, window: real, now: real): Outcome {
    var k := Prune(Found(stored, now), window, now);
    var z := Members(k.zset);
    var allowed := |z| < limit;
    var written := if allowed then Enqueue(k, now) else k;
    var ttl := Some(window + GRACE);
    Outcome(Keys(Expire(written.zset, now, ttl), Expire(written.seqNo, now, ttl)),
            Reply(allowed, MaxInt(0, limit - |z| - if allowed then 1 else 0), ResetIn(z, limit, window, now)))
  }

  /** The reading script prunes but renews no expiry. */
  function ReadScript(stored: Keys, limit: int, window: real, now: real): Outcome {
    var k := Prune(Found(stored, now), window, now);
    var z := Members(k.zset);
    Outcome(k, Reply(false, MaxInt(0, limit - |z|), ResetIn(z, limit, window, now)))
  }

  /** The keys `rateguard:sliding_window:<client>` and their `:seq`. */
  class Keyspace {
    var keys: map<string, Keys>

    function Of(client: string): Keys
      reads this
    {
      if client in keys then keys[client] else NO_KEYS
    }
  }

  class RedisSlidingWindowRateLimiter {
    const storage: Keyspace
    const client: string
    var limit: int
    var window: real
    var cachedRemaining: Option<int>
    var cachedReset: Option<int>

    constructor (storage: Keyspace, client: string, limit: int, window: real)
      ensures this.storage == storage && this.client == client && this.limit == limit && this.window == window
      ensures cachedRemaining == None && cachedReset == None
    {
      this.storage, this.client, this.limit, this.window := storage, client, limit, window;
      cachedRemaining, cachedReset := None, None;
    }

    method AllowRequest(now: real) returns (ok: bool)
      modifies this`cachedRemaining, this`cachedReset, storage
      ensures var o := AllowScript(old(storage.Of(client)), limit, window, now);
              && storage.keys == old(storage.keys)[client := o.keys]
              && ok == o.reply.allowed
              && cachedRemaining == Some(o.reply.remaining) && cachedReset == Some(o.reply.resetIn)
    {
      var stored := storage.Of(client);
      var zset, seqNo := At(stored.zset, now), At(stored.seqNo, now);
      zset := WithMembers(zset, RemoveByScore(Members(zset), now - window));
      var pruned := Members(zset);
      var count := |pruned|;
      ok := false;
      if count < limit {
        seqNo := Incr(seqNo);
        zset := WithMembers(zset, ZAdd(Members(zset), Member(now, seqNo.value)));
        ok := true;
      }
      var lives := Some(window + GRACE);
      storage.keys := storage.keys[client := Keys(Expire(zset, now, lives), Expire(seqNo, now, lives))];
      var remaining := limit - count - if ok then 1 else 0;
      if remaining < 0 {
        remaining := 0;
      }
      cachedRemaining, cachedReset := Some(remaining), Some(ResetIn(pruned, limit, window, now));
    }

    /** Before any decision of this object the set is pruned and counted; afterwards the value of
        its last decision is repeated. */
    method RemainingRequests(now: real) returns (n: int)
      modifies storage
      ensures match old(cachedRemaining)
              case Some(r) => n == r && storage.keys == old(storage.keys)
              case None =>
                var o := ReadScript(old(storage.Of(client)), limit, window, now);
                n == o.reply.remaining && storage.keys == old(storage.keys)[client := o.keys]
    {
      if cachedRemaining.Some? {
        return cachedRemaining.value;
      }
      var k := Prune(Found(storage.Of(client), now), window, now);
      storage.keys := storage.keys[client := k];
      n := MaxInt(0, limit - |Members(k.zset)|);
    }

    method ResetTime(now: real) returns (n: int)
      modifies storage
      ensures match old(cachedReset)
              case Some(r) => n == r && storage.keys == old(storage.keys)
              case None =>
                var o := ReadScript(old(storage.Of(client)), limit, window, now);
                n == o.reply.resetIn && storage.keys == old(storage.keys)[client := o.keys]
    {
      if cachedReset.Some? {
        return cachedReset.value;
      }
      var k := Prune(Found(storage.Of(client), now), window, now);
      storage.keys := storage.keys[client := k];
      n := ResetIn(Members(k.zset), limit, window, now);
    }
  }

  // ----- Agreement with the memory limiter

  function Script(k: Keys, c: SlidingWindow.Call): Outcome {
    if c.op.Allow? then AllowScript(k, c.limit, c.window, c.now) else ReadScript(k, c.limit, c.window, c.now)
  }

  /** The stored set is the live admissions: the scores are exactly the memory queue `ts`, the
      names are distinct and no sequence number was used twice, and both keys outlive every
      entry by `window` (that of the last decision) plus the grace. */
  predicate Tracks(k: Keys, ts: seq<real>, now: real, window: real) {
    match k.zset
    case Absent => ts == []
    case Present(z, expiry) =>
      && expiry.Some? && k.seqNo.Present? && k.seqNo.expiry == expiry
      && z != [] && Built(z, now, k.seqNo.value) && Scores(z) == ts
      && forall i :: 0 <= i < |z| ==> z[i].score + window + GRACE <= expiry.value
  }

  lemma {:induction false} DropsFront(ts: seq<real>, cutoff: real, k: nat)
    requires k <= |ts| && (forall i :: 0 <= i < k ==> ts[i] <= cutoff) && (k < |ts| ==> ts[k] > cutoff)
    ensures SlidingWindow.DropExpired(ts, cutoff) == ts[k..]
    decreases k
  {
    if k > 0 {
      DropsFront(ts[1..], cutoff, k - 1);
    }
  }

  /** Pruning: whether the set is alive or has expired, what remains of it are the memory
      limiter's live entries. */
  lemma {:induction false} PruneAgrees(k: Keys, ts: seq<real>, before: real, window: real, c: SlidingWindow.Call)
    requires 0.0 <= before <= c.now && c.window > 0.0 && c.window <= window + GRACE
    requires Tracks(k, ts, before, window)
    ensures var p := Prune(Found(k, c.now), c.window, c.now);
            && Scores(Members(p.zset)) == SlidingWindow.Live(ts, c)
            && Tracks(p, SlidingWindow.Live(ts, c), c.now, window)
            && Built(Members(p.zset), c.now, if p.seqNo.Present? then p.seqNo.value else 0)
  {
    hide Built, Scores, RemoveByScore, SlidingWindow.DropExpired;
    if k.zset.Absent? {
      NothingLives(c.now, c.now - c.window);
    } else if At(k.zset, c.now).Absent? {
      AllExpired(k, ts, before, window, c);
      NothingLives(c.now, c.now - c.window);
    } else {
      PruneLiveAgrees(k.zset.value, ts, before, c.now, c.now - c.window, k.seqNo.value);
      StillTracked(k, ts, before, window, c);
    }
  }

  lemma {:induction false} NothingLives(now: real, cutoff: real)
    ensures SlidingWindow.DropExpired([], cutoff) == [] && RemoveByScore([], cutoff) == [] && Scores([]) == []
    ensures forall last: int :: Built([], now, last)
  {
  }

  lemma {:induction false} AllExpired(k: Keys, ts: seq<real>, before: real, window: real, c: SlidingWindow.Call)
    requires c.window > 0.0 && c.window <= window + GRACE && Tracks(k, ts, before, window)
    requires k.zset.Present? && At(k.zset, c.now).Absent?
    ensures SlidingWindow.Live(ts, c) == []
  {
    forall i | 0 <= i < |ts| ensures ts[i] <= c.now - c.window {
      assert ts[i] == k.zset.value[i].score;
    }
    DropsFront(ts, c.now - c.window, |ts|);
  }

  /** Entries that stay keep the time left before expiry. */
  lemma {:induction false} StillTracked(k: Keys, ts: seq<real>, before: real, window: real, c: SlidingWindow.Call)
    requires Tracks(k, ts, before, window) && k.zset.Present? && At(k.zset, c.now).Present?
    requires var rest := RemoveByScore(k.zset.value, c.now - c.window);
             |rest| <= |k.zset.value| && rest == k.zset.value[|k.zset.value| - |rest|..]
    ensures var rest := RemoveByScore(k.zset.value, c.now - c.window);
            forall i :: 0 <= i < |rest| ==> rest[i].score + window + GRACE <= k.zset.expiry.value
  {
  }

  lemma {:induction false} PruneLiveAgrees(z: seq<Member>, ts: seq<real>, before: real, now: real, cutoff: real, last: int)
    requires Built(z, before, last) && Scores(z) == ts && before <= now
    ensures var rest := RemoveByScore(z, cutoff);
            && Scores(rest) == SlidingWindow.DropExpired(ts, cutoff)
            && Built(rest, now, last)
            && |rest| <= |z| && rest == z[|z| - |rest|..]
  {
    var n := RemovalCutsFront(z, cutoff);
    forall i | 0 <= i < |z| ensures ts[i] == z[i].score {}
    DropsFront(ts, cutoff, n);
    BackPartBuilt(z, n, before, now, last);
  }

  /** The reset time of a memory queue once pruned, rounded as Redis rounds. */
  function WaitFor(live: seq<real>, limit: int, window: real, now: real): int {
    if |live| >= limit && live != [] then MaxInt(1, Ceil(live[0] + window - now)) else 0
  }

  /** One call: the same decision, the same remaining count, the reset time of the same live
      entries, and again exactly the live admissions. */
  lemma {:induction false} CallAgrees(k: Keys, ts: seq<real>, before: real, window: real, c: SlidingWindow.Call)
    requires 0.0 <= before <= c.now == c.later && c.window > 0.0 && c.limit >= 1 && c.window <= window + GRACE
    requires Tracks(k, ts, before, window)
    ensures Script(k, c).reply.allowed == SlidingWindow.Admits(ts, c)
    ensures Script(k, c).reply.remaining == SlidingWindow.Remaining(SlidingWindow.Next(ts, c), c.limit)
    ensures Script(k, c).reply.resetIn == WaitFor(SlidingWindow.Live(ts, c), c.limit, c.window, c.now)
    ensures Tracks(Script(k, c).keys, SlidingWindow.Next(ts, c), c.now, if c.op.Allow? then c.window else window)
  {
    PruneAgrees(k, ts, before, window, c);
    var p := Prune(Found(k, c.now), c.window, c.now);
    assert |Members(p.zset)| == |SlidingWindow.Live(ts, c)|;
    if c.op.Allow? {
      AllowTracks(p, SlidingWindow.Live(ts, c), window, c);
    }
  }

  /** The deciding half of the script, on a pruned set. */
  lemma {:induction false} AllowTracks(p: Keys, live: seq<real>, window: real, c: SlidingWindow.Call)
    requires 0.0 <= c.now == c.later && c.limit >= 1
    requires Tracks(p, live, c.now, window)
    requires Built(Members(p.zset), c.now, if p.seqNo.Present? then p.seqNo.value else 0)
    ensures var written := if |live| < c.limit then Enqueue(p, c.now) else p;
            var ttl := Some(c.window + GRACE);
            Tracks(Keys(Expire(written.zset, c.now, ttl), Expire(written.seqNo, c.now, ttl)),
                   if |live| < c.limit then live + [c.later] else live, c.now, c.window)
  {
    hide ZAdd;
    if |live| < c.limit {
      var issued := if p.seqNo.Present? then p.seqNo.value else 0;
      AddNewest(Members(p.zset), Member(c.now, issued + 1), issued);
      assert Scores(Members(p.zset)) == live;
    }
  }

  /** Each call's window exceeds the window of the last decision by no more than the grace. */
  predicate WindowsFit(calls: seq<SlidingWindow.Call>, window: real)
    decreases |calls|
  {
    calls == []
    || (calls[0].window <= window + GRACE
        && WindowsFit(calls[1..], if calls[0].op.Allow? then calls[0].window else window))
  }

  /** Calls with one clock reading each, as the server's clock gives it. */
  predicate ServerTimed(calls: seq<SlidingWindow.Call>, from: real) {
    && (forall i :: 0 <= i < |calls| ==>
          from <= calls[i].now == calls[i].later && calls[i].window > 0.0 && calls[i].limit >= 1)
    && (forall i, j :: 0 <= i < j < |calls| ==> calls[i].now <= calls[j].now)
  }

  function Answers(k: Keys, calls: seq<SlidingWindow.Call>): seq<Reply>
    decreases |calls|
  {
    if calls == [] then []
    else
      var o := Script(k, calls[0]);
      [o.reply] + Answers(o.keys, calls[1..])
  }

  /** What a memory limiter would answer, its reset time rounded as Redis rounds. */
  function MemoryAnswer(ts: seq<real>, c: SlidingWindow.Call): Reply {
    Reply(SlidingWindow.Admits(ts, c), SlidingWindow.Remaining(SlidingWindow.Next(ts, c), c.limit),
          WaitFor(SlidingWindow.Live(ts, c), c.limit, c.window, c.now))
  }

  function MemoryAnswers(ts: seq<real>, calls: seq<SlidingWindow.Call>): seq<Reply>
    decreases |calls|
  {
    if calls == [] then [] else [MemoryAnswer(ts, calls[0])] + MemoryAnswers(SlidingWindow.Next(ts, calls[0]), calls[1..])
  }

  lemma {:induction false} AnswersAgree(k: Keys, ts: seq<real>, before: real, window: real, calls: seq<SlidingWindow.Call>)
    requires 0.0 <= before && ServerTimed(calls, before) && WindowsFit(calls, window) && Tracks(k, ts, before, window)
    ensures Answers(k, calls) == MemoryAnswers(ts, calls)
    decreases |calls|
  {
    if calls != [] {
      var c := calls[0];
      CallAgrees(k, ts, before, window, c);
      AnswersAgree(Script(k, c).keys, SlidingWindow.Next(ts, c), c.now,
                   if c.op.Allow? then c.window else window, calls[1..]);
    }
  }

  /** For every run of decisions and readings by any number of workers, through changes of limit
      and of window that fit the grace, Redis answers exactly as one memory limiter that
      never expires anything but timestamps: neither the keys' expiry nor the restart of the
      sequence number after it can be noticed. */
  lemma {:induction false} SameAnswersAsMemory(calls: seq<SlidingWindow.Call>, from: real)
    requires 0.0 <= from && ServerTimed(calls, from)
    requires calls != [] ==> WindowsFit(calls, calls[0].window)
    ensures Answers(NO_KEYS, calls) == MemoryAnswers([], calls)
  {
    if calls != [] {
      AnswersAgree(NO_KEYS, [], from, calls[0].window, calls);
    }
  }

  lemma {:induction false} OneWindowFits(calls: seq<SlidingWindow.Call>, window: real)
    requires SlidingWindow.OneWindow(calls, window)
    ensures WindowsFit(calls, window)
    decreases |calls|
  {
    if calls != [] {
      OneWindowFits(calls[1..], window);
    }
  }

  lemma {:induction false} RetunedWindowFits(before: seq<SlidingWindow.Call>, after: seq<SlidingWindow.Call>, w: real, w': real, last: real)
    requires SlidingWindow.OneWindow(before, w) && SlidingWindow.OneWindow(after, w') && w > 0.0 && w' > 0.0 && w' <= w + GRACE && (last == w || (last == w' && before == []))
    ensures WindowsFit(before + after, last)
    decreases |before| + |after|
  {
    if before != [] {
      assert (before + after)[1..] == before[1..] + after;
      RetunedWindowFits(before[1..], after, w, w', last);
    } else if after != [] {
      assert before + after == after && before + after[1..] == after[1..];
      RetunedWindowFits(before, after[1..], w, w', if after[0].op.Allow? then w' else last);
    }
  }

  /** No run that starts under window w and goes on under w' is answered differently. */
  ghost predicate RetuneUnnoticed(w: real, w': real) {
    forall before: seq<SlidingWindow.Call>, after: seq<SlidingWindow.Call> {:trigger ServerTimed(before + after, 0.0)} ::
      ServerTimed(before + after, 0.0) && SlidingWindow.OneWindow(before, w) && SlidingWindow.OneWindow(after, w')
      ==> Answers(NO_KEYS, before + after) == MemoryAnswers([], before + after)
  }

  /** The grace is exactly what a re-tune may add to the window: with more, the old entries have
      expired from Redis while the longer window still covers them. */
  lemma {:induction false} RetuneUnnoticedIff(w: real, w': real)
    requires w > 0.0 && w' > 0.0
    ensures RetuneUnnoticed(w, w') <==> w' <= w + 5.0
  {
    if w' <= w + GRACE {
      forall before: seq<SlidingWindow.Call>, after: seq<SlidingWindow.Call> |
        ServerTimed(before + after, 0.0) && SlidingWindow.OneWindow(before, w) && SlidingWindow.OneWindow(after, w')
        ensures Answers(NO_KEYS, before + after) == MemoryAnswers([], before + after)
      {
        if before + after != [] {
          RetunedWindowFits(before, after, w, w', (before + after)[0].window);
        }
        SameAnswersAsMemory(before + after, 0.0);
      }
    } else {
      var first, second := SlidingWindow.Call(Allow, 1, w, 0.0, 0.0), SlidingWindow.Call(Allow, 1, w', w + GRACE, w + GRACE);
      ForgottenEntry(first, second);
      assert ServerTimed([first] + [second], 0.0) && SlidingWindow.OneWindow([first], w) && SlidingWindow.OneWindow([second], w');
    }
  }

  lemma {:induction false} ForgottenEntry(first: SlidingWindow.Call, second: SlidingWindow.Call)
    requires first.op.Allow? && second.op.Allow? && first.limit == second.limit == 1
    requires first.now == first.later == 0.0 && second.now == second.later == first.window + GRACE
    requires 0.0 < first.window && first.window + GRACE < second.window
    ensures Answers(NO_KEYS, [first] + [second]) != MemoryAnswers([], [first] + [second])
  {
    CallAgrees(NO_KEYS, [], 0.0, first.window, first);
    var o := Script(NO_KEYS, first);
    assert SlidingWindow.Next([], first) == [0.0];
    assert Found(o.keys, second.now) == NO_KEYS;
    assert Script(o.keys, second).reply.allowed && !SlidingWindow.Admits([0.0], second);
    var calls := [first] + [second];
    assert calls[1..] == [second] && [second][1..] == [];
    assert Answers(o.keys, [second])[0].allowed && !MemoryAnswers([0.0], [second])[0].allowed;
    assert Answers(NO_KEYS, calls)[1] == Answers(o.keys, [second])[0];
    assert MemoryAnswers([], calls)[1] == MemoryAnswers([0.0], [second])[0];
  }

  // ----- The reported reset time

  /** After a rejection under an unchanged limit the reported time is always enough, whether or
      not the keys expire meanwhile. */
  lemma {:induction false} WaitingIsEnough(k: Keys, ts: seq<real>, before: real, c: SlidingWindow.Call, retry: real)
    requires 0.0 <= before <= c.now == c.later && c.window > 0.0 && c.limit >= 1 && c.op.Allow?
    requires Tracks(k, ts, before, c.window) && |ts| <= c.limit
    requires var o := Script(k, c);
             !o.reply.allowed && c.now + o.reply.resetIn as real <= retry
    ensures Script(Script(k, c).keys, c.(now := retry, later := retry)).reply.allowed
  {
    hide Built, Enqueue;
    PruneAgrees(k, ts, before, c.window, c);
    CallAgrees(k, ts, before, c.window, c);
    SlidingWindow.DropExpiredNoLonger(ts, c.now - c.window);
    var queue := SlidingWindow.Next(ts, c);
    var z := Members(Prune(Found(k, c.now), c.window, c.now).zset);
    assert queue[0] == Scores(z)[0];
    var again := c.(now := retry, later := retry);
    CallAgrees(Script(k, c).keys, queue, c.now, c.window, again);
    SlidingWindow.DropExpiredNoLonger(queue[1..], retry - c.window);
  }

  /** And no shorter one is: after a rejection under an unchanged limit a retry a whole number of seconds
      later is admitted exactly from the reported number on. */
  lemma {:induction false} ReportedIsLeast(k: Keys, ts: seq<real>, before: real, c: SlidingWindow.Call, n: nat)
    requires 0.0 <= before <= c.now == c.later && c.window > 0.0 && c.limit >= 1 && c.op.Allow?
    requires Tracks(k, ts, before, c.window) && |ts| <= c.limit && !Script(k, c).reply.allowed
    ensures var o, later := Script(k, c), c.now + n as real;
            Script(o.keys, c.(now := later, later := later)).reply.allowed <==> n >= o.reply.resetIn
  {
    hide Script, Tracks;
    CallAgrees(k, ts, before, c.window, c);
    var live := SlidingWindow.Live(ts, c);
    SlidingWindow.DropExpiredNoLonger(ts, c.now - c.window);
    FirstIsLive(ts, c.now - c.window);
    var later := c.now + n as real;
    RetryAdmittedIff(Script(k, c).keys, live, c.now, c.window, c.(now := later, later := later));
    LeastWhole(live[0] + c.window - c.now, n);
  }

  lemma {:induction false} FirstIsLive(ts: seq<real>, cutoff: real)
    ensures var live := SlidingWindow.DropExpired(ts, cutoff); live != [] ==> live[0] > cutoff
    decreases |ts|
  {
    if ts != [] && ts[0] <= cutoff {
      FirstIsLive(ts[1..], cutoff);
    }
  }

  lemma {:induction false} LeastWhole(x: real, n: nat)
    requires x > 0.0
    ensures n >= MaxInt(1, Ceil(x)) <==> n as real >= x
  {
    assert n >= Ceil(x) ==> n as real >= Ceil(x) as real;
    assert n < Ceil(x) ==> n as real <= Ceil(x) as real - 1.0;
  }

  /** So is the time a reading reports. */
  lemma {:induction false} ReadWaitIsEnough(k: Keys, ts: seq<real>, before: real, c: SlidingWindow.Call, retry: real)
    requires 0.0 <= before <= c.now == c.later && c.window > 0.0 && c.limit >= 1 && c.op.Read?
    requires Tracks(k, ts, before, c.window) && |ts| <= c.limit
    requires c.now <= retry && c.now + Script(k, c).reply.resetIn as real <= retry
    ensures Script(Script(k, c).keys, c.(op := Allow, now := retry, later := retry)).reply.allowed
  {
    hide Script, Tracks;
    CallAgrees(k, ts, before, c.window, c);
    var queue := SlidingWindow.Next(ts, c);
    SlidingWindow.DropExpiredNoLonger(ts, c.now - c.window);
    RetryAdmittedIff(Script(k, c).keys, queue, c.now, c.window, c.(op := Allow, now := retry, later := retry));
  }

  /** While a limiter is full, the two backends' reset times differ by the rounding only: the same
      value if the wait is whole, one second more in Redis otherwise. After an admission
      Redis reports 0, whatever memory would report. */
  lemma {:induction false} ResetDiffersByRounding(z: seq<Member>, limit: int, window: real, now: real)
    requires z != [] && z[0].score > now - window
    ensures var wait := z[0].score + window - now;
            var memory := SlidingWindow.ResetIn(Scores(z), window, now);
            ResetIn(z, limit, window, now)
            == if |z| < limit then 0 else if IsWhole(wait) then memory else memory + 1
  {
  }

  /** Exactly when a decision admits, in every tracked state: when the entry `limit` places from the
      newest end has left the window. */
  lemma {:induction false} RetryAdmittedIff(k: Keys, ts: seq<real>, before: real, window: real, c: SlidingWindow.Call)
    requires 0.0 <= before <= c.now == c.later && c.window > 0.0 && c.limit >= 1 && c.window <= window + GRACE && c.op.Allow?
    requires Tracks(k, ts, before, window)
    ensures Script(k, c).reply.allowed <==> |ts| < c.limit || ts[|ts| - c.limit] + c.window <= c.now
  {
    hide Script, Tracks, SlidingWindow.Admits, SlidingWindow.Live, SlidingWindow.Sorted, WaitFor;
    CallAgrees(k, ts, before, window, c);
    TrackedSorted(k, ts, before, window);
    SlidingWindow.RetryAdmittedIff(ts, c.limit, c.window, c.now);
  }

  lemma {:induction false} TrackedSorted(k: Keys, ts: seq<real>, now: real, window: real)
    requires Tracks(k, ts, now, window)
    ensures SlidingWindow.Sorted(ts)
  {
    if k.zset.Present? {
      var z := k.zset.value;
      assert forall i :: 0 <= i < |z| ==> ts[i] == z[i].score;
    }
  }

  function After(k: Keys, calls: seq<SlidingWindow.Call>): Keys
    decreases |calls|
  {
    if calls == [] then k else After(Script(k, calls[0]).keys, calls[1..])
  }

  function MemoryAfter(ts: seq<real>, calls: seq<SlidingWindow.Call>): seq<real>
    decreases |calls|
  {
    if calls == [] then ts else MemoryAfter(SlidingWindow.Next(ts, calls[0]), calls[1..])
  }

  /** Every run under one window leaves the live admissions. */
  lemma {:induction false} RunTracks(k: Keys, ts: seq<real>, before: real, window: real, calls: seq<SlidingWindow.Call>) returns (end: real)
    requires 0.0 <= before && window > 0.0 && ServerTimed(calls, before) && SlidingWindow.OneWindow(calls, window) && Tracks(k, ts, before, window)
    ensures end == if calls == [] then before else calls[|calls| - 1].now
    ensures Tracks(After(k, calls), MemoryAfter(ts, calls), end, window)
    decreases |calls|
  {
    end := before;
    if calls != [] {
      var c := calls[0];
      CallAgrees(k, ts, before, window, c);
      end := RunTracks(Script(k, c).keys, SlidingWindow.Next(ts, c), c.now, window, calls[1..]);
    }
  }

  /** One request at 0 and `limit` at 3, under a limit of limit + 1. */
  function Filling(limit: nat, window: real): seq<SlidingWindow.Call> {
    [SlidingWindow.Call(Allow, limit + 1, window, 0.0, 0.0)] + seq(limit, i => SlidingWindow.Call(Allow, limit + 1, window, 3.0, 3.0))
  }

  lemma {:induction false} FillingQueue(ts: seq<real>, n: nat, limit: nat, window: real)
    requires window > 3.0 && ts != [] && ts[0] == 0.0 && |ts| + n == limit + 1
    ensures MemoryAfter(ts, seq(n, i => SlidingWindow.Call(Allow, limit + 1, window, 3.0, 3.0))) == ts + seq(n, i => 3.0)
    decreases n
  {
    var c := SlidingWindow.Call(Allow, limit + 1, window, 3.0, 3.0);
    if n == 0 {
      assert ts + seq(n, i => 3.0) == ts;
    } else {
      assert SlidingWindow.Live(ts, c) == ts;
      assert seq(n, i => c)[1..] == seq(n - 1, i => c);
      FillingQueue(ts + [3.0], n - 1, limit, window);
      assert ts + seq(n, i => 3.0) == (ts + [3.0]) + seq(n - 1, i => 3.0);
    }
  }

  /** After the limit is lowered the reported time is that of the oldest entry only: for every limit a
      limiter filled at limit + 1 and then lowered rejects a retry at the time it reported. */
  lemma {:induction false} WaitingFailsAfterTightening(limit: nat, window: real)
    requires limit >= 1 && window > 4.0
    ensures var k := After(NO_KEYS, Filling(limit, window));
            var c := SlidingWindow.Call(Allow, limit, window, 3.0, 3.0);
            var o := Script(k, c);
            var retry := 3.0 + o.reply.resetIn as real;
            && !o.reply.allowed
            && !Script(o.keys, c.(now := retry, later := retry)).reply.allowed
  {
    hide Script, Tracks, Built;
    EmptyTracked(window);
    var calls := Filling(limit, window);
    var first := calls[0];
    assert SlidingWindow.Next([], first) == [0.0];
    assert calls[1..] == seq(limit, i => SlidingWindow.Call(Allow, limit + 1, window, 3.0, 3.0));
    FillingQueue([0.0], limit, limit, window);
    var ts := [0.0] + seq(limit, i => 3.0);
    var end := RunTracks(NO_KEYS, [], 0.0, window, calls);
    var k := After(NO_KEYS, calls);
    var c := SlidingWindow.Call(Allow, limit, window, 3.0, 3.0);
    assert SlidingWindow.Live(ts, c) == ts && SlidingWindow.Next(ts, c) == ts;
    CallAgrees(k, ts, 3.0, window, c);
    var retry := 3.0 + Script(k, c).reply.resetIn as real;
    RetryAdmittedIff(Script(k, c).keys, ts, 3.0, window, c.(now := retry, later := retry));
  }

  lemma {:induction false} EmptyTracked(window: real)
    ensures Tracks(NO_KEYS, [], 0.0, window)
  {
  }

  // ----- The remaining count

  lemma {:induction false} AllowedInMemory(ts: seq<real>, calls: seq<SlidingWindow.Call>)
    ensures Allowed(MemoryAnswers(ts, calls)) == SlidingWindow.Admissions(ts, calls)
    decreases |calls|
  {
    if calls != [] {
      AllowedInMemory(SlidingWindow.Next(ts, calls[0]), calls[1..]);
    }
  }

  /** The count either script reports is true: while the oldest live entry lives, or from an empty set
      the first one to come, exactly that many further requests are admitted. */
  lemma {:induction false} RemainingIsAdmitted(k: Keys, ts: seq<real>, before: real, c: SlidingWindow.Call, calls: seq<SlidingWindow.Call>)
    requires 0.0 <= before <= c.now == c.later && c.window > 0.0 && c.limit >= 1 && Tracks(k, ts, before, c.window)
    requires ServerTimed(calls, c.now) && SlidingWindow.OneWindow(calls, c.window)
    requires forall i :: 0 <= i < |calls| ==> calls[i].limit == c.limit && calls[i].op.Allow?
    requires var queue := SlidingWindow.Next(ts, c);
             calls != [] ==> SlidingWindow.StillLive(if queue == [] then calls[0].now else queue[0], calls[if queue == [] then 1 else 0..])
    ensures var o := Script(k, c);
            Allowed(Answers(o.keys, calls)) == MinInt(|calls|, o.reply.remaining)
  {
    hide Script, Tracks;
    CallAgrees(k, ts, before, c.window, c);
    var queue := SlidingWindow.Next(ts, c);
    OneWindowFits(calls, c.window);
    AnswersAgree(Script(k, c).keys, queue, c.now, c.window, calls);
    AllowedInMemory(queue, calls);
    SlidingWindow.RemainingIsAdmitted(queue, calls, c.limit);
  }
}
