/** app/algorithms/sliding_window.py: the admission times still inside the window. */
module SlidingWindow {
  import opened Prelude

  /** One call with the settings in force when it is made. The source reads the clock twice:
      `now` to find what has expired, `later` for the time it records (or reports from). */
  datatype Call = Call(op: Op, limit: int, window: real, now: real, later: real)

  /** What popping expired timestamps off the left end leaves. */
  function DropExpired(ts: seq<real>, cutoff: real): seq<real>
    decreases |ts|
  {
    if ts == [] || ts[0] > cutoff then ts else DropExpired(ts[1..], cutoff)
  }

  function Live(ts: seq<real>, c: Call): seq<real> {
    DropExpired(ts, c.now - c.window)
  }

  predicate Admits(ts: seq<real>, c: Call) {
    c.op.Allow? && |Live(ts, c)| < c.limit
  }

  function Next(ts: seq<real>, c: Call): seq<real> {
    if Admits(ts, c) then Live(ts, c) + [c.later] else Live(ts, c)
  }

  function Remaining(ts: seq<real>, limit: int): int {
    MaxInt(0, limit - |ts|)
  }

  function ResetIn(ts: seq<real>, window: real, later: real): int {
    if ts == [] then 0 else WholeSeconds(ts[0] + window - later)
  }

  class SlidingWindowRateLimiter {
    var limit: int
    var window: real
    var requests: seq<real>
    // The configuration the facade last applied (`_rg_tuned`).
    var tuned: Option<Config>

    constructor (limit: int, window: real)
      ensures requests == [] && this.limit == limit && this.window == window && tuned == None
    {
      this.limit, this.window, requests, tuned := limit, window, [], None;
    }

    method RemoveExpiredRequests(now: real)
      modifies this`requests
      ensures requests == DropExpired(old(requests), now - window)
    {
      var cutoff := now - window;
      while requests != [] && requests[0] <= cutoff
        invariant DropExpired(requests, cutoff) == DropExpired(old(requests), cutoff)
        decreases |requests|
      {
        requests := requests[1..];
      }
    }

    method AllowRequest(now: real, later: real) returns (ok: bool)
      requires now <= later
      modifies this`requests
      ensures ok == Admits(old(requests), Call(Allow, limit, window, now, later))
      ensures requests == Next(old(requests), Call(Allow, limit, window, now, later))
    {
      RemoveExpiredRequests(now);
      if |requests| >= limit {
        return false;
      }
      requests := requests + [later];
      return true;
    }

    method RemainingRequests(now: real) returns (n: int)
      modifies this`requests
      ensures requests == Next(old(requests), Call(Read, limit, window, now, now))
      ensures n == Remaining(requests, limit)
    {
      RemoveExpiredRequests(now);
      n := MaxInt(0, limit - |requests|);
    }

    method ResetTime(now: real, later: real) returns (n: int)
      requires now <= later
      modifies this`requests
      ensures requests == Next(old(requests), Call(Read, limit, window, now, later))
      ensures n == ResetIn(requests, window, later)
    {
      RemoveExpiredRequests(now);
      if requests == [] {
        return 0;
      }
      n := WholeSeconds(requests[0] + window - later);
    }
  }

  // ----- Runs of one limiter, from its creation

  predicate Timely(calls: seq<Call>) {
    && (forall i :: 0 <= i < |calls| ==> calls[i].now <= calls[i].later && calls[i].window > 0.0)
    && (forall i, j :: 0 <= i < j < |calls| ==> calls[i].later <= calls[j].now)
  }

  /** What the limiter holds after the calls. */
  function Run(calls: seq<Call>): seq<real>
    decreases |calls|
  {
    if calls == [] then [] else Next(Run(calls[..|calls| - 1]), calls[|calls| - 1])
  }

  /** The recorded times of every request the run admitted, oldest first. */
  function Admitted(calls: seq<Call>): seq<real>
    decreases |calls|
  {
    if calls == [] then []
    else
      var n := |calls| - 1;
      Admitted(calls[..n]) + if Admits(Run(calls[..n]), calls[n]) then [calls[n].later] else []
  }

  /** The latest expiry cut-off any call has applied. */
  function Horizon(calls: seq<Call>): real
    requires calls != []
    decreases |calls|
  {
    var n := |calls| - 1;
    var cutoff := calls[n].now - calls[n].window;
    if n == 0 then cutoff else Max(Horizon(calls[..n]), cutoff)
  }

  /** The times strictly after `cutoff`: the plain meaning of "still in the window". */
  function Since(ts: seq<real>, cutoff: real): seq<real>
    decreases |ts|
  {
    if ts == [] then []
    else
      var n := |ts| - 1;
      Since(ts[..n], cutoff) + if ts[n] > cutoff then [ts[n]] else []
  }

  predicate Sorted(ts: seq<real>) {
    forall i, j :: 0 <= i < j < |ts| ==> ts[i] <= ts[j]
  }

  lemma {:induction false} SinceOfConcat(a: seq<real>, b: seq<real>, cutoff: real)
    ensures Since(a + b, cutoff) == Since(a, cutoff) + Since(b, cutoff)
    decreases |b|
  {
    if b == [] {
      assert a + b == a;
    } else {
      var n := |b| - 1;
      assert (a + b)[..|a| + n] == a + b[..n];
      SinceOfConcat(a, b[..n], cutoff);
    }
  }

  lemma {:induction false} SinceKeepsLater(ts: seq<real>, cutoff: real)
    requires forall i :: 0 <= i < |ts| ==> ts[i] > cutoff
    ensures Since(ts, cutoff) == ts
    decreases |ts|
  {
    if ts != [] {
      var n := |ts| - 1;
      SinceKeepsLater(ts[..n], cutoff);
      assert ts[..n] + [ts[n]] == ts;
    }
  }

  lemma {:induction false} SinceDropsEarlier(ts: seq<real>, cutoff: real)
    requires forall i :: 0 <= i < |ts| ==> ts[i] <= cutoff
    ensures Since(ts, cutoff) == []
    decreases |ts|
  {
    if ts != [] {
      SinceDropsEarlier(ts[..|ts| - 1], cutoff);
    }
  }

  /** Popping from the left of a sorted queue keeps exactly the times after the cut-off. */
  lemma {:induction false} DropExpiredIsSince(ts: seq<real>, cutoff: real)
    requires Sorted(ts)
    ensures DropExpired(ts, cutoff) == Since(ts, cutoff)
    decreases |ts|
  {
    if ts == [] {
    } else if ts[0] > cutoff {
      SinceKeepsLater(ts, cutoff);
    } else {
      DropExpiredIsSince(ts[1..], cutoff);
      SinceOfConcat([ts[0]], ts[1..], cutoff);
      assert [ts[0]] + ts[1..] == ts;
      SinceDropsEarlier([ts[0]], cutoff);
    }
  }

  lemma {:induction false} SinceTwice(ts: seq<real>, first: real, second: real)
    ensures Since(Since(ts, first), second) == Since(ts, Max(first, second))
    decreases |ts|
  {
    if ts != [] {
      var n := |ts| - 1;
      SinceTwice(ts[..n], first, second);
      var last := if ts[n] > first then [ts[n]] else [];
      SinceOfConcat(Since(ts[..n], first), last, second);
      if ts[n] > first {
        assert last[..0] == [];
      }
    }
  }

  lemma {:induction false} SinceSorted(ts: seq<real>, cutoff: real, last: real)
    requires Sorted(ts) && forall i :: 0 <= i < |ts| ==> ts[i] <= last
    ensures Sorted(Since(ts, cutoff))
    ensures forall i :: 0 <= i < |Since(ts, cutoff)| ==> Since(ts, cutoff)[i] <= last
    decreases |ts|
  {
    if ts != [] {
      var n := |ts| - 1;
      SinceSorted(ts[..n], cutoff, ts[n]);
    }
  }

  lemma {:induction false} AdmittedSorted(calls: seq<Call>)
    requires Timely(calls)
    ensures Sorted(Admitted(calls))
    ensures forall i :: 0 <= i < |Admitted(calls)| && calls != [] ==> Admitted(calls)[i] <= calls[|calls| - 1].later
    decreases |calls|
  {
    if calls != [] {
      AdmittedSorted(calls[..|calls| - 1]);
    }
  }

  lemma {:induction false} HorizonInPast(calls: seq<Call>)
    requires calls != [] && Timely(calls)
    ensures Horizon(calls) < calls[|calls| - 1].now
    decreases |calls|
  {
    var n := |calls| - 1;
    if n > 0 {
      HorizonInPast(calls[..n]);
    }
  }

  lemma {:induction false} DropAfterSince(history: seq<real>, kept: seq<real>, horizon: real, cutoff: real)
    requires Sorted(history) && kept == Since(history, horizon)
    ensures DropExpired(kept, cutoff) == Since(history, Max(horizon, cutoff))
  {
    SinceTwice(history, horizon, cutoff);
    if history != [] {
      SinceSorted(history, horizon, history[|history| - 1]);
    }
    DropExpiredIsSince(kept, cutoff);
  }

  /** One more call at the end of a run. */
  lemma {:induction false} OneMoreCall(calls: seq<Call>, c: Call)
    ensures Run(calls + [c]) == Next(Run(calls), c)
    ensures Admitted(calls + [c]) == if Admits(Run(calls), c) then Admitted(calls) + [c.later] else Admitted(calls)
    ensures Horizon(calls + [c])
         == if calls == [] then c.now - c.window else Max(Horizon(calls), c.now - c.window)
  {
    assert (calls + [c])[..|calls|] == calls;
  }

  lemma {:induction false} EarlierTimely(calls: seq<Call>, c: Call)
    requires Timely(calls + [c])
    ensures Timely(calls) && c.now <= c.later
  {
    assert (calls + [c])[|calls|] == c;
    forall i | 0 <= i < |calls| ensures calls[i].now <= calls[i].later && calls[i].window > 0.0 {
      assert (calls + [c])[i] == calls[i];
    }
    forall i, j | 0 <= i < j < |calls| ensures calls[i].later <= calls[j].now {
      assert (calls + [c])[i] == calls[i] && (calls + [c])[j] == calls[j];
    }
  }

  /** The whole state of a limiter is a function of what it admitted: after any run of calls
      under any changes of limit and window, the queue holds exactly the admitted times after
      the latest cut-off applied so far. */
  lemma {:induction false} QueueIsLiveHistory(calls: seq<Call>)
    requires calls != [] && Timely(calls)
    ensures Run(calls) == Since(Admitted(calls), Horizon(calls))
    decreases |calls|, 0
  {
    hide Timely, DropExpired, Sorted, Run, Admitted, Horizon, Since, Live;
    var n := |calls| - 1;
    var prefix, c := calls[..n], calls[n];
    assert calls == prefix + [c];
    EarlierTimely(prefix, c);
    OneMoreCall(prefix, c);
    LiveQueueIsLiveHistory(prefix, c);
    if Admits(Run(prefix), c) {
      HorizonInPast(calls);
      SinceOfConcat(Admitted(prefix), [c.later], Horizon(calls));
      SinceKeepsLater([c.later], Horizon(calls));
    }
  }

  lemma {:induction false} NothingYet()
    ensures Run([]) == [] && Admitted([]) == []
    ensures forall cutoff :: DropExpired([], cutoff) == [] && Since([], cutoff) == []
  {
  }

  /** The same once a call has pruned the queue but not yet decided. */
  lemma {:induction false} LiveQueueIsLiveHistory(calls: seq<Call>, c: Call)
    requires Timely(calls)
    ensures Live(Run(calls), c) == Since(Admitted(calls), Horizon(calls + [c]))
    decreases |calls|, 1
  {
    OneMoreCall(calls, c);
    if calls == [] {
      NothingYet();
    }
    hide Timely, Run, Admitted, Since, Horizon, DropExpired, Sorted;
    if calls != [] {
      QueueIsLiveHistory(calls);
      AdmittedSorted(calls);
      DropAfterSince(Admitted(calls), Run(calls), Horizon(calls), c.now - c.window);
    }
  }

  /** The decision in every reachable state: a request is admitted if and only if fewer than
      `limit` earlier admissions are later than the latest cut-off. */
  lemma {:induction false} AdmitsIffRoomInHistory(calls: seq<Call>, c: Call)
    requires Timely(calls + [c]) && c.op.Allow?
    ensures Admits(Run(calls), c) <==> |Since(Admitted(calls), Horizon(calls + [c]))| < c.limit
  {
    EarlierTimely(calls, c);
    LiveQueueIsLiveHistory(calls, c);
  }

  predicate OneWindow(calls: seq<Call>, window: real) {
    forall i :: 0 <= i < |calls| ==> calls[i].window == window
  }

  lemma {:induction false} FixedWindowHorizon(calls: seq<Call>, window: real)
    requires calls != [] && Timely(calls) && OneWindow(calls, window)
    ensures Horizon(calls) == calls[|calls| - 1].now - window
    decreases |calls|
  {
    if |calls| > 1 {
      FixedWindowHorizon(calls[..|calls| - 1], window);
    }
  }

  /** With one window length (the limit may change from call to call), the count that decides
      is over the trailing window itself. */
  lemma {:induction false} ExactOverTrailingWindow(calls: seq<Call>, c: Call, cutoff: real)
    requires Timely(calls + [c]) && OneWindow(calls + [c], c.window) && c.op.Allow?
    requires cutoff == c.now - c.window
    ensures Admits(Run(calls), c) <==> |Since(Admitted(calls), cutoff)| < c.limit
  {
    FixedWindowHorizon(calls + [c], c.window);
    assert (calls + [c])[|calls|] == c;
    AdmitsIffRoomInHistory(calls, c);
  }

  /** Re-tuning keeps history: whatever limits were in force before, an admission leaves at
      most the limit now in force in the trailing window. */
  lemma {:induction false} AdmissionLeavesAtMostLimit(calls: seq<Call>, c: Call, cutoff: real)
    requires Timely(calls + [c]) && OneWindow(calls + [c], c.window) && Admits(Run(calls), c)
    requires cutoff == c.later - c.window
    ensures |Since(Admitted(calls + [c]), cutoff)| <= c.limit
  {
    ExactOverTrailingWindow(calls, c, c.now - c.window);
    OneMoreCall(calls, c);
    assert (calls + [c])[|calls|] == c;
    OneAdmissionMore(Admitted(calls), c.now - c.window, c.later, cutoff);
  }

  lemma {:induction false} OneAdmissionMore(ts: seq<real>, cutoff: real, t: real, later: real)
    requires cutoff <= later
    ensures |Since(ts + [t], later)| <= |Since(ts, cutoff)| + 1
  {
    SinceOfConcat(ts, [t], later);
    SinceNoLonger([t], later);
    SinceShrinks(ts, cutoff, later);
  }

  lemma {:induction false} SinceShrinks(ts: seq<real>, cutoff: real, later: real)
    requires cutoff <= later
    ensures |Since(ts, later)| <= |Since(ts, cutoff)|
    decreases |ts|
  {
    if ts != [] {
      SinceShrinks(ts[..|ts| - 1], cutoff, later);
    }
  }

  lemma {:induction false} SinceNoLonger(ts: seq<real>, cutoff: real)
    ensures |Since(ts, cutoff)| <= |ts|
    decreases |ts|
  {
    if ts != [] {
      SinceNoLonger(ts[..|ts| - 1], cutoff);
    }
  }

  // ----- Spacing of admissions

  lemma {:induction false} LaterTimesCounted(ts: seq<real>, cutoff: real, j: nat)
    requires Sorted(ts) && j < |ts| && ts[j] > cutoff
    ensures |Since(ts, cutoff)| >= |ts| - j
  {
    SinceOfConcat(ts[..j], ts[j..], cutoff);
    assert ts[..j] + ts[j..] == ts;
    SinceKeepsLater(ts[j..], cutoff);
  }

  predicate Spaced(ts: seq<real>, most: nat, window: real) {
    forall i {:trigger ts[i]} :: 0 <= i < |ts| - most ==> ts[i + most] - ts[i] >= window
  }

  /** One admission more keeps the spacing, if the entry `most` places back has left the window. */
  lemma {:induction false} SpacedMore(ts: seq<real>, t: real, most: nat, window: real)
    requires Spaced(ts, most, window) && (|ts| >= most >= 1 ==> t - ts[|ts| - most] >= window) && most >= 1
    ensures Spaced(ts + [t], most, window)
  {
    forall i {:trigger (ts + [t])[i]} | 0 <= i < |ts + [t]| - most
      ensures (ts + [t])[i + most] - (ts + [t])[i] >= window
    {
      if i < |ts| - most {
        assert ts[i + most] - ts[i] >= window;
      }
    }
  }

  /** A call that is admitted comes a window after the admission `most` places back. */
  lemma {:induction false} AdmittedWindowLater(prefix: seq<Call>, c: Call, most: nat)
    requires Timely(prefix + [c]) && OneWindow(prefix + [c], c.window)
    requires Admits(Run(prefix), c) && c.limit <= most <= |Admitted(prefix)| && most >= 1
    ensures c.later - Admitted(prefix)[|Admitted(prefix)| - most] >= c.window
  {
    hide Run, Admitted, Since, Sorted, Live;
    EarlierTimely(prefix, c);
    ExactOverTrailingWindow(prefix, c, c.now - c.window);
    AdmittedSorted(prefix);
    var history := Admitted(prefix);
    if history[|history| - most] > c.now - c.window {
      LaterTimesCounted(history, c.now - c.window, |history| - most);
    }
  }

  /** In every run whose limits stay at or below `most`, admission number i+most comes at
      least one window after admission number i. */
  lemma {:induction false} AdmissionsSpaced(calls: seq<Call>, window: real, most: nat)
    requires Timely(calls) && OneWindow(calls, window) && most >= 1
    requires forall i :: 0 <= i < |calls| ==> calls[i].limit <= most
    ensures Spaced(Admitted(calls), most, window)
    decreases |calls|
  {
    hide Timely, Run, Admits;
    if calls != [] {
      var n := |calls| - 1;
      var prefix, c := calls[..n], calls[n];
      assert prefix + [c] == calls;
      EarlierTimely(prefix, c);
      AdmissionsSpaced(prefix, window, most);
      if Admits(Run(prefix), c) {
        if |Admitted(prefix)| >= most {
          AdmittedWindowLater(prefix, c, most);
        }
        SpacedMore(Admitted(prefix), c.later, most, window);
      }
    }
  }

  /** How many of the times lie in [from, to). */
  function CountIn(ts: seq<real>, from: real, to: real): nat
    decreases |ts|
  {
    if ts == [] then 0
    else
      var n := |ts| - 1;
      CountIn(ts[..n], from, to) + if from <= ts[n] < to then 1 else 0
  }

  lemma {:induction false} CountOnlyAfter(ts: seq<real>, from: real, to: real, k: nat)
    requires k <= |ts| && forall i :: 0 <= i < k ==> !(from <= ts[i] < to)
    ensures CountIn(ts, from, to) <= |ts| - k
    decreases |ts|
  {
    if k < |ts| {
      CountOnlyAfter(ts[..|ts| - 1], from, to, k);
    } else if ts != [] {
      CountOnlyAfter(ts[..|ts| - 1], from, to, k - 1);
    }
  }

  lemma {:induction false} SpacedBefore(ts: seq<real>, most: nat, window: real, from: real)
    requires Sorted(ts) && Spaced(ts, most, window) && ts != [] && ts[|ts| - 1] < from + window
    ensures forall i :: 0 <= i < |ts| - most ==> ts[i] < from
  {
    var n := |ts| - 1;
    if n >= most {
      assert ts[n - most + most] - ts[n - most] >= window;
      forall i | 0 <= i < |ts| - most ensures ts[i] < from {
        assert i == n - most || ts[i] <= ts[n - most];
      }
    }
  }

  lemma {:induction false} SpacedPart(ts: seq<real>, n: nat, most: nat, window: real)
    requires Sorted(ts) && Spaced(ts, most, window) && n <= |ts|
    ensures Sorted(ts[..n]) && Spaced(ts[..n], most, window)
  {
    forall i {:trigger ts[..n][i]} | 0 <= i < n - most ensures ts[..n][i + most] - ts[..n][i] >= window {
      assert ts[i + most] - ts[i] >= window;
    }
  }

  lemma {:induction false} SpacedMeansFewInWindow(ts: seq<real>, most: nat, window: real, from: real)
    requires Sorted(ts) && Spaced(ts, most, window)
    ensures CountIn(ts, from, from + window) <= most
    decreases |ts|
  {
    hide Sorted, Spaced;
    if ts != [] {
      var n := |ts| - 1;
      if from <= ts[n] < from + window {
        SpacedBefore(ts, most, window, from);
        CountOnlyAfter(ts, from, from + window, MaxInt(0, |ts| - most));
      } else {
        SpacedPart(ts, n, most, window);
        SpacedMeansFewInWindow(ts[..n], most, window, from);
      }
    }
  }

  /** In every run, any half-open interval one window long holds at most `most` admissions:
      there is no burst at a window edge. */
  lemma {:induction false} AnyWindowBound(calls: seq<Call>, window: real, most: nat, from: real)
    requires Timely(calls) && OneWindow(calls, window) && most >= 1
    requires forall i :: 0 <= i < |calls| ==> calls[i].limit <= most
    ensures CountIn(Admitted(calls), from, from + window) <= most
  {
    AdmissionsSpaced(calls, window, most);
    AdmittedSorted(calls);
    SpacedMeansFewInWindow(Admitted(calls), most, window, from);
  }

  // ----- Re-tuning a full limiter

  function Admissions(ts: seq<real>, calls: seq<Call>): nat
    decreases |calls|
  {
    if calls == [] then 0
    else (if Admits(ts, calls[0]) then 1 else 0) + Admissions(Next(ts, calls[0]), calls[1..])
  }

  /** The calls that ask for admission. */
  function Requests(calls: seq<Call>): nat
    decreases |calls|
  {
    if calls == [] then 0 else (if calls[0].op.Allow? then 1 else 0) + Requests(calls[1..])
  }

  /** No call finds the given time expired. */
  predicate StillLive(oldest: real, calls: seq<Call>) {
    forall i :: 0 <= i < |calls| ==> calls[i].now - calls[i].window < oldest
  }

  /** While the oldest entry lives, a limiter holding |ts| requests lets exactly limit - |ts| more
      through, whenever and however many ask and whatever is read in between: raising a full
      limiter from a to b admits exactly b - a. With |ts| pruned this is also what
      `remaining_requests` reports. */
  lemma {:induction false} RaisingAdmitsDifference(ts: seq<real>, calls: seq<Call>, limit: int)
    requires ts != [] && StillLive(ts[0], calls)
    requires forall i :: 0 <= i < |calls| ==> calls[i].limit == limit
    ensures Admissions(ts, calls) == MinInt(Requests(calls), Remaining(ts, limit))
    decreases |calls|
  {
    if calls != [] {
      var c := calls[0];
      assert Live(ts, c) == ts;
      assert StillLive(ts[0], calls[1..]);
      RaisingAdmitsDifference(Next(ts, c), calls[1..], limit);
    }
  }

  /** The reported count is true: it is how many requests are admitted while the oldest entry lives,
      or, from an empty queue, while the first of them does. */
  lemma {:induction false} RemainingIsAdmitted(ts: seq<real>, calls: seq<Call>, limit: int)
    requires forall i :: 0 <= i < |calls| ==> calls[i].limit == limit && calls[i].op.Allow?
    requires calls != [] ==> StillLive(if ts == [] then calls[0].later else ts[0], calls[if ts == [] then 1 else 0..])
    ensures Admissions(ts, calls) == MinInt(|calls|, Remaining(ts, limit))
  {
    AllRequests(calls);
    if ts != [] {
      assert calls[0..] == calls;
      RaisingAdmitsDifference(ts, calls, limit);
    } else if calls != [] {
      assert Live(ts, calls[0]) == [];
      if limit > 0 {
        assert Next([], calls[0]) == [calls[0].later];
        AllRequests(calls[1..]);
        RaisingAdmitsDifference([calls[0].later], calls[1..], limit);
      } else {
        NoRoom(calls, limit);
      }
    }
  }

  lemma {:induction false} AllRequests(calls: seq<Call>)
    requires forall i :: 0 <= i < |calls| ==> calls[i].op.Allow?
    ensures Requests(calls) == |calls|
    decreases |calls|
  {
    if calls != [] {
      AllRequests(calls[1..]);
    }
  }

  lemma {:induction false} NoRoom(calls: seq<Call>, limit: int)
    requires limit <= 0 && forall i :: 0 <= i < |calls| ==> calls[i].limit == limit
    ensures Admissions([], calls) == 0
    decreases |calls|
  {
    if calls != [] {
      NoRoom(calls[1..], limit);
    }
  }

  // ----- Waiting after a rejection

  lemma {:induction false} RoomIffEntryExpired(ts: seq<real>, cutoff: real, limit: int)
    requires Sorted(ts) && limit >= 1
    ensures |DropExpired(ts, cutoff)| < limit <==> |ts| < limit || ts[|ts| - limit] <= cutoff
    decreases |ts|
  {
    if ts != [] && ts[0] <= cutoff {
      RoomIffEntryExpired(ts[1..], cutoff, limit);
    }
  }

  /** Exactly when a retry succeeds: as soon as the entry that is `limit` places from the
      newest end has left the window, and not before. */
  lemma {:induction false} RetryAdmittedIff(ts: seq<real>, limit: int, window: real, retry: real)
    requires Sorted(ts) && limit >= 1
    ensures Admits(ts, Call(Allow, limit, window, retry, retry))
            <==> |ts| < limit || ts[|ts| - limit] + window <= retry
  {
    RoomIffEntryExpired(ts, retry - window, limit);
  }

  /** A limiter that never ran under a higher limit never holds more than its limit. */
  lemma {:induction false} QueueWithinLimit(calls: seq<Call>, most: int)
    requires 0 <= most && forall i :: 0 <= i < |calls| ==> calls[i].limit <= most
    ensures |Run(calls)| <= most
    decreases |calls|
  {
    if calls != [] {
      var n := |calls| - 1;
      QueueWithinLimit(calls[..n], most);
      DropExpiredNoLonger(Run(calls[..n]), calls[n].now - calls[n].window);
    }
  }

  /** For a limiter holding no more than its limit, one second past the reported reset time
      is always enough. */
  lemma {:induction false} WaitingIsEnough(ts: seq<real>, limit: int, window: real, now: real, later: real, retry: real)
    requires limit >= 1 && Sorted(ts) && |ts| <= limit && now <= later
    requires var r := ResetIn(Next(ts, Call(Read, limit, window, now, later)), window, later);
             later + r as real + 1.0 <= retry
    ensures Admits(Next(ts, Call(Read, limit, window, now, later)), Call(Allow, limit, window, retry, retry))
  {
    var queue := Next(ts, Call(Read, limit, window, now, later));
    DropExpiredNoLonger(ts, now - window);
    DropExpiredSuffix(ts, now - window);
    RetryAdmittedIff(queue, limit, window, retry);
  }

  lemma {:induction false} DropExpiredSuffix(ts: seq<real>, cutoff: real)
    requires Sorted(ts)
    ensures Sorted(DropExpired(ts, cutoff))
    decreases |ts|
  {
    if ts != [] && ts[0] <= cutoff {
      DropExpiredSuffix(ts[1..], cutoff);
    }
  }

  lemma {:induction false} DropExpiredNoLonger(ts: seq<real>, cutoff: real)
    ensures |DropExpired(ts, cutoff)| <= |ts|
    decreases |ts|
  {
    if ts != [] && ts[0] <= cutoff {
      DropExpiredNoLonger(ts[1..], cutoff);
    }
  }

  /** After a rejection by a limiter that is exactly full, the reported value alone is enough
      exactly when rounding it down lost nothing. */
  lemma {:induction false} ReportedWaitAloneIffWhole(ts: seq<real>, limit: int, window: real, now: real)
    requires limit >= 1 && window > 0.0 && |ts| == limit && Sorted(ts) && ts[0] > now - window
    ensures Admits(ts, Call(Allow, limit, window, now + ResetIn(ts, window, now) as real, now + ResetIn(ts, window, now) as real))
            <==> IsWhole(ts[0] + window - now)
  {
    RetryAdmittedIff(ts, limit, window, now + ResetIn(ts, window, now) as real);
  }

  /** What is reported is when the oldest entry leaves, in whole seconds: exactly for every n up to the
      reported value it has not left before n seconds are over. An empty queue reports nothing. */
  lemma {:induction false} ResetIsOldestLeaving(ts: seq<real>, window: real, later: real, n: nat)
    requires ts != [] ==> later <= ts[0] + window
    ensures if ts == [] then ResetIn(ts, window, later) == 0
            else n <= ResetIn(ts, window, later) <==> later + n as real <= ts[0] + window
  {
    assert n <= ResetIn(ts, window, later) ==> n as real <= ResetIn(ts, window, later) as real;
    assert n > ResetIn(ts, window, later) ==> n as real >= ResetIn(ts, window, later) as real + 1.0;
  }

  lemma {:induction false} OneMoreFits(ts: seq<real>, c: Call)
    requires ts != [] && ts[0] > c.now - c.window && |ts| < c.limit && c.op.Allow?
    ensures Next(ts, c) == ts + [c.later]
  {
  }

  lemma {:induction false} FillingRun(calls: seq<Call>, n: nat, limit: int, window: real, t: real)
    requires Run(calls) != [] && Run(calls)[0] > t - window && |Run(calls)| + n <= limit
    ensures Run(calls + seq(n, i => Call(Allow, limit, window, t, t))) == Run(calls) + seq(n, i => t)
    decreases n
  {
    hide Run, Next;
    var c := Call(Allow, limit, window, t, t);
    if n == 0 {
      assert calls + seq(n, i => c) == calls;
      assert Run(calls) + seq(n, i => t) == Run(calls);
    } else {
      FillingRun(calls, n - 1, limit, window, t);
      var shorter := calls + seq(n - 1, i => c);
      assert calls + seq(n, i => c) == shorter + [c];
      OneMoreRun(shorter, c);
      OneMoreFits(Run(shorter), c);
      assert Run(calls) + seq(n, i => t) == (Run(calls) + seq(n - 1, i => t)) + [t];
    }
  }

  lemma {:induction false} OneMoreRun(calls: seq<Call>, c: Call)
    ensures Run(calls + [c]) == Next(Run(calls), c)
  {
    hide Admitted, Horizon;
    OneMoreCall(calls, c);
  }

  /** After the limit is lowered below what the queue holds, the reported time is that of the
      oldest entry only. A limiter filled at limit+1 by one call at 0 and `limit` calls at 3 and
      then lowered to `limit` rejects even a second after the time it reports. */
  lemma {:induction false} WaitingFailsAfterTightening(limit: nat, window: real)
    requires limit >= 1 && window > 4.0
    ensures var calls := [Call(Allow, limit + 1, window, 0.0, 0.0)]
                         + seq(limit, i => Call(Allow, limit + 1, window, 3.0, 3.0));
            var retry := 3.0 + ResetIn(Run(calls), window, 3.0) as real + 1.0;
            && |Run(calls)| == limit + 1
            && !Admits(Run(calls), Call(Allow, limit, window, retry, retry))
  {
    var first := [Call(Allow, limit + 1, window, 0.0, 0.0)];
    assert first == [] + first;
    OneMoreCall([], first[0]);
    assert Run(first) == [0.0];
    FillingRun(first, limit, limit + 1, window, 3.0);
    var ts := [0.0] + seq(limit, i => 3.0);
    var retry := 3.0 + ResetIn(ts, window, 3.0) as real + 1.0;
    assert ts[1..] == seq(limit, i => 3.0);
    assert DropExpired(ts[1..], retry - window) == ts[1..];
  }
}
