/** app/algorithms/leaky_bucket.py: a queue drained by whole requests. */
module LeakyBucket {
  import opened Prelude

  /** The times of the queued requests, oldest first, and the time of the last leak. */
  datatype State = State(queue: seq<real>, last: real)

  /** One call with the capacity and leak rate in force. The clock is read at `now` for the leak
      and again at `later` for the time an admitted request is queued with. */
  datatype Call = Call(op: Op, capacity: int, rate: real, now: real, later: real)

  /** The whole requests that drained since the last leak. */
  function Leaked(s: State, rate: real, now: real): int {
    Truncate(Gain(now - s.last, rate))
  }

  /** A leak of at least one request restarts the clock at `now`; the fraction is lost. */
  function Leak(s: State, rate: real, now: real): State {
    var leaked := Leaked(s, rate, now);
    if leaked > 0 then State(s.queue[MinInt(leaked, |s.queue|)..], now) else s
  }

  predicate Admits(s: State, c: Call) {
    c.op.Allow? && |Leak(s, c.rate, c.now).queue| < c.capacity
  }

  function Next(s: State, c: Call): State {
    var l := Leak(s, c.rate, c.now);
    if Admits(s, c) then l.(queue := l.queue + [c.later]) else l
  }

  function Remaining(s: State, capacity: int): int {
    MaxInt(0, capacity - |s.queue|)
  }

  function ResetIn(s: State, capacity: int, rate: real): int {
    var untilSpace := |s.queue| - capacity + 1;
    if s.queue == [] || untilSpace <= 0 || rate <= 0.0 then 0 else WholeSeconds(untilSpace as real / rate)
  }

  class LeakyBucketRateLimiter {
    var capacity: int
    var rate: real
    var queue: seq<real>
    var last: real
    // The configuration the facade last applied (`_rg_tuned`).
    var tuned: Option<Config>

    ghost function View(): State
      reads this
    {
      State(queue, last)
    }

    constructor (capacity: int, rate: real, now: real)
      ensures View() == State([], now) && this.capacity == capacity && this.rate == rate && tuned == None
    {
      this.capacity, this.rate, queue, last, tuned := capacity, rate, [], now, None;
    }

    method LeakRequests(now: real)
      modifies this`queue, this`last
      ensures View() == Leak(old(View()), rate, now)
    {
      var leaked := Truncate(Gain(now - last, rate));
      if leaked > 0 {
        for k := 0 to MinInt(leaked, |queue|)
          invariant k <= |old(queue)| && queue == old(queue)[k..]
          invariant last == old(last) && leaked == Leaked(old(View()), rate, now)
          invariant rate == old(rate)
        {
          queue := queue[1..];
        }
        last := now;
      }
    }

    method AllowRequest(now: real, later: real) returns (ok: bool)
      requires now <= later
      modifies this`queue, this`last
      ensures ok == Admits(old(View()), Call(Allow, capacity, rate, now, later))
      ensures View() == Next(old(View()), Call(Allow, capacity, rate, now, later))
    {
      LeakRequests(now);
      if |queue| >= capacity {
        return false;
      }
      queue := queue + [later];
      return true;
    }

    method RemainingRequests(now: real) returns (n: int)
      modifies this`queue, this`last
      ensures View() == Next(old(View()), Call(Read, capacity, rate, now, now))
      ensures n == Remaining(View(), capacity)
    {
      LeakRequests(now);
      n := MaxInt(0, capacity - |queue|);
    }

    method ResetTime(now: real) returns (n: int)
      modifies this`queue, this`last
      ensures View() == Next(old(View()), Call(Read, capacity, rate, now, now))
      ensures n == ResetIn(View(), capacity, rate)
    {
      LeakRequests(now);
      if queue == [] {
        return 0;
      }
      var untilSpace := |queue| - capacity + 1;
      if untilSpace <= 0 {
        return 0;
      }
      if rate <= 0.0 {
        return 0;
      }
      n := WholeSeconds(untilSpace as real / rate);
    }
  }

  // ----- Runs

  predicate Timely(calls: seq<Call>, from: real) {
    && (forall i :: 0 <= i < |calls| ==> from <= calls[i].now <= calls[i].later)
    && (forall i, j :: 0 <= i < j < |calls| ==> calls[i].later <= calls[j].now)
  }

  predicate FixedSettings(calls: seq<Call>, capacity: int, rate: real) {
    forall i :: 0 <= i < |calls| ==> calls[i].capacity == capacity && calls[i].rate == rate
  }

  function After(s: State, calls: seq<Call>): State
    decreases |calls|
  {
    if calls == [] then s else After(Next(s, calls[0]), calls[1..])
  }

  lemma {:induction false} OneMoreCall(s: State, calls: seq<Call>, c: Call)
    ensures After(s, calls + [c]) == Next(After(s, calls), c)
    decreases |calls|
  {
    hide Next;
    if calls == [] {
      assert [] + [c] == [c] && [c][1..] == [];
    } else {
      assert (calls + [c])[1..] == calls[1..] + [c];
      OneMoreCall(Next(s, calls[0]), calls[1..], c);
    }
  }

  function Admissions(s: State, calls: seq<Call>): nat
    decreases |calls|
  {
    if calls == [] then 0
    else (if Admits(s, calls[0]) then 1 else 0) + Admissions(Next(s, calls[0]), calls[1..])
  }

  /** The total of the whole requests every call of a run leaked, found in the queue or not. */
  function Drained(s: State, calls: seq<Call>): int
    decreases |calls|
  {
    if calls == [] then 0
    else MaxInt(0, Leaked(s, calls[0].rate, calls[0].now)) + Drained(Next(s, calls[0]), calls[1..])
  }

  /** The time of the last call, or of the last leak if there is no call. */
  function EndOf(s: State, calls: seq<Call>): real {
    if calls == [] then s.last else calls[|calls| - 1].now
  }

  lemma {:induction false} RestOfRun(s: State, calls: seq<Call>)
    requires calls != [] && Timely(calls, s.last)
    ensures Timely(calls[1..], Next(s, calls[0]).last) && Timely(calls[1..], calls[0].now)
    ensures |calls| > 1 ==> EndOf(Next(s, calls[0]), calls[1..]) == EndOf(s, calls)
  {
  }

  /** One leak drains more than half of the elapsed amount or nothing, and never more than it. */
  lemma {:induction false} OneLeak(x: real)
    requires x >= 0.0
    ensures Truncate(x) as real <= x
    ensures Truncate(x) > 0 ==> Truncate(x) as real > x / 2.0
    ensures Truncate(x) <= 0 ==> x < 1.0 && Truncate(x) == 0
  {
  }

  /** What drains over a run is bounded on both sides. With D the time from the last leak
      before the run to its last call: (rate*D - 1)/2 < drained <= rate*D. The drain is
      between half the configured rate and the full rate, not constant. */
  lemma {:induction false} DrainBounds(s: State, calls: seq<Call>, capacity: int, rate: real)
    requires rate >= 0.0 && Timely(calls, s.last) && FixedSettings(calls, capacity, rate)
    ensures var credit := Gain(EndOf(s, calls) - s.last, rate);
            (credit - 1.0) / 2.0 < Drained(s, calls) as real <= credit
    decreases |calls|
  {
    if calls != [] {
      var n := Next(s, calls[0]);
      var x := Gain(calls[0].now - s.last, rate);
      GainNonNegative(calls[0].now - s.last, rate);
      OneLeak(x);
      RestOfRun(s, calls);
      DrainBounds(n, calls[1..], capacity, rate);
      var end := EndOf(s, calls);
      GainAdds(s.last, calls[0].now, end, rate);
    } else {
      GainAtZero(rate);
    }
  }

  /** n calls, the i-th at i*step. */
  function Schedule(n: nat, step: real, from: real, rate: real): seq<Call>
    decreases n
  {
    if n == 0 then [] else [Call(Read, 1, rate, from + step, from + step)] + Schedule(n - 1, step, from + step, rate)
  }

  lemma {:induction false} ScheduleTimely(n: nat, step: real, from: real, rate: real)
    requires step > 0.0
    ensures var calls := Schedule(n, step, from, rate);
            && |calls| == n && Timely(calls, from + step) && Timely(calls, from) && FixedSettings(calls, 1, rate)
    decreases n
  {
    if n > 0 {
      ScheduleTimely(n - 1, step, from + step, rate);
    }
  }

  /** The factor of two is approached: calling whenever just under two requests' worth of time
      has passed (2 - gap, for any gap in (0, 1]) drains one request a call, so a run of n
      calls drains n while the rate would have allowed n * (2 - gap). */
  lemma {:induction false} HalfRateApproached(n: nat, gap: real, step: real, rate: real, s: State)
    requires 0.0 < gap <= 1.0 && step > 0.0 && Gain(step, rate) == 2.0 - gap
    ensures var calls := Schedule(n, step, s.last, rate);
            && Timely(calls, s.last) && FixedSettings(calls, 1, rate)
            && Drained(s, calls) == n
            && Gain(EndOf(s, calls) - s.last, rate) == n as real * (2.0 - gap)
  {
    hide Gain, Times, Drained, Timely;
    TimesIsProduct(n, 2.0 - gap);
    ScheduleTimely(n, step, s.last, rate);
    SlowDrain(n, 2.0 - gap, step, rate, s);
    GainOfTimes(n, step, rate);
    assert EndOf(s, Schedule(n, step, s.last, rate)) - s.last == Times(n, step);
  }

  /** x added up n times. */
  function Times(n: nat, x: real): real {
    if n == 0 then 0.0 else x + Times(n - 1, x)
  }

  lemma {:induction false} TimesIsProduct(n: nat, x: real)
    ensures Times(n, x) == n as real * x
  {
    if n > 0 {
      TimesIsProduct(n - 1, x);
      assert n as real * x == (n - 1) as real * x + x;
    }
  }

  lemma {:induction false} GainOfTimes(n: nat, step: real, rate: real)
    ensures Gain(Times(n, step), rate) == Times(n, Gain(step, rate))
  {
    if n == 0 {
      GainAtZero(rate);
    } else {
      GainOfTimes(n - 1, step, rate);
      GainAdds(0.0, step, Times(n, step), rate);
    }
  }

  lemma {:induction false} SlowStep(x: real, step: real, rate: real, s: State)
    requires 1.0 <= x < 2.0 && Gain(step, rate) == x
    ensures var t := s.last + step;
            && Leaked(s, rate, t) == 1
            && Next(s, Call(Read, 1, rate, t, t)).last == t
  {
    assert s.last + step - s.last == step;
  }

  lemma {:induction false} FirstDrained(s: State, c: Call, rest: seq<Call>)
    ensures Drained(s, [c] + rest) == MaxInt(0, Leaked(s, c.rate, c.now)) + Drained(Next(s, c), rest)
    ensures EndOf(s, [c] + rest) == if rest == [] then c.now else EndOf(Next(s, c), rest)
  {
    hide Leaked, Next;
    assert ([c] + rest)[1..] == rest;
  }

  lemma {:induction false} SlowDrain(n: nat, x: real, step: real, rate: real, s: State)
    requires 1.0 <= x < 2.0 && step > 0.0 && Gain(step, rate) == x
    ensures var calls := Schedule(n, step, s.last, rate);
            && Drained(s, calls) == n
            && EndOf(s, calls) == s.last + Times(n, step)
    decreases n
  {
    hide Leaked, Next, Gain;
    if n > 0 {
      var t := s.last + step;
      var first, rest := Call(Read, 1, rate, t, t), Schedule(n - 1, step, t, rate);
      SlowStep(x, step, rate, s);
      SlowDrain(n - 1, x, step, rate, Next(s, first));
      FirstDrained(s, first, rest);
    }
  }

  // ----- How many requests an interval admits

  /** Every admission after the start fills a place that was free or was drained. */
  lemma {:induction false} AdmissionsFillPlaces(s: State, calls: seq<Call>, capacity: int, rate: real)
    requires rate >= 0.0 && capacity >= 0 && Timely(calls, s.last) && FixedSettings(calls, capacity, rate)
    ensures Admissions(s, calls) <= MaxInt(0, capacity - |s.queue|) + Drained(s, calls)
    decreases |calls|
  {
    if calls != [] {
      GainNonNegative(calls[0].now - s.last, rate);
      RestOfRun(s, calls);
      AdmissionsFillPlaces(Next(s, calls[0]), calls[1..], capacity, rate);
    }
  }

  /** In every run, an interval [from, to] under one setting admits fewer than
      capacity + rate*(to - from) + 1 requests, whatever state earlier calls and settings
      left. */
  lemma {:induction false} IntervalBound(s: State, inside: seq<Call>, capacity: int, rate: real, from: real, to: real)
    requires rate >= 0.0 && capacity >= 0 && s.last <= from <= to
    requires Timely(inside, from) && FixedSettings(inside, capacity, rate)
    requires forall i :: 0 <= i < |inside| ==> inside[i].now <= to
    ensures Admissions(s, inside) as real < capacity as real + Gain(to - from, rate) + 1.0
  {
    GainNonNegative(to - from, rate);
    if inside != [] {
      GainNonNegative(inside[0].now - s.last, rate);
      OneLeak(Gain(inside[0].now - s.last, rate));
      LeakOnce(s, inside, capacity, rate);
      GainAtZero(rate);
      BoundAfterLeak(Leak(s, rate, inside[0].now), inside, capacity, rate, inside[0].now, to);
      GainMonotone(to - inside[0].now, to - from, rate);
    }
  }

  /** The bound when less than one request has drained before the first call. */
  lemma {:induction false} BoundAfterLeak(s: State, calls: seq<Call>, capacity: int, rate: real, from: real, to: real)
    requires rate >= 0.0 && capacity >= 0 && calls != [] && s.last <= from <= calls[0].now
    requires Gain(from - s.last, rate) < 1.0
    requires Timely(calls, s.last) && FixedSettings(calls, capacity, rate)
    requires forall i :: 0 <= i < |calls| ==> calls[i].now <= to
    ensures Admissions(s, calls) as real < capacity as real + Gain(to - from, rate) + 1.0
  {
    var end := EndOf(s, calls);
    AdmissionsFillPlaces(s, calls, capacity, rate);
    DrainBounds(s, calls, capacity, rate);
    GainAdds(s.last, from, end, rate);
    GainMonotone(end - from, to - from, rate);
  }

  /** Leaking at the time of the first call before making it changes nothing. */
  lemma {:induction false} LeakOnce(s: State, calls: seq<Call>, capacity: int, rate: real)
    requires calls != [] && rate >= 0.0 && Timely(calls, s.last) && FixedSettings(calls, capacity, rate)
    ensures var l := Leak(s, rate, calls[0].now);
            l.last <= calls[0].now && Timely(calls, l.last) && Admissions(l, calls) == Admissions(s, calls)
  {
    var t := calls[0].now;
    GainNonNegative(t - s.last, rate);
    var l := Leak(s, rate, t);
    GainAtZero(rate);
    assert Leak(l, rate, t) == l;
    assert calls[0].rate == rate;
    assert Next(l, calls[0]) == Next(s, calls[0]);
  }

  /** With the factory's rate, limit/window, a closed interval one window long admits at most
      twice the limit. */
  lemma {:induction false} TwiceTheLimit(s: State, inside: seq<Call>, limit: int, window: real, from: real)
    requires limit >= 1 && window > 0.0 && s.last <= from
    requires Timely(inside, from) && FixedSettings(inside, limit, limit as real / window)
    requires forall i :: 0 <= i < |inside| ==> inside[i].now <= from + window
    ensures Admissions(s, inside) <= 2 * limit
  {
    var rate := limit as real / window;
    PositiveWait(limit as real, window);
    assert Gain(window, rate) == limit as real;
    IntervalBound(s, inside, limit, rate, from, from + window);
    assert from + window - from == window;
  }

  lemma {:induction false} Reachable(s: State, before: seq<Call>, from: real)
    requires s.last <= from && Timely(before, s.last)
    requires forall i :: 0 <= i < |before| ==> before[i].now <= from
    ensures After(s, before).last <= from
    decreases |before|
  {
    if before != [] {
      RestOfRun(s, before);
      Reachable(Next(s, before[0]), before[1..], from);
    }
  }

  // ----- Waiting after a rejection

  /** After any reading call, even by a bucket filled above a lowered capacity, a retry one
      second past the reported time is admitted. */
  lemma {:induction false} WaitingIsEnough(s: State, capacity: int, rate: real, now: real, retry: real)
    requires s.last <= now && capacity >= 1 && rate > 0.0
    requires var l := Leak(s, rate, now);
             now + ResetIn(l, capacity, rate) as real + 1.0 <= retry
    ensures Admits(Leak(s, rate, now), Call(Allow, capacity, rate, retry, retry))
  {
    var l := Leak(s, rate, now);
    GainNonNegative(now - s.last, rate);
    GainNonNegative(retry - l.last, rate);
    var untilSpace := |l.queue| - capacity + 1;
    if l.queue != [] && untilSpace > 0 {
      ReachesCount(untilSpace, rate, retry - l.last);
    }
  }

  lemma {:induction false} ReachesCount(n: nat, rate: real, wait: real)
    requires rate > 0.0 && wait >= 0.0
    ensures Truncate(Gain(wait, rate)) >= n <==> wait >= n as real / rate
  {
    GainReaches(n as real, rate, wait);
    GainNonNegative(wait, rate);
  }

  /** After a rejection at `now` the reported value alone is enough exactly when it reaches, counted
      from the last leak, the time the missing places take to drain: what drained before the
      rejection makes up for rounding down. */
  lemma {:induction false} ReportedWaitAloneIff(s: State, capacity: int, rate: real, now: real, later: real)
    requires s.last <= now <= later && capacity >= 1 && rate > 0.0
    requires !Admits(s, Call(Allow, capacity, rate, now, later))
    ensures var l := Leak(s, rate, now);
            var wait := ResetIn(l, capacity, rate) as real;
            Admits(l, Call(Allow, capacity, rate, now + wait, now + wait))
            <==> now - l.last + wait >= (|l.queue| - capacity + 1) as real / rate
  {
    var l := Leak(s, rate, now);
    GainNonNegative(now - s.last, rate);
    GainAtZero(rate);
    var wait := ResetIn(l, capacity, rate) as real;
    ReachesCount(|l.queue| - capacity + 1, rate, now + wait - l.last);
  }

  /** In particular, when the rejecting call itself has leaked: exactly when nothing was rounded. */
  lemma {:induction false} ReportedWaitAloneIffWhole(s: State, capacity: int, rate: real)
    requires |s.queue| >= capacity >= 1 && rate > 0.0
    ensures var retry := s.last + ResetIn(s, capacity, rate) as real;
            Admits(s, Call(Allow, capacity, rate, retry, retry))
            <==> IsWhole((|s.queue| - capacity + 1) as real / rate)
  {
    GainAtZero(rate);
    PositiveWait((|s.queue| - capacity + 1) as real, rate);
    ReportedWaitAloneIff(s, capacity, rate, s.last, s.last);
  }

  /** What is reported is the time the missing places take to drain, in whole seconds: exactly for every n up
      to the reported value, n seconds drain no more than that. Nothing is reported when there is room. */
  lemma {:induction false} ResetIsWaitForPlaces(s: State, capacity: int, rate: real, n: nat)
    requires rate > 0.0 && capacity >= 1
    ensures if |s.queue| < capacity then ResetIn(s, capacity, rate) == 0
            else n <= ResetIn(s, capacity, rate) <==> Gain(n as real, rate) <= (|s.queue| - capacity + 1) as real
  {
    if |s.queue| >= capacity {
      PositiveWait((|s.queue| - capacity + 1) as real, rate);
      WholeUpTo((|s.queue| - capacity + 1) as real, rate, n);
    }
  }

  // ----- The remaining count

  /** The calls that ask for admission. */
  function Requests(calls: seq<Call>): nat
    decreases |calls|
  {
    if calls == [] then 0 else (if calls[0].op.Allow? then 1 else 0) + Requests(calls[1..])
  }

  /** Of the requests made at one instant, whatever is read in between, exactly as many are admitted as
      places are free: the capacity less what is queued, after the whole requests that drained since
      the last leak are gone. This is also what `remaining_requests` reports. */
  lemma {:induction false} RemainingIsAdmitted(s: State, calls: seq<Call>, capacity: int, rate: real, t: real)
    requires s.last <= t && rate >= 0.0
    requires forall i :: 0 <= i < |calls| ==>
               calls[i].capacity == capacity && calls[i].rate == rate && calls[i].now == calls[i].later == t
    ensures var free := MaxInt(0, capacity - MaxInt(0, |s.queue| - Truncate(Gain(t - s.last, rate))));
            && Admissions(s, calls) == MinInt(Requests(calls), free)
            && Remaining(Next(s, Call(Read, capacity, rate, t, t)), capacity) == free
    decreases |calls|
  {
    FreeAt(s, Call(Read, capacity, rate, t, t));
    if calls != [] {
      hide Next, Admits, Gain, Truncate, Remaining;
      FreeAt(s, calls[0]);
      RemainingIsAdmitted(Next(s, calls[0]), calls[1..], capacity, rate, t);
    }
  }

  /** One call against the free places before it and after it. */
  lemma {:induction false} FreeAt(s: State, c: Call)
    requires s.last <= c.now == c.later && c.rate >= 0.0
    ensures var free := MaxInt(0, c.capacity - MaxInt(0, |s.queue| - Truncate(Gain(c.now - s.last, c.rate))));
            var n := Next(s, c);
            && n.last <= c.now
            && (Admits(s, c) <==> c.op.Allow? && free > 0)
            && MaxInt(0, c.capacity - MaxInt(0, |n.queue| - Truncate(Gain(c.now - n.last, c.rate))))
               == free - (if Admits(s, c) then 1 else 0)
            && Remaining(n, c.capacity) == free - (if Admits(s, c) then 1 else 0)
  {
    GainNonNegative(c.now - s.last, c.rate);
    GainAtZero(c.rate);
  }
}
