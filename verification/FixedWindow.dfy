/** app/algorithms/fixed_window.py: a counter that starts afresh once its window is over. */
module FixedWindow {
  import opened Prelude

  datatype State = State(count: int, start: real)

  /** One call, with the settings in force when it is made. */
  datatype Call = Call(op: Op, limit: int, window: real, now: real)

  function Roll(s: State, window: real, now: real): State {
    if now - s.start >= window then State(0, now) else s
  }

  predicate Admits(s: State, c: Call) {
    c.op.Allow? && Roll(s, c.window, c.now).count < c.limit
  }

  function Next(s: State, c: Call): State {
    var r := Roll(s, c.window, c.now);
    if Admits(s, c) then r.(count := r.count + 1) else r
  }

  function Remaining(s: State, limit: int): int {
    MaxInt(0, limit - s.count)
  }

  function ResetIn(s: State, window: real, now: real): int {
    WholeSeconds(s.start + window - now)
  }

  class FixedWindowRateLimiter {
    var limit: int
    var window: real
    var count: int
    var start: real
    // The configuration the facade last applied (`_rg_tuned`).
    var tuned: Option<Config>

    ghost function View(): State
      reads this
    {
      State(count, start)
    }

    constructor (limit: int, window: real, now: real)
      ensures View() == State(0, now) && this.limit == limit && this.window == window && tuned == None
    {
      this.limit, this.window, this.count, this.start, this.tuned := limit, window, 0, now, None;
    }

    method ResetIfNeeded(now: real)
      modifies this`count, this`start
      ensures View() == Roll(old(View()), window, now)
    {
      if now - start >= window {
        count := 0;
        start := now;
      }
    }

    method AllowRequest(now: real) returns (ok: bool)
      modifies this`count, this`start
      ensures ok == Admits(old(View()), Call(Allow, limit, window, now))
      ensures View() == Next(old(View()), Call(Allow, limit, window, now))
    {
      ResetIfNeeded(now);
      if count >= limit {
        return false;
      }
      count := count + 1;
      return true;
    }

    method RemainingRequests(now: real) returns (n: int)
      modifies this`count, this`start
      ensures View() == Next(old(View()), Call(Read, limit, window, now))
      ensures n == Remaining(View(), limit)
    {
      ResetIfNeeded(now);
      n := MaxInt(0, limit - count);
    }

    method ResetTime(now: real, later: real) returns (n: int)
      requires now <= later
      modifies this`count, this`start
      ensures View() == Next(old(View()), Call(Read, limit, window, now))
      ensures n == ResetIn(View(), window, later)
    {
      ResetIfNeeded(now);
      n := WholeSeconds(start + window - later);
    }
  }

  // ----- Runs

  /** Call times never decrease and lie between `from` and `to`. */
  predicate Timely(calls: seq<Call>, from: real, to: real) {
    && (forall i :: 0 <= i < |calls| ==> from <= calls[i].now <= to)
    && (forall i, j :: 0 <= i < j < |calls| ==> calls[i].now <= calls[j].now)
  }

  predicate OneWindow(calls: seq<Call>, window: real) {
    forall i :: 0 <= i < |calls| ==> calls[i].window == window
  }

  predicate Limited(calls: seq<Call>, most: int) {
    forall i :: 0 <= i < |calls| ==> calls[i].limit <= most
  }

  function After(s: State, calls: seq<Call>): State
    decreases |calls|
  {
    if calls == [] then s else After(Next(s, calls[0]), calls[1..])
  }

  function Decisions(s: State, calls: seq<Call>): (r: seq<bool>)
    ensures |r| == |calls|
    decreases |calls|
  {
    if calls == [] then []
    else [Admits(s, calls[0])] + Decisions(Next(s, calls[0]), calls[1..])
  }

  lemma {:induction false} OneMoreCall(s: State, calls: seq<Call>, c: Call)
    ensures After(s, calls + [c]) == Next(After(s, calls), c)
    decreases |calls|
  {
    hide Next;
    if calls == [] {
      assert [] + [c] == [c] && [c][1..] == [];
    } else {
      assert (calls + [c])[1..] == calls[1..] + [c];
      OneMoreCall(Next(s, calls[0]), calls[1..], c);
    }
  }

  function Admissions(s: State, calls: seq<Call>): nat
    decreases |calls|
  {
    if calls == [] then 0
    else (if Admits(s, calls[0]) then 1 else 0) + Admissions(Next(s, calls[0]), calls[1..])
  }

  lemma {:induction false} RestOfRun(s: State, calls: seq<Call>, most: int, to: real)
    requires calls != [] && Timely(calls, s.start, to) && Limited(calls, most)
    ensures Timely(calls[1..], Next(s, calls[0]).start, to) && Limited(calls[1..], most)
    ensures s.start <= calls[0].now <= to && calls[0].limit <= most
  {
    forall i | 0 <= i < |calls[1..]| ensures calls[0].now <= calls[1..][i].now <= to && calls[1..][i].limit <= most {
      assert calls[1..][i] == calls[i + 1];
    }
  }

  /** Whatever was called before, no more than the largest limit is counted in the open
      window, and that window did not start in the future. */
  lemma {:induction false} Reachable(s: State, calls: seq<Call>, most: int, to: real)
    requires 0 <= s.count <= most && s.start <= to
    requires Timely(calls, s.start, to) && Limited(calls, most)
    ensures var r := After(s, calls); 0 <= r.count <= most && s.start <= r.start <= to
    decreases |calls|
  {
    if calls != [] {
      RestOfRun(s, calls, most, to);
      Reachable(Next(s, calls[0]), calls[1..], most, to);
    }
  }

  /** From a window that opened less than m+1 windows before `to`, only m more can open. */
  lemma {:induction false} WithinWindows(s: State, calls: seq<Call>, window: real, most: int, to: real, m: nat)
    requires window > 0.0 && 0 <= s.count <= most
    requires Timely(calls, s.start, to) && Limited(calls, most) && OneWindow(calls, window)
    requires to - s.start < (m as real + 1.0) * window
    ensures Admissions(s, calls) <= (most - s.count) + m * most
    decreases |calls|
  {
    if calls == [] {
      assert 0 <= m * most;
    } else {
      hide Timely, Limited;
      var n := Next(s, calls[0]);
      RestOfRun(s, calls, most, to);
      if calls[0].now - s.start >= window {
        OneWindowLess(window, most, to, s.start, n.start, m);
        WithinWindows(n, calls[1..], window, most, to, m - 1);
      } else {
        WithinWindows(n, calls[1..], window, most, to, m);
      }
    }
  }

  lemma {:induction false} OneWindowLess(window: real, most: int, to: real, start: real, next: real, m: nat)
    requires window > 0.0 && to - start < (m as real + 1.0) * window && start + window <= next <= to
    ensures m >= 1 && to - next < ((m - 1) as real + 1.0) * window
    ensures (m - 1) * most + most == m * most
  {
    assert (m as real + 1.0) * window == m as real * window + window;
  }

  /** In every run, a closed interval of length m*window admits at most (m+1)*most requests,
      where `most` is the largest limit ever in force, whatever windows were in force before it. */
  lemma {:induction false} IntervalBound(created: real, before: seq<Call>, inside: seq<Call>, window: real, most: int, from: real, m: nat)
    requires window > 0.0 && 0 <= most && created <= from
    requires Timely(before, created, from) && Limited(before, most)
    requires Timely(inside, from, from + m as real * window) && Limited(inside, most) && OneWindow(inside, window)
    ensures Admissions(After(State(0, created), before), inside) <= (m + 1) * most
  {
    var s := After(State(0, created), before);
    Reachable(State(0, created), before, most, from);
    var to := from + m as real * window;
    assert (m as real + 1.0) * window == m as real * window + window;
    assert (m + 1) * most == m * most + most;
    if inside == [] {
      assert 0 <= m * most;
    } else if inside[0].now - s.start >= window {
      // The first call opens a window inside the interval.
      var reopened := State(0, inside[0].now);
      assert Admissions(s, inside) == Admissions(reopened, inside);
      WithinWindows(reopened, inside, window, most, to, m);
    } else {
      WithinWindows(s, inside, window, most, to, m);
    }
  }

  // ----- The bound is reached

  function Burst(n: nat, limit: int, window: real, t: real): (b: seq<Call>)
    ensures |b| == n && forall i :: 0 <= i < n ==> b[i] == Call(Allow, limit, window, t)
  {
    seq(n, i => Call(Allow, limit, window, t))
  }

  lemma {:induction false} BurstAdmitted(s: State, n: nat, rest: seq<Call>, limit: int, t: real, window: real)
    requires 0.0 <= t - s.start < window && s.count + n <= limit
    ensures Admissions(s, Burst(n, limit, window, t) + rest)
         == n + Admissions(State(s.count + n, s.start), rest)
    decreases n
  {
    if n == 0 {
      assert Burst(0, limit, window, t) + rest == rest;
    } else {
      var calls := Burst(n, limit, window, t) + rest;
      assert calls[1..] == Burst(n - 1, limit, window, t) + rest;
      BurstAdmitted(State(s.count + 1, s.start), n - 1, rest, limit, t, window);
    }
  }

  /** `bursts` bursts of `limit` calls, one window apart, the first at `t`. */
  function EdgeBursts(bursts: nat, limit: nat, t: real, window: real): seq<Call>
    decreases bursts
  {
    if bursts == 0 then [] else Burst(limit, limit, window, t) + EdgeBursts(bursts - 1, limit, t + window, window)
  }

  lemma {:induction false} BurstBefore(n: nat, limit: nat, window: real, t: real, later: seq<Call>, next: real, to: real)
    requires t <= next && t <= to && Timely(later, next, to) && Limited(later, limit) && OneWindow(later, window)
    ensures var calls := Burst(n, limit, window, t) + later;
            Timely(calls, t, to) && Limited(calls, limit) && OneWindow(calls, window)
  {
    var calls := Burst(n, limit, window, t) + later;
    assert forall i :: 0 <= i < |calls| ==> calls[i] == if i < n then Call(Allow, limit, window, t) else later[i - n];
  }

  lemma {:induction false} EdgeBurstsTimely(bursts: nat, limit: nat, t: real, window: real, to: real)
    requires window > 0.0 && t + bursts as real * window <= to + window
    ensures var calls := EdgeBursts(bursts, limit, t, window);
            Timely(calls, t, to) && Limited(calls, limit) && OneWindow(calls, window)
    decreases bursts
  {
    if bursts > 0 {
      hide Timely, Limited, OneWindow;
      var k := bursts - 1;
      assert bursts as real * window == k as real * window + window;
      MulMonotone(0.0, k as real, window);
      EdgeBurstsTimely(k, limit, t + window, window, to);
      BurstBefore(limit, limit, window, t, EdgeBursts(k, limit, t + window, window), t + window, to);
    }
  }

  lemma {:induction false} EdgeBurstsAdmitted(s: State, bursts: nat, limit: nat, t: real, window: real)
    requires limit >= 1 && window > 0.0 && Roll(s, window, t) == State(0, t)
    ensures Admissions(s, EdgeBursts(bursts, limit, t, window)) == bursts * limit
    decreases bursts
  {
    if bursts > 0 {
      var calls := EdgeBursts(bursts, limit, t, window);
      var rest := EdgeBursts(bursts - 1, limit, t + window, window);
      assert calls[0] == Call(Allow, limit, window, t);
      assert Admissions(s, calls) == Admissions(State(0, t), calls);
      BurstAdmitted(State(0, t), limit, rest, limit, t, window);
      EdgeBurstsAdmitted(State(limit, t), bursts - 1, limit, t + window, window);
      assert bursts * limit == limit + (bursts - 1) * limit;
    }
  }

  /** No smaller bound holds: for every limit, window and m there is a run whose calls all
      lie in [0, m*window] and that admits exactly (m+1)*limit. For m = 1 this is the
      doubled limit at a window edge. */
  lemma {:induction false} BoundReached(m: nat, limit: nat, window: real)
    requires limit >= 1 && window > 0.0
    ensures var calls := EdgeBursts(m + 1, limit, 0.0, window);
            && Timely(calls, 0.0, m as real * window) && Limited(calls, limit) && OneWindow(calls, window)
            && Admissions(State(0, 0.0), calls) == (m + 1) * limit
  {
    assert (m + 1) as real * window == m as real * window + window;
    EdgeBurstsTimely(m + 1, limit, 0.0, window, m as real * window);
    EdgeBurstsAdmitted(State(0, 0.0), m + 1, limit, 0.0, window);
  }

  // ----- Waiting after a rejection

  /** One second more than the reported reset time is always enough. */
  lemma {:induction false} WaitingIsEnough(s: State, limit: int, window: real, now: real, later: real, retry: real)
    requires limit >= 1 && now <= later
    requires var r := ResetIn(Roll(s, window, now), window, later);
             later + r as real + 1.0 <= retry
    ensures Admits(Roll(s, window, now), Call(Allow, limit, window, retry))
  {
  }

  /** The reported value alone is enough after a rejection exactly when nothing was cut off
      by rounding it down to whole seconds. */
  lemma {:induction false} ReportedWaitAloneIffWhole(s: State, limit: int, window: real, now: real)
    requires limit >= 1 && window > 0.0
    requires !Admits(s, Call(Allow, limit, window, now))
    ensures var r := Roll(s, window, now);
            Admits(r, Call(Allow, limit, window, now + ResetIn(r, window, now) as real))
            <==> IsWhole(r.start + window - now)
  {
  }

  /** What is reported is the end of the window, in whole seconds: it is not over after n seconds, or
      just ends, exactly for every n up to the reported value. */
  lemma {:induction false} ResetIsWindowEnd(s: State, window: real, now: real, n: nat)
    requires now <= s.start + window
    ensures n <= ResetIn(s, window, now) <==> now + n as real <= s.start + window
  {
    assert n <= ResetIn(s, window, now) ==> n as real <= ResetIn(s, window, now) as real;
  }

  // ----- The remaining count

  /** The calls that ask for admission. */
  function Requests(calls: seq<Call>): nat
    decreases |calls|
  {
    if calls == [] then 0 else (if calls[0].op.Allow? then 1 else 0) + Requests(calls[1..])
  }

  /** The reported count is true: of the requests that follow in the same window, whenever they
      come and whatever is read in between, exactly that many are admitted. */
  lemma {:induction false} RemainingIsAdmitted(s: State, calls: seq<Call>, limit: int)
    requires forall i :: 0 <= i < |calls| ==> calls[i].limit == limit && calls[i].now - s.start < calls[i].window
    ensures Admissions(s, calls) == MinInt(Requests(calls), Remaining(s, limit))
    decreases |calls|
  {
    if calls != [] {
      RemainingIsAdmitted(Next(s, calls[0]), calls[1..], limit);
    }
  }
}
