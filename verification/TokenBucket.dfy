/** app/algorithms/token_bucket.py: tokens that refill with time and are spent one a request. */
module TokenBucket {
  import opened Prelude

  datatype State = State(tokens: real, last: real)

  /** One call with the capacity and refill rate in force when it is made. */
  datatype Call = Call(op: Op, capacity: int, rate: real, now: real)

  function Refill(s: State, c: Call): State {
    State(Min(c.capacity as real, s.tokens + Gain(c.now - s.last, c.rate)), c.now)
  }

  predicate Admits(s: State, c: Call) {
    c.op.Allow? && Refill(s, c).tokens >= 1.0
  }

  function Next(s: State, c: Call): State {
    var r := Refill(s, c);
    if Admits(s, c) then r.(tokens := r.tokens - 1.0) else r
  }

  function ResetIn(s: State, rate: real): int {
    if s.tokens >= 1.0 || rate <= 0.0 then 0 else WholeSeconds((1.0 - s.tokens) / rate)
  }

  class TokenBucketRateLimiter {
    var capacity: int
    var rate: real
    var tokens: real
    var last: real
    // The configuration the facade last applied (`_rg_tuned`).
    var tuned: Option<Config>

    ghost function View(): State
      reads this
    {
      State(tokens, last)
    }

    constructor (capacity: int, rate: real, now: real)
      ensures View() == State(capacity as real, now) && this.capacity == capacity && this.rate == rate && tuned == None
    {
      this.capacity, this.rate, tokens, last, tuned := capacity, rate, capacity as real, now, None;
    }

    method RefillTokens(now: real)
      modifies this`tokens, this`last
      ensures View() == Refill(old(View()), Call(Read, capacity, rate, now))
    {
      var elapsed := now - last;
      var newTokens := Gain(elapsed, rate);
      tokens := Min(capacity as real, tokens + newTokens);
      last := now;
    }

    method AllowRequest(now: real) returns (ok: bool)
      modifies this`tokens, this`last
      ensures ok == Admits(old(View()), Call(Allow, capacity, rate, now))
      ensures View() == Next(old(View()), Call(Allow, capacity, rate, now))
    {
      RefillTokens(now);
      if tokens < 1.0 {
        return false;
      }
      tokens := tokens - 1.0;
      return true;
    }

    method RemainingRequests(now: real) returns (n: int)
      modifies this`tokens, this`last
      ensures View() == Next(old(View()), Call(Read, capacity, rate, now))
      ensures n == Truncate(tokens)
    {
      RefillTokens(now);
      n := Truncate(tokens);
    }

    method ResetTime(now: real) returns (n: int)
      modifies this`tokens, this`last
      ensures View() == Next(old(View()), Call(Read, capacity, rate, now))
      ensures n == ResetIn(View(), rate)
    {
      RefillTokens(now);
      if tokens >= 1.0 {
        return 0;
      }
      if rate <= 0.0 {
        return 0;
      }
      n := WholeSeconds((1.0 - tokens) / rate);
    }
  }

  // ----- Runs

  predicate Timely(calls: seq<Call>, from: real) {
    && (forall i :: 0 <= i < |calls| ==> from <= calls[i].now && calls[i].rate >= 0.0 && calls[i].capacity >= 1)
    && (forall i, j :: 0 <= i < j < |calls| ==> calls[i].now <= calls[j].now)
  }

  lemma {:induction false} TimelyRest(calls: seq<Call>, from: real)
    requires calls != [] && Timely(calls, from)
    ensures Timely(calls[1..], calls[0].now)
  {
  }

  function After(s: State, calls: seq<Call>): State
    decreases |calls|
  {
    if calls == [] then s else After(Next(s, calls[0]), calls[1..])
  }

  lemma {:induction false} OneMoreCall(s: State, calls: seq<Call>, c: Call)
    ensures After(s, calls + [c]) == Next(After(s, calls), c)
    decreases |calls|
  {
    hide Next;
    if calls == [] {
      assert [] + [c] == [c] && [c][1..] == [];
    } else {
      assert (calls + [c])[1..] == calls[1..] + [c];
      OneMoreCall(Next(s, calls[0]), calls[1..], c);
    }
  }

  function Admissions(s: State, calls: seq<Call>): nat
    decreases |calls|
  {
    if calls == [] then 0
    else (if Admits(s, calls[0]) then 1 else 0) + Admissions(Next(s, calls[0]), calls[1..])
  }

  /** The sum over the calls of the time since the previous call times the rate in force. */
  function Credit(last: real, calls: seq<Call>): real
    decreases |calls|
  {
    if calls == [] then 0.0
    else Gain(calls[0].now - last, calls[0].rate) + Credit(calls[0].now, calls[1..])
  }

  /** After a call the tokens lie between 0 and the capacity in force at that call. */
  lemma {:induction false} TokensInRange(s: State, c: Call)
    requires s.tokens >= 0.0 && s.last <= c.now && c.rate >= 0.0 && c.capacity >= 1
    ensures 0.0 <= Next(s, c).tokens <= c.capacity as real
  {
    GainNonNegative(c.now - s.last, c.rate);
  }

  /** Nothing is admitted that was not paid for: under any re-tuning, admissions plus the
      tokens left never exceed the tokens at the start plus the credit of every gap. */
  lemma {:induction false} AdmissionsPaidFor(s: State, calls: seq<Call>)
    requires s.tokens >= 0.0 && Timely(calls, s.last)
    ensures Admissions(s, calls) as real + After(s, calls).tokens <= s.tokens + Credit(s.last, calls)
    ensures After(s, calls).tokens >= 0.0
    decreases |calls|
  {
    if calls != [] {
      TokensInRange(s, calls[0]);
      TimelyRest(calls, s.last);
      AdmissionsPaidFor(Next(s, calls[0]), calls[1..]);
    }
  }

  predicate FixedSettings(calls: seq<Call>, capacity: int, rate: real) {
    forall i :: 0 <= i < |calls| ==> calls[i].capacity == capacity && calls[i].rate == rate
  }

  lemma {:induction false} CreditOfFixedRate(last: real, calls: seq<Call>, capacity: int, rate: real, to: real)
    requires Timely(calls, last) && FixedSettings(calls, capacity, rate) && rate >= 0.0
    requires last <= to && forall i :: 0 <= i < |calls| ==> calls[i].now <= to
    ensures Credit(last, calls) <= Gain(to - last, rate)
    decreases |calls|
  {
    if calls == [] {
      GainNonNegative(to - last, rate);
    } else {
      TimelyRest(calls, last);
      CreditOfFixedRate(calls[0].now, calls[1..], capacity, rate, to);
      GainAdds(last, calls[0].now, to, rate);
    }
  }

  /** In every run, an interval [from, to] under one setting admits at most
      capacity + rate * (to - from), whatever state earlier calls and settings left. */
  lemma {:induction false} IntervalBound(s: State, inside: seq<Call>, capacity: int, rate: real, from: real, to: real)
    requires s.tokens >= 0.0 && s.last <= from <= to && capacity >= 1 && rate >= 0.0
    requires Timely(inside, from) && FixedSettings(inside, capacity, rate)
    requires forall i :: 0 <= i < |inside| ==> inside[i].now <= to
    ensures Admissions(s, inside) as real <= capacity as real + Gain(to - from, rate)
  {
    GainNonNegative(to - from, rate);
    if inside != [] {
      var n := Next(s, inside[0]);
      TokensInRange(s, inside[0]);
      TimelyRest(inside, from);
      AdmissionsPaidFor(n, inside[1..]);
      CreditOfFixedRate(n.last, inside[1..], capacity, rate, to);
      GainMonotone(to - inside[0].now, to - from, rate);
    }
  }

  /** Every state a run can reach has non-negative tokens, so IntervalBound covers every run. */
  lemma {:induction false} Reachable(created: real, capacity: int, before: seq<Call>, from: real)
    requires capacity >= 1 && created <= from && Timely(before, created)
    requires forall i :: 0 <= i < |before| ==> before[i].now <= from
    ensures var s := After(State(capacity as real, created), before); s.tokens >= 0.0 && s.last <= from
  {
    AdmissionsPaidFor(State(capacity as real, created), before);
    LastWithin(State(capacity as real, created), before, from);
  }

  lemma {:induction false} LastWithin(s: State, calls: seq<Call>, to: real)
    requires s.last <= to && forall i :: 0 <= i < |calls| ==> calls[i].now <= to
    ensures After(s, calls).last <= to
    decreases |calls|
  {
    if calls != [] {
      LastWithin(Next(s, calls[0]), calls[1..], to);
    }
  }

  // ----- Waiting after a rejection

  /** After any reading call, a retry more than the reported time plus one second later is
      admitted. */
  lemma {:induction false} WaitingIsEnough(s: State, capacity: int, rate: real, now: real, retry: real)
    requires s.tokens >= 0.0 && s.last <= now && capacity >= 1 && rate > 0.0
    requires var r := Refill(s, Call(Read, capacity, rate, now));
             now + ResetIn(r, rate) as real + 1.0 <= retry
    ensures Admits(Refill(s, Call(Read, capacity, rate, now)), Call(Allow, capacity, rate, retry))
  {
    var r := Refill(s, Call(Read, capacity, rate, now));
    TokensInRange(s, Call(Read, capacity, rate, now));
    GainNonNegative(retry - now, rate);
    GainReaches(1.0 - r.tokens, rate, retry - now);
  }

  /** After a rejection the reported value alone is enough exactly when rounding it down lost
      nothing. */
  lemma {:induction false} ReportedWaitAloneIffWhole(s: State, capacity: int, rate: real)
    requires 0.0 <= s.tokens < 1.0 && capacity >= 1 && rate > 0.0
    ensures Admits(s, Call(Allow, capacity, rate, s.last + ResetIn(s, rate) as real))
            <==> IsWhole((1.0 - s.tokens) / rate)
  {
    var wait := ResetIn(s, rate) as real;
    GainReaches(1.0 - s.tokens, rate, wait);
    PositiveWait(1.0 - s.tokens, rate);
    assert s.last + wait - s.last == wait;
  }

  /** What is reported is the wait for one token in whole seconds: exactly for every n up to the reported
      value, n seconds bring no more than what is missing. Nothing is reported when nothing is missing. */
  lemma {:induction false} ResetIsWaitForToken(s: State, rate: real, n: nat)
    requires rate > 0.0 && s.tokens >= 0.0
    ensures if s.tokens >= 1.0 then ResetIn(s, rate) == 0
            else n <= ResetIn(s, rate) <==> s.tokens + Gain(n as real, rate) <= 1.0
  {
    if s.tokens < 1.0 {
      PositiveWait(1.0 - s.tokens, rate);
      WholeUpTo(1.0 - s.tokens, rate, n);
    }
  }

  // ----- The remaining count

  /** The calls that ask for admission. */
  function Requests(calls: seq<Call>): nat
    decreases |calls|
  {
    if calls == [] then 0 else (if calls[0].op.Allow? then 1 else 0) + Requests(calls[1..])
  }

  /** Of the requests made at one instant, whatever is read in between, exactly as many are admitted as
      there are whole tokens: those left, and those refilled since the last call, up to the capacity.
      This is also what `remaining_requests` reports. */
  lemma {:induction false} RemainingIsAdmitted(s: State, calls: seq<Call>, capacity: int, rate: real, t: real)
    requires s.tokens >= 0.0 && s.last <= t && capacity >= 1 && rate >= 0.0
    requires forall i :: 0 <= i < |calls| ==> calls[i].capacity == capacity && calls[i].rate == rate && calls[i].now == t
    ensures var whole := Truncate(Min(capacity as real, s.tokens + Gain(t - s.last, rate)));
            && Admissions(s, calls) == MinInt(Requests(calls), whole)
            && Truncate(Next(s, Call(Read, capacity, rate, t)).tokens) == whole
    decreases |calls|
  {
    GainNonNegative(t - s.last, rate);
    GainAtZero(rate);
    if calls != [] {
      TokensInRange(s, calls[0]);
      RemainingIsAdmitted(Next(s, calls[0]), calls[1..], capacity, rate, t);
    }
  }
}
