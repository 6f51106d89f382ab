/** What clients get out of the facade in memory mode with sliding windows: every interleaved run, any
    number of keys and threads, limiters rebuilt and re-tuned on the way. */
module EndToEnd {
  import opened Prelude
  import opened LruTable
  import opened Limiters
  import opened FacadeRuns
  import SlidingWindow

  // ----- The calls and admissions of each limiter, read off the decisions of a run

  predicate AllSliding(log: seq<Decision>) {
    forall j :: 0 <= j < |log| ==> log[j].before.Sliding?
  }

  function CallOf(d: Decision): SlidingWindow.Call
    requires d.before.Sliding?
  {
    SlidingWindow.Call(d.op, d.before.limit, d.before.window, d.t1, d.t2)
  }

  /** The calls the i-th limiter of the key served. */
  function CallsOf(log: seq<Decision>, i: nat): seq<SlidingWindow.Call>
    requires AllSliding(log)
    decreases |log|
  {
    if log == [] then []
    else
      var n := |log| - 1;
      CallsOf(log[..n], i) + if log[n].index == i then [CallOf(log[n])] else []
  }

  /** The times the i-th limiter of the key admitted. */
  function TimesOf(log: seq<Decision>, i: nat): seq<real>
    decreases |log|
  {
    if log == [] then []
    else
      var n := |log| - 1;
      TimesOf(log[..n], i) + if log[n].index == i && log[n].allowed then [log[n].t2] else []
  }

  /** The times the key was admitted, by whichever limiter. */
  function Times(log: seq<Decision>): seq<real>
    decreases |log|
  {
    if log == [] then []
    else
      var n := |log| - 1;
      Times(log[..n]) + if log[n].allowed then [log[n].t2] else []
  }

  // ----- Each limiter's state is its own history

  /** Every limiter made for the key holds the queue its own calls leave, and every decision is the one
      that queue gives. */
  predicate Bridged(s: State, key: string, log: seq<Decision>) {
    var made := Made(s, key);
    && AllSliding(log)
    && (forall j :: 0 <= j < |log| ==> log[j].index < |made|)
    && (forall i :: 0 <= i < |made| ==> made[i].Sliding? && made[i].requests == SlidingWindow.Run(CallsOf(log, i)))
    && (forall j :: 0 <= j < |log| ==> Truthful(log, j))
  }

  predicate Truthful(log: seq<Decision>, j: nat)
    requires j < |log| && AllSliding(log)
  {
    log[j].allowed == SlidingWindow.Admits(SlidingWindow.Run(CallsOf(log[..j], log[j].index)), CallOf(log[j]))
  }

  lemma {:induction false} OneMoreDecision(log: seq<Decision>, d: Decision, i: nat)
    requires AllSliding(log) && d.before.Sliding?
    ensures AllSliding(log + [d])
    ensures CallsOf(log + [d], i) == if d.index == i then CallsOf(log, i) + [CallOf(d)] else CallsOf(log, i)
    ensures TimesOf(log + [d], i) == if d.index == i && d.allowed then TimesOf(log, i) + [d.t2] else TimesOf(log, i)
    ensures Times(log + [d]) == if d.allowed then Times(log) + [d.t2] else Times(log)
  {
    assert (log + [d])[..|log|] == log;
  }

  lemma {:induction false} EarlierTruthful(log: seq<Decision>, d: Decision, j: nat)
    requires AllSliding(log) && d.before.Sliding? && j < |log| && Truthful(log, j)
    ensures AllSliding(log + [d]) && Truthful(log + [d], j)
  {
    assert (log + [d])[..j] == log[..j];
  }

  lemma {:induction false} UnusedLimiter(log: seq<Decision>, i: nat)
    requires AllSliding(log) && forall j :: 0 <= j < |log| ==> log[j].index != i
    ensures CallsOf(log, i) == []
    decreases |log|
  {
    if log != [] {
      UnusedLimiter(log[..|log| - 1], i);
    }
  }

  lemma {:induction false} LookupBridged(s: State, st: Step, key: string, log: seq<Decision>, p: Settings)
    requires Valid(s) && Enabled(s, st) && st.Lookup? && p.algorithm == SlidingWindows && Bridged(s, key, log)
    ensures Bridged(Next(s, st, p), key, log)
  {
    hide SlidingWindow.Run, CallsOf, Truthful, Touch, Next, Valid, Made;
    LookupMakes(s, st, key, p);
    if st.key == key && !Hit(s.table, key, st.now, p.keyTtl) {
      UnusedLimiter(log, |Made(s, key)|);
      NothingServed();
    }
  }

  lemma {:induction false} NothingServed()
    ensures SlidingWindow.Run([]) == []
  {
  }

  lemma {:induction false} DecideBridged(s: State, st: Step, key: string, log: seq<Decision>, p: Settings)
    requires Valid(s) && Enabled(s, st) && st.Decide? && s.inFlight[st.thread].key == key && Bridged(s, key, log)
    ensures Bridged(Next(s, st, p), key, log + [Answer(s, st)])
  {
    hide SlidingWindow.Run, CallsOf, SlidingWindow.Next, SlidingWindow.Admits;
    var d := Answer(s, st);
    var made, after := Made(s, key), Made(Next(s, st, p), key);
    var longer := log + [d];
    assert longer[..|log|] == log;
    forall i | 0 <= i < |after| ensures after[i].Sliding? && after[i].requests == SlidingWindow.Run(CallsOf(longer, i)) {
      OneMoreDecision(log, d, i);
      SlidingWindow.OneMoreCall(CallsOf(log, i), CallOf(d));
    }
    forall j | 0 <= j < |longer| ensures Truthful(longer, j) {
      if j < |log| {
        EarlierTruthful(log, d, j);
      }
    }
  }

  lemma {:induction false} StepBridged(s: State, st: Step, key: string, log: seq<Decision>, p: Settings)
    requires Valid(s) && Enabled(s, st) && p.algorithm == SlidingWindows && Bridged(s, key, log)
    ensures Bridged(Next(s, st, p), key, log + LoggedBy(s, st, key))
  {
    if st.Lookup? {
      assert log + [] == log;
      LookupBridged(s, st, key, log, p);
    } else if s.inFlight[st.thread].key == key {
      DecideBridged(s, st, key, log, p);
    } else {
      assert log + [] == log;
    }
  }

  lemma {:induction false} RunBridged(s: State, run: seq<Step>, key: string, log: seq<Decision>, p: Settings)
    requires Valid(s) && RunEnabled(s, run, p) && p.algorithm == SlidingWindows && Bridged(s, key, log)
    ensures Bridged(After(s, run, p), key, log + AnswersFor(s, run, key, p))
    decreases |run|
  {
    hide Bridged, Next, LoggedBy;
    if run == [] {
      assert log + [] == log;
    } else {
      NextValid(s, run[0], p);
      StepBridged(s, run[0], key, log, p);
      var next, one := Next(s, run[0], p), LoggedBy(s, run[0], key);
      RunBridged(next, run[1..], key, log + one, p);
      assert (log + one) + AnswersFor(next, run[1..], key, p) == log + (one + AnswersFor(next, run[1..], key, p));
    }
  }

  /** After every interleaved run, through every re-tune, rebuild and eviction, each limiter ever made for a
      key holds exactly the queue its own calls leave, and every decision is that of a limiter that
      saw only these calls. */
  lemma {:induction false} LimitersAreTheirHistories(run: seq<Step>, key: string, p: Settings)
    requires RunEnabled(INITIAL, run, p) && p.algorithm == SlidingWindows
    ensures Bridged(After(INITIAL, run, p), key, AnswersFor(INITIAL, run, key, p))
  {
    RunBridged(INITIAL, run, key, [], p);
    assert [] + AnswersFor(INITIAL, run, key, p) == AnswersFor(INITIAL, run, key, p);
  }

  lemma {:induction false} TimesAreAdmitted(log: seq<Decision>, i: nat)
    requires AllSliding(log) && forall j :: 0 <= j < |log| ==> Truthful(log, j)
    ensures SlidingWindow.Admitted(CallsOf(log, i)) == TimesOf(log, i)
    decreases |log|
  {
    hide SlidingWindow.Run, SlidingWindow.Admits;
    if log != [] {
      var n := |log| - 1;
      var earlier, d := log[..n], log[n];
      assert log == earlier + [d];
      forall j | 0 <= j < |earlier| ensures Truthful(earlier, j) {
        assert Truthful(log, j) && log[..j] == earlier[..j];
      }
      TimesAreAdmitted(earlier, i);
      assert Truthful(log, n);
      OneMoreDecision(earlier, d, i);
      SlidingWindow.OneMoreCall(CallsOf(earlier, i), CallOf(d));
    }
  }

  // ----- Each limiter keeps its promise, re-tuned or not

  /** The clock readings taken under one limiter's lock are in order. */
  predicate InLockOrder(log: seq<Decision>) {
    && (forall j :: 0 <= j < |log| ==> log[j].t1 <= log[j].t2)
    && (forall j, k :: 0 <= j < k < |log| && log[j].index == log[k].index ==> log[j].t2 <= log[k].t1)
  }

  predicate UnderWindow(log: seq<Decision>, window: real) {
    AllSliding(log) && forall j :: 0 <= j < |log| ==> log[j].before.window == window
  }

  lemma {:induction false} CallsEarlier(log: seq<Decision>, i: nat, t: real)
    requires AllSliding(log) && forall j :: 0 <= j < |log| && log[j].index == i ==> log[j].t2 <= t
    ensures forall k :: 0 <= k < |CallsOf(log, i)| ==> CallsOf(log, i)[k].later <= t
    decreases |log|
  {
    if log != [] {
      CallsEarlier(log[..|log| - 1], i, t);
    }
  }

  lemma {:induction false} CallsTimely(log: seq<Decision>, i: nat, window: real)
    requires InLockOrder(log) && UnderWindow(log, window) && window > 0.0
    ensures SlidingWindow.Timely(CallsOf(log, i)) && SlidingWindow.OneWindow(CallsOf(log, i), window)
    decreases |log|
  {
    if log != [] {
      var n := |log| - 1;
      var earlier, d := log[..n], log[n];
      assert forall j :: 0 <= j < n ==> earlier[j] == log[j];
      CallsTimely(earlier, i, window);
      if d.index == i {
        CallsEarlier(earlier, i, d.t1);
      }
    }
  }

  /** What holds of a log holds of its beginning. */
  lemma {:induction false} BeginningOfLog(log: seq<Decision>, n: nat, window: real)
    requires n <= |log| && InLockOrder(log) && UnderWindow(log, window) && forall j :: 0 <= j < |log| ==> Truthful(log, j)
    ensures InLockOrder(log[..n]) && UnderWindow(log[..n], window) && forall j :: 0 <= j < n ==> Truthful(log[..n], j)
  {
    hide SlidingWindow.Run, SlidingWindow.Admits, CallsOf;
    assert forall j :: 0 <= j < n ==> log[..n][j] == log[j];
    forall j | 0 <= j < n ensures Truthful(log[..n], j) {
      assert Truthful(log, j) && log[..n][..j] == log[..j];
    }
  }

  lemma {:induction false} LastAdmissionLeaves(earlier: seq<Decision>, d: Decision, window: real)
    requires window > 0.0 && InLockOrder(earlier + [d]) && UnderWindow(earlier + [d], window) && d.allowed
    requires forall j :: 0 <= j < |earlier + [d]| ==> Truthful(earlier + [d], j)
    ensures |SlidingWindow.Since(TimesOf(earlier + [d], d.index), d.t2 - window)| <= d.before.limit
  {
    hide SlidingWindow.Run, SlidingWindow.Since, SlidingWindow.Timely, SlidingWindow.OneWindow, CallsOf, TimesOf, InLockOrder;
    var log := earlier + [d];
    var n := |earlier|;
    assert log[n] == d;
    BeginningOfLog(log, n, window);
    assert log[..n] == earlier;
    OneMoreDecision(earlier, d, d.index);
    TimesAreAdmitted(log, d.index);
    CallsTimely(log, d.index, window);
    assert Truthful(log, n);
    SlidingWindow.AdmissionLeavesAtMostLimit(CallsOf(earlier, d.index), CallOf(d), d.t2 - window);
  }

  /** Re-tuning keeps history, in every interleaved run of the facade: with one window length, a decision
      that admits leaves at most the limit then in force among its limiter's admissions in the
      trailing window, whatever limits were in force before. */
  lemma {:induction false} AdmissionLeavesAtMostLimit(run: seq<Step>, key: string, p: Settings, window: real, j: nat)
    requires RunEnabled(INITIAL, run, p) && p.algorithm == SlidingWindows && window > 0.0
    requires var log := AnswersFor(INITIAL, run, key, p);
             InLockOrder(log) && UnderWindow(log, window) && j < |log| && log[j].allowed
    ensures var log := AnswersFor(INITIAL, run, key, p);
            |SlidingWindow.Since(TimesOf(log[..j + 1], log[j].index), log[j].t2 - window)| <= log[j].before.limit
  {
    hide RunEnabled, AnswersFor, SlidingWindow.Since, InLockOrder, UnderWindow, TimesOf, Truthful;
    LimitersAreTheirHistories(run, key, p);
    var log := AnswersFor(INITIAL, run, key, p);
    BeginningOfLog(log, j + 1, window);
    assert log[..j + 1] == log[..j] + [log[j]];
    LastAdmissionLeaves(log[..j], log[j], window);
  }

  // ----- Every lookup of the key asks for the same window and at most a given limit

  predicate LookupsUnder(run: seq<Step>, key: string, c: Config) {
    forall i :: 0 <= i < |run| && run[i].Lookup? && run[i].key == key ==> run[i].config.window == c.window && run[i].config.limit <= c.limit
  }

  predicate Under(l: Limiter, c: Config) {
    l.Sliding? && l.window == c.window as real && l.limit <= c.limit
  }

  lemma {:induction false} StepUnder(s: State, st: Step, key: string, c: Config, p: Settings)
    requires Valid(s) && Enabled(s, st) && p.algorithm == SlidingWindows
    requires st.Lookup? && st.key == key ==> st.config.window == c.window && st.config.limit <= c.limit
    requires forall i :: 0 <= i < |Made(s, key)| ==> Under(Made(s, key)[i], c)
    ensures forall i :: 0 <= i < |Made(Next(s, st, p), key)| ==> Under(Made(Next(s, st, p), key)[i], c)
    ensures AllUnder(LoggedBy(s, st, key), c)
  {
    hide SlidingWindow.Next, SlidingWindow.Admits;
    var made, after := Made(s, key), Made(Next(s, st, p), key);
    if st.Lookup? {
      LookupMakes(s, st, key, p);
      assert forall i :: 0 <= i < |after| ==> Under(after[i], c);
    } else {
      assert |after| == |made|;
      assert forall i :: 0 <= i < |after| ==> Under(after[i], c);
    }
  }

  predicate AllUnder(log: seq<Decision>, c: Config) {
    forall j :: 0 <= j < |log| ==> Under(log[j].before, c)
  }

  lemma {:induction false} RunUnder(s: State, run: seq<Step>, key: string, c: Config, p: Settings)
    requires Valid(s) && RunEnabled(s, run, p) && p.algorithm == SlidingWindows && LookupsUnder(run, key, c)
    requires forall i :: 0 <= i < |Made(s, key)| ==> Under(Made(s, key)[i], c)
    ensures AllUnder(AnswersFor(s, run, key, p), c)
    decreases |run|
  {
    hide Next, LoggedBy;
    if run != [] {
      NextValid(s, run[0], p);
      StepUnder(s, run[0], key, c, p);
      RunUnder(Next(s, run[0], p), run[1..], key, c, p);
      assert AllUnder(LoggedBy(s, run[0], key), c);
    }
  }

  // ----- How much an interval admits

  /** One limiter admits at most its limit in any half-open interval one window long, in every
      interleaved run. */
  lemma {:induction false} LimiterBound(run: seq<Step>, key: string, c: Config, p: Settings, i: nat, from: real)
    requires RunEnabled(INITIAL, run, p) && p.algorithm == SlidingWindows
    requires Sensible(c) && LookupsUnder(run, key, c) && InLockOrder(AnswersFor(INITIAL, run, key, p))
    ensures SlidingWindow.CountIn(TimesOf(AnswersFor(INITIAL, run, key, p), i), from, from + c.window as real) <= c.limit
  {
    hide RunEnabled, AnswersFor, LookupsUnder, InLockOrder, After, Truthful, SlidingWindow.Run, SlidingWindow.Timely,
         SlidingWindow.Admitted, SlidingWindow.CountIn, CallsOf, TimesOf;
    var log := AnswersFor(INITIAL, run, key, p);
    LimitersAreTheirHistories(run, key, p);
    RunUnder(INITIAL, run, key, c, p);
    TimesAreAdmitted(log, i);
    CallsTimely(log, i, c.window as real);
    CallsUnder(log, i, c);
    SlidingWindow.AnyWindowBound(CallsOf(log, i), c.window as real, c.limit, from);
  }

  lemma {:induction false} CallsUnder(log: seq<Decision>, i: nat, c: Config)
    requires AllSliding(log) && AllUnder(log, c)
    ensures forall k :: 0 <= k < |CallsOf(log, i)| ==> CallsOf(log, i)[k].limit <= c.limit
    decreases |log|
  {
    if log != [] {
      CallsUnder(log[..|log| - 1], i, c);
    }
  }

  /** The limiters of the key that take a decision in the interval. */
  function Deciders(log: seq<Decision>, from: real, to: real): set<nat> {
    set d | d in log && from <= d.t2 < to :: d.index
  }

  /** How many of the log's requests were admitted in the interval, by all limiters or by one. */
  function Used(log: seq<Decision>, from: real, to: real): nat
    decreases |log|
  {
    if log == [] then 0
    else
      var n := |log| - 1;
      Used(log[..n], from, to) + if log[n].allowed && from <= log[n].t2 < to then 1 else 0
  }

  function UsedBy(log: seq<Decision>, i: nat, from: real, to: real): nat
    decreases |log|
  {
    if log == [] then 0
    else
      var n := |log| - 1;
      UsedBy(log[..n], i, from, to) + if log[n].index == i && log[n].allowed && from <= log[n].t2 < to then 1 else 0
  }

  lemma {:induction false} CountSnoc(ts: seq<real>, t: real, from: real, to: real)
    ensures SlidingWindow.CountIn(ts + [t], from, to) == SlidingWindow.CountIn(ts, from, to) + if from <= t < to then 1 else 0
    ensures ts + [] == ts
  {
    assert (ts + [t])[..|ts|] == ts;
  }

  lemma {:induction false} UsedCounts(log: seq<Decision>, i: nat, from: real, to: real)
    ensures Used(log, from, to) == SlidingWindow.CountIn(Times(log), from, to)
    ensures UsedBy(log, i, from, to) == SlidingWindow.CountIn(TimesOf(log, i), from, to)
    decreases |log|
  {
    hide SlidingWindow.CountIn;
    if log != [] {
      var n := |log| - 1;
      UsedCounts(log[..n], i, from, to);
      CountSnoc(Times(log[..n]), log[n].t2, from, to);
      CountSnoc(TimesOf(log[..n], i), log[n].t2, from, to);
    } else {
      NothingCounted(from, to);
    }
  }

  lemma {:induction false} NothingCounted(from: real, to: real)
    ensures SlidingWindow.CountIn([], from, to) == 0
  {
  }

  /** The decisions of all limiters but the i-th. */
  function Others(log: seq<Decision>, i: nat): seq<Decision>
    decreases |log|
  {
    if log == [] then []
    else
      var n := |log| - 1;
      if log[n].index == i then Others(log[..n], i) else Others(log[..n], i) + [log[n]]
  }

  lemma {:induction false} OthersMembers(log: seq<Decision>, i: nat)
    ensures forall d :: d in Others(log, i) ==> d in log && d.index != i
    decreases |log|
  {
    if log != [] {
      OthersMembers(log[..|log| - 1], i);
    }
  }

  lemma {:induction false} OthersUse(log: seq<Decision>, i: nat, k: nat, from: real, to: real)
    ensures Used(log, from, to) == UsedBy(log, i, from, to) + Used(Others(log, i), from, to)
    ensures k != i ==> UsedBy(Others(log, i), k, from, to) == UsedBy(log, k, from, to)
    decreases |log|
  {
    if log != [] {
      var n := |log| - 1;
      OthersUse(log[..n], i, k, from, to);
      if log[n].index != i {
        var rest := Others(log[..n], i);
        assert (rest + [log[n]])[..|rest|] == rest;
      }
    }
  }

  lemma {:induction false} NobodyDecides(log: seq<Decision>, from: real, to: real)
    requires forall d :: d in log ==> !(from <= d.t2 < to)
    ensures Used(log, from, to) == 0
    decreases |log|
  {
    if log != [] {
      var n := |log| - 1;
      assert log[n] in log;
      NobodyDecides(log[..n], from, to);
    }
  }

  /** What all limiters admit is at most what each may, times how many of them decide. */
  lemma {:induction false} UsedByLimiters(log: seq<Decision>, ids: set<nat>, from: real, to: real, most: nat)
    requires forall d :: d in log && from <= d.t2 < to ==> d.index in ids
    requires forall i :: i in ids ==> UsedBy(log, i, from, to) <= most
    ensures Used(log, from, to) <= most * |ids|
    decreases |ids|
  {
    hide Used, UsedBy, Others;
    if ids == {} {
      NobodyDecides(log, from, to);
    } else {
      var i :| i in ids;
      var rest := Others(log, i);
      OthersMembers(log, i);
      forall k | k in ids - {i} ensures UsedBy(rest, k, from, to) <= most {
        OthersUse(log, i, k, from, to);
      }
      OthersUse(log, i, i, from, to);
      UsedByLimiters(rest, ids - {i}, from, to, most);
      OneTimesMore(most, |ids - {i}|);
    }
  }

  lemma {:induction false} OneTimesMore(most: nat, n: nat)
    ensures most * (n + 1) == most * n + most
  {
  }

  /** The general bound. In every interleaved run with one window length, any half-open interval one window
      long admits at most the largest limit in force times the number of limiters that decide in it:
      calls in flight may still hold limiters that were rebuilt or evicted since. */
  lemma {:induction false} BoundByDeciders(run: seq<Step>, key: string, c: Config, p: Settings, from: real)
    requires RunEnabled(INITIAL, run, p) && p.algorithm == SlidingWindows
    requires Sensible(c) && LookupsUnder(run, key, c) && InLockOrder(AnswersFor(INITIAL, run, key, p))
    ensures var log := AnswersFor(INITIAL, run, key, p);
            var to := from + c.window as real;
            SlidingWindow.CountIn(Times(log), from, to) <= c.limit * |Deciders(log, from, to)|
  {
    hide RunEnabled, AnswersFor, LookupsUnder, InLockOrder, SlidingWindow.CountIn, TimesOf, Times;
    var log := AnswersFor(INITIAL, run, key, p);
    var to := from + c.window as real;
    forall i | i in Deciders(log, from, to) ensures UsedBy(log, i, from, to) <= c.limit {
      LimiterBound(run, key, c, p, i, from);
      UsedCounts(log, i, from, to);
    }
    UsedCounts(log, 0, from, to);
    UsedByLimiters(log, Deciders(log, from, to), from, to, c.limit);
  }

  // ----- How many limiters can decide in a window

  /** Which of the conditions below a run is excused from, if any: that decisions are taken by the
      limiter the table holds, or that the clock a lookup read before taking the lock is in order. */
  datatype Excuse = NoExcuse | AnyLimiter | LateLookups

  /** The step does not pop the key's entry. */
  predicate NotPopped(s: State, st: Step, key: string, p: Settings)
    requires Valid(s) && Enabled(s, st)
  {
    st.Lookup? && (st.key == key || Find(s.table, key).Some?) ==> Find(Next(s, st, p).table, key).Some?
  }

  /** The step's clock readings for the key are no earlier than those before it. */
  predicate InOrder(s: State, st: Step, key: string, now: real, x: Excuse)
    requires Enabled(s, st)
  {
    match st
    case Lookup(_, k, _, t, _) => k == key ==> x.LateLookups? || now <= t
    case Decide(th, _, t1, t2) => s.inFlight[th].key == key ==> now <= t1 <= t2
  }

  function ClockAfter(s: State, st: Step, key: string, now: real, x: Excuse): real
    requires Enabled(s, st)
  {
    match st
    case Lookup(_, k, _, t, _) => if k == key && !x.LateLookups? then t else now
    case Decide(th, _, _, t2) => if s.inFlight[th].key == key then t2 else now
  }

  /** A decision for the key is taken by the limiter the table still holds. */
  predicate UsesCurrent(s: State, st: Step, key: string)
    requires Enabled(s, st)
  {
    st.Decide? && s.inFlight[st.thread].key == key ==>
      Find(s.table, key).Some? && Find(s.table, key).value.limiter == s.inFlight[st.thread]
  }

  /** All three hold at every step of a run, up to what it is excused from. */
  predicate Settled(s: State, run: seq<Step>, key: string, now: real, p: Settings, x: Excuse)
    requires Valid(s) && RunEnabled(s, run, p)
    decreases |run|
  {
    run == []
    || (NextValid(s, run[0], p);
        && NotPopped(s, run[0], key, p) && InOrder(s, run[0], key, now, x) && (x.AnyLimiter? || UsesCurrent(s, run[0], key))
        && Settled(Next(s, run[0], p), run[1..], key, ClockAfter(s, run[0], key, now, x), p, x))
  }

  /** With `born` the times the key's limiters were made at: each is at least the time to live after the
      one before, the table holds the last one, and each limiter's decisions lie between its own
      time and the next one's. */
  ghost predicate Succession(s: State, key: string, log: seq<Decision>, born: seq<real>, now: real, ttl: real) {
    && |born| == |Made(s, key)|
    && (forall i :: 0 <= i < |born| - 1 ==> born[i] + ttl <= born[i + 1])
    && (born != [] ==> born[|born| - 1] <= now)
    && Find(s.table, key) == (if born == [] then None else Some(Entry(key, Id(key, |born| - 1), born[|born| - 1])))
    && (forall j :: 0 <= j < |log| ==> InLife(log[j], born, now))
    && InLockOrder(log)
  }

  predicate InLife(d: Decision, born: seq<real>, now: real) {
    && d.index < |born| && born[d.index] <= d.t2 <= now
    && (d.index + 1 < |born| ==> d.t2 <= born[d.index + 1])
  }

  lemma {:induction false} LaterInLife(log: seq<Decision>, born: seq<real>, now: real, t: real)
    requires now <= t && forall j :: 0 <= j < |log| ==> InLife(log[j], born, now)
    ensures forall j :: 0 <= j < |log| ==> InLife(log[j], born, t)
    ensures forall j :: 0 <= j < |log| ==> InLife(log[j], born + [t], t)
  {
  }

  lemma {:induction false} LookupSucceeds(s: State, st: Step, key: string, log: seq<Decision>, born: seq<real>, now: real, p: Settings)
    returns (born': seq<real>)
    requires Valid(s) && Enabled(s, st) && st.Lookup? && Succession(s, key, log, born, now, p.keyTtl)
    requires NotPopped(s, st, key, p) && InOrder(s, st, key, now, NoExcuse)
    ensures Succession(Next(s, st, p), key, log, born', ClockAfter(s, st, key, now, NoExcuse), p.keyTtl)
  {
    hide Touch, InLockOrder, Create, Retune, Next, InLife, Valid, Names, Unique;
    LaterInLife(log, born, now, ClockAfter(s, st, key, now, NoExcuse));
    AfterLookup(s, st, p);
    LookupMakes(s, st, key, p);
    var made := Id(st.key, |Made(s, st.key)|);
    if st.key != key {
      TouchOther(s.table, st.key, key, made, st.now, p.keyTtl, p.maxKeys);
      born' := born;
    } else {
      TouchSelf(s.table, key, made, st.now, p.keyTtl, p.maxKeys);
      born' := if Hit(s.table, key, st.now, p.keyTtl) then born else born + [st.now];
    }
  }

  lemma {:induction false} DecideSucceeds(s: State, st: Step, key: string, log: seq<Decision>, born: seq<real>, now: real, p: Settings)
    requires Valid(s) && Enabled(s, st) && st.Decide? && Succession(s, key, log, born, now, p.keyTtl)
    requires InOrder(s, st, key, now, NoExcuse) && UsesCurrent(s, st, key)
    ensures Succession(Next(s, st, p), key, log + LoggedBy(s, st, key), born, ClockAfter(s, st, key, now, NoExcuse), p.keyTtl)
  {
    hide InLife, InLockOrder, Next, Find, Answer;
    AfterDecide(s, st, key, p);
    if s.inFlight[st.thread].key == key {
      var d := Answer(s, st);
      AnswerIs(s, st);
      DecidedInLife(log, d, born, now);
    } else {
      assert log + [] == log;
    }
  }

  lemma {:induction false} AfterDecide(s: State, st: Step, key: string, p: Settings)
    requires Valid(s) && Enabled(s, st) && st.Decide?
    ensures Next(s, st, p).table == s.table && |Made(Next(s, st, p), key)| == |Made(s, key)|
  {
    hide Serve;
  }

  lemma {:induction false} AnswerIs(s: State, st: Step)
    requires Valid(s) && Enabled(s, st) && st.Decide?
    ensures var d := Answer(s, st);
            d.index == s.inFlight[st.thread].index && d.t1 == st.t1 && d.t2 == st.t2
  {
  }

  lemma {:induction false} DecidedInLife(log: seq<Decision>, d: Decision, born: seq<real>, now: real)
    requires born != [] && d.index == |born| - 1 && born[|born| - 1] <= now <= d.t1 <= d.t2
    requires InLockOrder(log) && forall j :: 0 <= j < |log| ==> InLife(log[j], born, now)
    ensures InLockOrder(log + [d]) && forall j :: 0 <= j < |log + [d]| ==> InLife((log + [d])[j], born, d.t2)
  {
  }

  lemma {:induction false} RunSucceeds(s: State, run: seq<Step>, key: string, log: seq<Decision>, born: seq<real>, now: real, p: Settings)
    returns (end: real, born': seq<real>)
    requires Valid(s) && RunEnabled(s, run, p) && Settled(s, run, key, now, p, NoExcuse) && Succession(s, key, log, born, now, p.keyTtl)
    ensures Succession(After(s, run, p), key, log + AnswersFor(s, run, key, p), born', end, p.keyTtl)
    decreases |run|
  {
    hide Next, Succession, LoggedBy, NotPopped, InOrder, UsesCurrent, ClockAfter;
    if run == [] {
      assert log + [] == log;
      end, born' := now, born;
    } else {
      var st := run[0];
      NextValid(s, st, p);
      var next, one := Next(s, st, p), LoggedBy(s, st, key);
      var middle := born;
      if st.Lookup? {
        NothingLogged(s, st, key);
        assert log + [] == log;
        middle := LookupSucceeds(s, st, key, log, born, now, p);
      } else {
        DecideSucceeds(s, st, key, log, born, now, p);
      }
      end, born' := RunSucceeds(next, run[1..], key, log + one, middle, ClockAfter(s, st, key, now, NoExcuse), p);
      assert (log + one) + AnswersFor(next, run[1..], key, p) == log + (one + AnswersFor(next, run[1..], key, p));
    }
  }

  lemma {:induction false} NothingLogged(s: State, st: Step, key: string)
    requires Valid(s) && Enabled(s, st) && st.Lookup?
    ensures LoggedBy(s, st, key) == []
  {
  }

  lemma {:induction false} BornApart(born: seq<real>, ttl: real, i: nat, j: nat)
    requires forall k :: 0 <= k < |born| - 1 ==> born[k] + ttl <= born[k + 1]
    requires i <= j < |born|
    ensures born[i] + (j - i) as real * ttl <= born[j]
    decreases j
  {
    if i < j {
      BornApart(born, ttl, i, j - 1);
      assert born[j - 1] + ttl <= born[j - 1 + 1];
      OnceMore(j - 1 - i, ttl);
      assert (j - 1 - i) + 1 == j - i;
    }
  }

  lemma {:induction false} OnceMore(k: nat, x: real)
    ensures (k + 1) as real * x == k as real * x + x
  {
  }

  /** Limiters that decide within one window of at most m times to live are at most m apart in the
      succession. */
  lemma {:induction false} NotFarApart(a: Decision, b: Decision, born: seq<real>, now: real, ttl: real, window: real, m: nat)
    requires ttl > 0.0 && window <= m as real * ttl && forall k :: 0 <= k < |born| - 1 ==> born[k] + ttl <= born[k + 1]
    requires InLife(a, born, now) && InLife(b, born, now) && a.index < b.index && b.t2 < a.t2 + window
    ensures b.index - a.index <= m
  {
    BornApart(born, ttl, a.index + 1, b.index);
    FewerTimes(b.index - (a.index + 1), m, ttl, window);
  }

  lemma {:induction false} FewerTimes(n: nat, m: nat, x: real, most: real)
    requires x > 0.0 && n as real * x < most <= m as real * x
    ensures n < m
  {
    if n >= m {
      MulMonotone(m as real, n as real, x);
    }
  }

  /** Numbers in a stretch of n are at most n. */
  lemma {:induction false} InStretch(ids: set<nat>, low: nat, n: nat)
    requires forall i :: i in ids ==> low <= i < low + n
    ensures |ids| <= n
    decreases n
  {
    if n == 0 {
      assert ids == {};
    } else {
      var last := low + n - 1;
      InStretch(ids - {last}, low, n - 1);
      if last in ids {
        assert |ids - {last}| == |ids| - 1;
      } else {
        assert ids - {last} == ids;
      }
    }
  }

  lemma {:induction false} LowestOf(ids: set<nat>) returns (low: nat)
    requires ids != {}
    ensures low in ids && forall i :: i in ids ==> low <= i
    decreases |ids|
  {
    var one :| one in ids;
    var rest := ids - {one};
    low := one;
    if rest == {} {
      assert ids == {one};
    } else {
      assert |rest| == |ids| - 1;
      var other := LowestOf(rest);
      low := MinInt(one, other);
      assert forall i :: i in ids ==> i == one || i in rest;
    }
  }

  lemma {:induction false} FewDeciders(log: seq<Decision>, born: seq<real>, now: real, ttl: real, window: real, from: real, m: nat)
    requires ttl > 0.0 && window <= m as real * ttl && forall k :: 0 <= k < |born| - 1 ==> born[k] + ttl <= born[k + 1]
    requires forall j :: 0 <= j < |log| ==> InLife(log[j], born, now)
    ensures |Deciders(log, from, from + window)| <= m + 1
  {
    hide InLife;
    var ids := Deciders(log, from, from + window);
    if ids != {} {
      var low := LowestOf(ids);
      var a :| a in log && from <= a.t2 < from + window && a.index == low;
      forall i | i in ids ensures low <= i < low + (m + 1) {
        var b :| b in log && from <= b.t2 < from + window && b.index == i;
        if low < i {
          NotFarApart(a, b, born, now, ttl, window, m);
        }
      }
      InStretch(ids, low, m + 1);
    }
  }

  /** A key that is never popped, whose clocks are in order and whose decisions are each taken by the
      limiter the table holds, gets at most m + 1 times the largest limit in force in any half-open
      interval one window long, in every interleaved run over many keys, if the window is no longer
      than m times to live: a rebuilt limiter forgets, at most m times within a window. */
  lemma {:induction false} LimitPerLifetime(run: seq<Step>, key: string, c: Config, p: Settings, start: real, from: real, m: nat)
    requires RunEnabled(INITIAL, run, p) && p.algorithm == SlidingWindows
    requires Sensible(c) && LookupsUnder(run, key, c) && p.keyTtl > 0.0 && c.window as real <= m as real * p.keyTtl
    requires Settled(INITIAL, run, key, start, p, NoExcuse)
    ensures SlidingWindow.CountIn(Times(AnswersFor(INITIAL, run, key, p)), from, from + c.window as real) <= (m + 1) * c.limit
  {
    hide RunEnabled, AnswersFor, LookupsUnder, Settled, SlidingWindow.CountIn, Times, Deciders, InLockOrder, InLife, After, Valid, Made;
    StartOfSuccession(key, start, p.keyTtl);
    var log := AnswersFor(INITIAL, run, key, p);
    var to := from + c.window as real;
    var end, born := RunSucceeds(INITIAL, run, key, [], [], start, p);
    assert [] + log == log;
    SuccessionInLockOrder(After(INITIAL, run, p), key, log, born, end, p.keyTtl);
    FewDeciders(log, born, end, p.keyTtl, c.window as real, from, m);
    BoundByDeciders(run, key, c, p, from);
    AtMostTimes(c.limit, |Deciders(log, from, to)|, m + 1);
  }

  /** With a window no longer than the time to live: at most twice the limit. */
  lemma {:induction false} AtMostTwiceTheLimit(run: seq<Step>, key: string, c: Config, p: Settings, start: real, from: real)
    requires RunEnabled(INITIAL, run, p) && p.algorithm == SlidingWindows
    requires Sensible(c) && LookupsUnder(run, key, c) && c.window as real <= p.keyTtl
    requires Settled(INITIAL, run, key, start, p, NoExcuse)
    ensures SlidingWindow.CountIn(Times(AnswersFor(INITIAL, run, key, p)), from, from + c.window as real) <= 2 * c.limit
  {
    hide RunEnabled, AnswersFor, LookupsUnder, Settled, SlidingWindow.CountIn, Times;
    LimitPerLifetime(run, key, c, p, start, from, 1);
    assert (1 + 1) * c.limit == 2 * c.limit;
  }

  lemma {:induction false} StartOfSuccession(key: string, start: real, ttl: real)
    ensures Valid(INITIAL) && Succession(INITIAL, key, [], [], start, ttl)
  {
  }

  lemma {:induction false} SuccessionInLockOrder(s: State, key: string, log: seq<Decision>, born: seq<real>, now: real, ttl: real)
    requires Succession(s, key, log, born, now, ttl)
    ensures InLockOrder(log)
    ensures forall k :: 0 <= k < |born| - 1 ==> born[k] + ttl <= born[k + 1]
    ensures forall j :: 0 <= j < |log| ==> InLife(log[j], born, now)
  {
  }

  lemma {:induction false} AtMostTimes(limit: nat, n: nat, most: nat)
    requires n <= most
    ensures limit * n <= most * limit
  {
  }

  // ----- Raising the limit of a full limiter

  lemma {:induction false} FirstCall(d: Decision, log: seq<Decision>, i: nat)
    requires d.before.Sliding? && AllSliding(log)
    ensures AllSliding([d] + log)
    ensures CallsOf([d] + log, i) == (if d.index == i then [CallOf(d)] else []) + CallsOf(log, i)
    decreases |log|
  {
    hide CallOf;
    if log == [] {
      assert [d] + log == [d] && [d][..0] == [];
    } else {
      var n := |log| - 1;
      assert ([d] + log)[..n + 1] == [d] + log[..n];
      FirstCall(d, log[..n], i);
    }
  }

  lemma {:induction false} FirstTime(d: Decision, log: seq<Decision>, i: nat)
    ensures TimesOf([d] + log, i) == (if d.index == i && d.allowed then [d.t2] else []) + TimesOf(log, i)
    decreases |log|
  {
    if log == [] {
      assert [d] + log == [d] && [d][..0] == [];
    } else {
      var n, all := |log| - 1, [d] + log;
      assert all[..n + 1] == [d] + log[..n] && all[n + 1] == log[n];
      FirstTime(d, log[..n], i);
      var one, last := if d.index == i && d.allowed then [d.t2] else [], if log[n].index == i && log[n].allowed then [log[n].t2] else [];
      assert TimesOf(all, i) == TimesOf(all[..n + 1], i) + last;
      assert (one + TimesOf(log[..n], i)) + last == one + (TimesOf(log[..n], i) + last);
    }
  }

  /** From any state a run can be in, what one limiter admits in the rest of the run is what its queue
      admits of the calls it serves. */
  lemma {:induction false} LimiterAdmits(s: State, run: seq<Step>, key: string, i: nat, p: Settings)
    requires Valid(s) && RunEnabled(s, run, p) && p.algorithm == SlidingWindows && i < |Made(s, key)|
    requires forall k :: 0 <= k < |Made(s, key)| ==> Made(s, key)[k].Sliding?
    ensures var log := AnswersFor(s, run, key, p);
            && AllSliding(log)
            && |TimesOf(log, i)| == SlidingWindow.Admissions(Made(s, key)[i].requests, CallsOf(log, i))
    decreases |run|
  {
    hide Next, SlidingWindow.Next, SlidingWindow.Admits, LoggedBy;
    if run != [] {
      var st := run[0];
      NextValid(s, st, p);
      var next, rest := Next(s, st, p), AnswersFor(Next(s, st, p), run[1..], key, p);
      LimiterAfter(s, st, key, i, p);
      LimiterAdmits(next, run[1..], key, i, p);
      var one := LoggedBy(s, st, key);
      if one == [] {
        assert one + rest == rest;
      } else {
        assert one == [one[0]];
        FirstCall(one[0], rest, i);
        FirstTime(one[0], rest, i);
        var calls := CallsOf(rest, i);
        assert [] + calls == calls && ([CallOf(one[0])] + calls)[1..] == calls;
      }
    }
  }

  /** One step moves the limiter's queue by the decision it logs for it, if any. */
  lemma {:induction false} LimiterAfter(s: State, st: Step, key: string, i: nat, p: Settings)
    requires Valid(s) && Enabled(s, st) && p.algorithm == SlidingWindows && i < |Made(s, key)|
    requires forall k :: 0 <= k < |Made(s, key)| ==> Made(s, key)[k].Sliding?
    ensures var after, one := Made(Next(s, st, p), key), LoggedBy(s, st, key);
            && i < |after| && (forall k :: 0 <= k < |after| ==> after[k].Sliding?)
            && |one| <= 1 && AllSliding(one)
            && if one != [] && one[0].index == i then
                 && after[i].requests == SlidingWindow.Next(Made(s, key)[i].requests, CallOf(one[0]))
                 && one[0].allowed == SlidingWindow.Admits(Made(s, key)[i].requests, CallOf(one[0]))
               else after[i].requests == Made(s, key)[i].requests
  {
    hide SlidingWindow.Next, SlidingWindow.Admits, Touch;
    if st.Lookup? {
      LookupMakes(s, st, key, p);
    }
  }

  /** The log's decisions by the i-th limiter are all under the limit, and none finds `oldest` expired. */
  predicate UnderLimit(log: seq<Decision>, i: nat, limit: int, oldest: real) {
    && AllSliding(log)
    && (forall j :: 0 <= j < |log| && log[j].index == i ==> log[j].before.limit == limit)
    && SlidingWindow.StillLive(oldest, CallsOf(log, i))
  }

  /** A re-tuned limiter in the facade: from every state with sliding windows, so from whatever any
      interleaved run and any changes of limits have left, while the oldest entry of a limiter lives the
      limiter admits exactly what the limit now in force leaves above the entries it holds: raising a
      full one from a to b admits b - a. */
  lemma {:induction false} RaisingAdmitsDifference(s: State, run: seq<Step>, key: string, i: nat, limit: int, p: Settings)
    requires Valid(s) && RunEnabled(s, run, p) && p.algorithm == SlidingWindows
    requires forall k :: 0 <= k < |Made(s, key)| ==> Made(s, key)[k].Sliding?
    requires i < |Made(s, key)| && Made(s, key)[i].requests != []
    requires UnderLimit(AnswersFor(s, run, key, p), i, limit, Made(s, key)[i].requests[0])
    ensures var log := AnswersFor(s, run, key, p);
            |TimesOf(log, i)| == MinInt(SlidingWindow.Requests(CallsOf(log, i)), MaxInt(0, limit - |Made(s, key)[i].requests|))
  {
    hide RunEnabled, AnswersFor, SlidingWindow.Admissions, SlidingWindow.Requests, CallsOf, TimesOf;
    var log := AnswersFor(s, run, key, p);
    LimiterAdmits(s, run, key, i, p);
    CallsLimited(log, i, limit);
    SlidingWindow.RaisingAdmitsDifference(Made(s, key)[i].requests, CallsOf(log, i), limit);
  }

  lemma {:induction false} CallsLimited(log: seq<Decision>, i: nat, limit: int)
    requires AllSliding(log) && forall j :: 0 <= j < |log| && log[j].index == i ==> log[j].before.limit == limit
    ensures forall k :: 0 <= k < |CallsOf(log, i)| ==> CallsOf(log, i)[k].limit == limit
    decreases |log|
  {
    if log != [] {
      CallsLimited(log[..|log| - 1], i, limit);
    }
  }
}
