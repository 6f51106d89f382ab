/** Runs of the facade that reach the bounds of EndToEnd, and one that shows why decisions in flight
    have to be counted. */
module EndToEndReached {
  import opened Prelude
  import opened LruTable
  import opened Limiters
  import opened FacadeRuns
  import opened EndToEnd
  import SlidingWindow

  const KEY := "k"

  predicate Roomy(p: Settings) {
    p.algorithm == SlidingWindows && p.maxKeys >= 1 && p.keyTtl > 0.0
  }

  // ----- One thread that makes one call after the other

  function Queue(c: Config, ts: seq<real>): Limiter {
    Sliding(c.limit, c.window as real, ts)
  }

  /** Nothing in flight, and one entry, for the last of the limiters made. */
  function Lone(created: real, past: seq<Limiter>, l: Limiter): State {
    State([Entry(KEY, Id(KEY, |past|), created)], map[KEY := past + [l]], map[])
  }

  function FirstHalf(c: Config, t: real): Step {
    Step.Lookup(0, KEY, c, t, t)
  }

  function SecondHalf(op: Op, t: real): Step {
    Decide(0, op, t, t)
  }

  /** A call that reads the facade's clock at t and decides at u. */
  function Call(op: Op, c: Config, t: real, u: real): seq<Step> {
    [FirstHalf(c, t), SecondHalf(op, u)]
  }

  function CallAt(op: Op, c: Config, t: real): seq<Step> {
    Call(op, c, t, t)
  }

  function AsCall(op: Op, c: Config, t: real): SlidingWindow.Call {
    SlidingWindow.Call(op, c.limit, c.window as real, t, t)
  }

  /** A whole call leads from s to s' with decision d, without popping the key, by the limiter in the
      table. */
  ghost predicate Serves(s: State, op: Op, c: Config, t: real, u: real, p: Settings, s': State, d: Decision) {
    && Valid(s) && Enabled(s, FirstHalf(c, t))
    && var found := Next(s, FirstHalf(c, t), p);
       && Valid(found) && Enabled(found, SecondHalf(op, u)) && found.inFlight[0].key == KEY
       && Next(found, SecondHalf(op, u), p) == s' && Valid(s')
       && Answer(found, SecondHalf(op, u)) == d
       && NotPopped(s, FirstHalf(c, t), KEY, p) && NotPopped(found, SecondHalf(op, u), KEY, p) && UsesCurrent(found, SecondHalf(op, u), KEY)
  }

  /** The first half of a call has found the last limiter made. */
  function Holding(created: real, past: seq<Limiter>, l: Limiter): State {
    Lone(created, past, l).(inFlight := map[0 := Id(KEY, |past|)])
  }

  lemma {:induction false} Halfway(created: real, past: seq<Limiter>, c: Config, ts: seq<real>, op: Op, t: real, p: Settings)
    ensures var found := Holding(created, past, Queue(c, ts));
            var st := SecondHalf(op, t);
            && Valid(found) && Enabled(found, st) && Valid(Next(found, st, p))
            && Next(found, st, p) == Lone(created, past, Queue(c, SlidingWindow.Next(ts, AsCall(op, c, t))))
            && Answer(found, st) == Decided(|past|, Queue(c, ts), op, t, t)
            && NotPopped(found, st, KEY, p) && UsesCurrent(found, st, KEY)
  {
    hide SlidingWindow.Next, SlidingWindow.Admits;
    var found := Holding(created, past, Queue(c, ts));
    assert Names(found.table) == [KEY];
    NextValid(found, SecondHalf(op, t), p);
    var next := Next(found, SecondHalf(op, t), p);
    assert next.inFlight == map[];
    assert next.made[KEY] == past + [Queue(c, SlidingWindow.Next(ts, AsCall(op, c, t)))];
  }

  lemma {:induction false} ServedByCurrent(created: real, past: seq<Limiter>, c: Config, ts: seq<real>, op: Op, t: real, p: Settings)
    requires Roomy(p) && Sensible(c) && t - created < p.keyTtl
    ensures Serves(Lone(created, past, Queue(c, ts)), op, c, t, t, p,
                   Lone(created, past, Queue(c, SlidingWindow.Next(ts, AsCall(op, c, t)))),
                   Decided(|past|, Queue(c, ts), op, t, t))
  {
    hide SlidingWindow.Next, Answer, Decided;
    var s := Lone(created, past, Queue(c, ts));
    var e := s.table[0];
    assert Names(s.table) == [KEY];
    assert Without(s.table, KEY) == [] && [] + [e] == [e];
    assert Touch(s.table, KEY, Id(KEY, |past| + 1), t, p.keyTtl, p.maxKeys) == [e];
    var found := Next(s, FirstHalf(c, t), p);
    assert found.made[KEY] == past + [Queue(c, ts)];
    assert found == Holding(created, past, Queue(c, ts));
    Halfway(created, past, c, ts, op, t, p);
  }

  lemma {:induction false} ServedByNew(s: State, created: real, made: seq<Limiter>, c: Config, op: Op, t: real, u: real, p: Settings)
    requires Roomy(p) && Sensible(c) && s.inFlight == map[]
    requires if made == [] then s == INITIAL
             else s == Lone(created, made[..|made| - 1], made[|made| - 1]) && t - created >= p.keyTtl
    ensures Serves(s, op, c, t, u, p, Lone(t, made, Queue(c, SlidingWindow.Next([], AsCall(op, c, u)))),
                   Decided(|made|, Queue(c, []), op, u, u))
  {
    hide SlidingWindow.Next, Answer, Decided;
    FoundNew(s, created, made, c, t, p);
    Halfway(t, made, c, [], op, u, p);
  }

  lemma {:induction false} FoundNew(s: State, created: real, made: seq<Limiter>, c: Config, t: real, p: Settings)
    requires Roomy(p) && Sensible(c) && s.inFlight == map[]
    requires if made == [] then s == INITIAL
             else s == Lone(created, made[..|made| - 1], made[|made| - 1]) && t - created >= p.keyTtl
    ensures var st := FirstHalf(c, t);
            Valid(s) && Enabled(s, st) && Next(s, st, p) == Holding(t, made, Queue(c, []))
  {
    var e := Entry(KEY, Id(KEY, |made|), t);
    if made != [] {
      assert made == made[..|made| - 1] + [made[|made| - 1]];
      assert Names(s.table) == [KEY];
    }
    assert Made(s, KEY) == made;
    assert Without(s.table, KEY) == [] && [] + [e] == [e];
    assert Touch(s.table, KEY, Id(KEY, |made|), t, p.keyTtl, p.maxKeys) == [e];
    var found := Next(s, FirstHalf(c, t), p);
    assert found.made == map[KEY := made + [Queue(c, [])]];
  }

  lemma {:induction false} StepThen(s: State, st: Step, rest: seq<Step>, now: real, p: Settings)
    requires Valid(s) && Enabled(s, st) && Valid(Next(s, st, p)) && RunEnabled(Next(s, st, p), rest, p)
    ensures RunEnabled(s, [st] + rest, p)
    ensures AnswersFor(s, [st] + rest, KEY, p) == LoggedBy(s, st, KEY) + AnswersFor(Next(s, st, p), rest, KEY, p)
    ensures forall x: Excuse :: NotPopped(s, st, KEY, p) && InOrder(s, st, KEY, now, x) && (x.AnyLimiter? || UsesCurrent(s, st, KEY))
              && Settled(Next(s, st, p), rest, KEY, ClockAfter(s, st, KEY, now, x), p, x)
              ==> Settled(s, [st] + rest, KEY, now, p, x)
  {
    hide Next, LoggedBy, NotPopped, UsesCurrent, InOrder, ClockAfter, Valid;
    var run := [st] + rest;
    assert run[0] == st && run[1..] == rest;
  }

  lemma {:induction false} CallThen(s: State, op: Op, c: Config, t: real, u: real, p: Settings, s': State, d: Decision,
                                    rest: seq<Step>, now: real, x: Excuse)
    requires Serves(s, op, c, t, u, p, s', d) && RunEnabled(s', rest, p) && Settled(s', rest, KEY, u, p, x)
    requires if x.LateLookups? then now <= u else now <= t <= u
    ensures Valid(s) && RunEnabled(s, Call(op, c, t, u) + rest, p)
    ensures Settled(s, Call(op, c, t, u) + rest, KEY, now, p, x)
    ensures AnswersFor(s, Call(op, c, t, u) + rest, KEY, p) == [d] + AnswersFor(s', rest, KEY, p)
  {
    hide Next, Answer, Valid, NotPopped, RunEnabled, AnswersFor, Settled;
    var found := Next(s, FirstHalf(c, t), p);
    StepThen(found, SecondHalf(op, u), rest, if x.LateLookups? then now else t, p);
    StepThen(s, FirstHalf(c, t), [SecondHalf(op, u)] + rest, now, p);
    assert Call(op, c, t, u) + rest == [FirstHalf(c, t)] + ([SecondHalf(op, u)] + rest);
    var log := AnswersFor(found, [SecondHalf(op, u)] + rest, KEY, p);
    assert [] + log == log;
  }

  // ----- A limit for every lifetime is reached

  function CallsAt(n: nat, c: Config, t: real): seq<Step>
    decreases n
  {
    if n == 0 then [] else CallAt(Allow, c, t) + CallsAt(n - 1, c, t)
  }

  function Copies(n: nat, t: real): (ts: seq<real>)
    ensures |ts| == n && forall i :: 0 <= i < n ==> ts[i] == t
  {
    seq(n, i => t)
  }

  lemma {:induction false} TimesOfFirst(d: Decision, log: seq<Decision>)
    ensures Times([d] + log) == (if d.allowed then [d.t2] else []) + Times(log)
    decreases |log|
  {
    if log == [] {
      assert [d] + log == [d] && [d][..0] == [];
    } else {
      var n := |log| - 1;
      assert ([d] + log)[..n + 1] == [d] + log[..n];
      TimesOfFirst(d, log[..n]);
    }
  }

  lemma {:induction false} RoomForOne(ts: seq<real>, c: Config, t: real, i: nat)
    requires (ts != [] ==> ts[0] > t - c.window as real) && |ts| < c.limit
    ensures SlidingWindow.Next(ts, AsCall(Allow, c, t)) == ts + [t]
    ensures var d := Decided(i, Queue(c, ts), Allow, t, t);
            d.allowed && d.t2 == t
  {
  }

  /** n calls at once on a limiter with room for them: all admitted. */
  lemma {:induction false} RoomForAll(created: real, past: seq<Limiter>, c: Config, ts: seq<real>, n: nat, t: real, p: Settings,
                                      rest: seq<Step>, now: real)
    requires Roomy(p) && Sensible(c) && t - created < p.keyTtl && now <= t
    requires (ts != [] ==> ts[0] > t - c.window as real) && |ts| + n <= c.limit
    requires var full := Lone(created, past, Queue(c, ts + Copies(n, t)));
             Valid(full) && RunEnabled(full, rest, p) && Settled(full, rest, KEY, t, p, NoExcuse)
    ensures var s, full := Lone(created, past, Queue(c, ts)), Lone(created, past, Queue(c, ts + Copies(n, t)));
            && Valid(s) && RunEnabled(s, CallsAt(n, c, t) + rest, p) && Settled(s, CallsAt(n, c, t) + rest, KEY, now, p, NoExcuse)
            && Times(AnswersFor(s, CallsAt(n, c, t) + rest, KEY, p)) == Copies(n, t) + Times(AnswersFor(full, rest, KEY, p))
    decreases n
  {
    hide RunEnabled, AnswersFor, Settled, Serves, Valid, Times, Decided, SlidingWindow.Next;
    if n == 0 {
      assert ts + Copies(0, t) == ts && [] + rest == rest;
      SettledEarlier(Lone(created, past, Queue(c, ts)), rest, now, t, p, NoExcuse);
    } else {
      var more := ts + [t];
      assert more + Copies(n - 1, t) == ts + Copies(n, t);
      RoomForOne(ts, c, t, |past|);
      RoomForAll(created, past, c, more, n - 1, t, p, rest, t);
      ServedByCurrent(created, past, c, ts, Allow, t, p);
      var d := Decided(|past|, Queue(c, ts), Allow, t, t);
      var s, s' := Lone(created, past, Queue(c, ts)), Lone(created, past, Queue(c, more));
      assert CallsAt(n, c, t) + rest == CallAt(Allow, c, t) + (CallsAt(n - 1, c, t) + rest);
      CallThen(s, Allow, c, t, t, p, s', d, CallsAt(n - 1, c, t) + rest, now, NoExcuse);
      TimesOfFirst(d, AnswersFor(s', CallsAt(n - 1, c, t) + rest, KEY, p));
      assert [t] + Copies(n - 1, t) == Copies(n, t);
    }
  }

  /** A later clock only narrows what may follow. */
  lemma {:induction false} SettledEarlier(s: State, run: seq<Step>, now: real, later: real, p: Settings, x: Excuse)
    requires Valid(s) && RunEnabled(s, run, p) && now <= later && Settled(s, run, KEY, later, p, x)
    ensures Settled(s, run, KEY, now, p, x)
    decreases |run|
  {
    hide NotPopped, UsesCurrent, Next;
    if run != [] {
      NextValid(s, run[0], p);
      SettledEarlier(Next(s, run[0], p), run[1..], ClockAfter(s, run[0], KEY, now, x), ClockAfter(s, run[0], KEY, later, x), p, x);
    }
  }

  lemma {:induction false} AllCounted(ts: seq<real>, from: real, to: real)
    requires forall i :: 0 <= i < |ts| ==> from <= ts[i] < to
    ensures SlidingWindow.CountIn(ts, from, to) == |ts|
    decreases |ts|
  {
    if ts != [] {
      AllCounted(ts[..|ts| - 1], from, to);
    }
  }

  /** k bursts of `limit` requests, one time to live apart, the first at t. */
  function Bursts(k: nat, c: Config, t: real, ttl: real): seq<Step>
    requires Sensible(c)
    decreases k
  {
    if k == 0 then [] else CallAt(Allow, c, t) + (CallsAt(c.limit - 1, c, t) + Bursts(k - 1, c, t + ttl, ttl))
  }

  function BurstTimes(k: nat, limit: nat, t: real, ttl: real): seq<real>
    decreases k
  {
    if k == 0 then [] else Copies(limit, t) + BurstTimes(k - 1, limit, t + ttl, ttl)
  }

  lemma {:induction false} BurstTimesIn(k: nat, limit: nat, t: real, ttl: real, end: real)
    requires ttl > 0.0 && t + k as real * ttl <= end + ttl
    ensures |BurstTimes(k, limit, t, ttl)| == k * limit
    ensures forall i :: 0 <= i < |BurstTimes(k, limit, t, ttl)| ==> t <= BurstTimes(k, limit, t, ttl)[i] <= end
    decreases k
  {
    if k > 0 {
      OnceMore(k - 1, ttl);
      MulMonotone(0.0, (k - 1) as real, ttl);
      BurstTimesIn(k - 1, limit, t + ttl, ttl, end);
      assert (k - 1) * limit + limit == k * limit;
    }
  }

  /** Each burst finds the limiter of the one before at the end of its time to live, and a new one
      admits it whole. */
  lemma {:induction false} BurstsAdmitted(k: nat, created: real, past: seq<Limiter>, l: Limiter, c: Config, now: real, p: Settings)
    requires Roomy(p) && Sensible(c) && now <= created + p.keyTtl
    ensures var s, run := Lone(created, past, l), Bursts(k, c, created + p.keyTtl, p.keyTtl);
            && Valid(s) && RunEnabled(s, run, p) && Settled(s, run, KEY, now, p, NoExcuse)
            && Times(AnswersFor(s, run, KEY, p)) == BurstTimes(k, c.limit, created + p.keyTtl, p.keyTtl)
    decreases k
  {
    hide RunEnabled, AnswersFor, Settled, Serves, Times, Valid;
    var s := Lone(created, past, l);
    if k == 0 {
      FullIsQuiet(s, p);
    } else {
      var ttl, n, t := p.keyTtl, c.limit, created + p.keyTtl;
      var made := past + [l];
      assert made[..|made| - 1] == past;
      ServedByNew(s, created, made, c, Allow, t, t, p);
      assert SlidingWindow.Next([], AsCall(Allow, c, t)) == [t];
      var s' := Lone(t, made, Queue(c, [t]));
      var later := Bursts(k - 1, c, t + ttl, ttl);
      BurstsAdmitted(k - 1, t, made, Queue(c, [t] + Copies(n - 1, t)), c, t, p);
      RoomForAll(t, made, c, [t], n - 1, t, p, later, t);
      var rest := CallsAt(n - 1, c, t) + later;
      var d := Decided(|made|, Queue(c, []), Allow, t, t);
      CallThen(s, Allow, c, t, t, p, s', d, rest, now, NoExcuse);
      TimesOfFirst(d, AnswersFor(s', rest, KEY, p));
      assert d.allowed;
      OneAndRest(n, t, BurstTimes(k - 1, n, t + ttl, ttl));
    }
  }

  lemma {:induction false} OneAndRest(n: nat, t: real, later: seq<real>)
    requires n >= 1
    ensures [t] + (Copies(n - 1, t) + later) == Copies(n, t) + later
  {
  }

  /** A reading call at 0, `limit` requests just before the limiter is rebuilt, and `limit` at each of
      the next m rebuilds. */
  function EdgeRun(m: nat, c: Config, ttl: real, first: real): seq<Step>
    requires Sensible(c)
  {
    CallAt(Read, c, 0.0) + (CallsAt(c.limit, c, first) + Bursts(m, c, ttl, ttl))
  }

  /** When the first limiter is used: before it is rebuilt, by half of what m - 1 further times to live
      leave of the window. */
  function EdgeStart(window: real, ttl: real, m: nat): real {
    ttl - (window - (m - 1) as real * ttl) / 2.0
  }

  /** The bound is reached, for every limit, window and time to live: if the window is longer than m - 1
      times to live and no longer than m, a settled run admits (m + 1) * limit within less than a
      window. */
  lemma {:induction false} LimitPerLifetimeReached(c: Config, p: Settings, m: nat)
    requires Roomy(p) && Sensible(c) && m >= 1 && (m - 1) as real * p.keyTtl < c.window as real <= m as real * p.keyTtl
    ensures var first := EdgeStart(c.window as real, p.keyTtl, m);
            var run := EdgeRun(m, c, p.keyTtl, first);
            && RunEnabled(INITIAL, run, p) && LookupsUnder(run, KEY, c) && Settled(INITIAL, run, KEY, 0.0, p, NoExcuse)
            && SlidingWindow.CountIn(Times(AnswersFor(INITIAL, run, KEY, p)), first, first + c.window as real) == (m + 1) * c.limit
  {
    hide RunEnabled, AnswersFor, Settled, Serves, Valid, SlidingWindow.CountIn, Times, BurstTimes, EdgeRun, LookupsUnder, EdgeStart;
    var ttl, n := p.keyTtl, c.limit;
    var first := EdgeStart(c.window as real, ttl, m);
    EdgeFits(c.window as real, ttl, m);
    var times := EdgeTimes(c, p, m, first);
    BurstTimesIn(m, n, ttl, ttl, m as real * ttl);
    OneMoreLimit(m, n);
    EdgeLookups(m, c, ttl, first);
    AllCounted(times, first, first + c.window as real);
  }

  lemma {:induction false} EdgeFits(window: real, ttl: real, m: nat)
    requires ttl > 0.0 && m >= 1 && (m - 1) as real * ttl < window <= m as real * ttl
    ensures var first := EdgeStart(window, ttl, m);
            0.0 <= first < ttl <= m as real * ttl < first + window
  {
    OnceMore(m - 1, ttl);
    MulMonotone(1.0, m as real, ttl);
  }

  lemma {:induction false} OneMoreLimit(m: nat, limit: nat)
    ensures limit + m * limit == (m + 1) * limit
  {
  }

  lemma {:induction false} EdgeTimes(c: Config, p: Settings, m: nat, first: real) returns (times: seq<real>)
    requires Roomy(p) && Sensible(c) && 0.0 <= first < p.keyTtl
    ensures var run := EdgeRun(m, c, p.keyTtl, first);
            && Valid(INITIAL) && RunEnabled(INITIAL, run, p) && Settled(INITIAL, run, KEY, 0.0, p, NoExcuse)
            && times == Times(AnswersFor(INITIAL, run, KEY, p)) == Copies(c.limit, first) + BurstTimes(m, c.limit, p.keyTtl, p.keyTtl)
  {
    hide RunEnabled, AnswersFor, Settled, Serves, Valid, Times;
    var ttl, n := p.keyTtl, c.limit;
    var bursts := Bursts(m, c, ttl, ttl);
    var read := Decided(0, Queue(c, []), Read, 0.0, 0.0);
    ServedByNew(INITIAL, 0.0, [], c, Read, 0.0, 0.0, p);
    assert SlidingWindow.Next([], AsCall(Read, c, 0.0)) == [];
    var s1 := Lone(0.0, [], Queue(c, []));
    assert [] + Copies(n, first) == Copies(n, first);
    BurstsAdmitted(m, 0.0, [], Queue(c, Copies(n, first)), c, first, p);
    assert 0.0 + ttl == ttl;
    RoomForAll(0.0, [], c, [], n, first, p, bursts, 0.0);
    var rest := CallsAt(n, c, first) + bursts;
    CallThen(INITIAL, Read, c, 0.0, 0.0, p, s1, read, rest, 0.0, NoExcuse);
    TimesOfFirst(read, AnswersFor(s1, rest, KEY, p));
    assert !read.allowed;
    times := Times(AnswersFor(INITIAL, EdgeRun(m, c, ttl, first), KEY, p));
    var all := Copies(n, first) + BurstTimes(m, n, ttl, ttl);
    assert [] + all == all;
  }

  lemma {:induction false} EdgeLookups(m: nat, c: Config, ttl: real, first: real)
    requires Sensible(c)
    ensures LookupsUnder(EdgeRun(m, c, ttl, first), KEY, c)
  {
    LookupsOfCalls(c.limit, c, first);
    LookupsOfBursts(m, c, ttl, ttl);
  }

  lemma {:induction false} LookupsOfBoth(a: seq<Step>, b: seq<Step>, c: Config)
    requires LookupsUnder(a, KEY, c) && LookupsUnder(b, KEY, c)
    ensures LookupsUnder(a + b, KEY, c)
  {
  }

  lemma {:induction false} LookupsOfBursts(k: nat, c: Config, t: real, ttl: real)
    requires Sensible(c)
    ensures LookupsUnder(Bursts(k, c, t, ttl), KEY, c)
    decreases k
  {
    if k > 0 {
      var calls, later := CallsAt(c.limit - 1, c, t), Bursts(k - 1, c, t + ttl, ttl);
      LookupsOfCalls(c.limit - 1, c, t);
      LookupsOfBursts(k - 1, c, t + ttl, ttl);
      LookupsOfBoth(calls, later, c);
      LookupsOfBoth(CallAt(Allow, c, t), calls + later, c);
    }
  }

  lemma {:induction false} FullIsQuiet(s: State, p: Settings)
    requires exists created, past, l {:trigger Lone(created, past, l)} :: s == Lone(created, past, l)
    ensures Valid(s) && RunEnabled(s, [], p) && Times(AnswersFor(s, [], KEY, p)) == []
    ensures forall now: real :: Settled(s, [], KEY, now, p, NoExcuse)
  {
  }

  lemma {:induction false} LookupsOfCalls(n: nat, c: Config, t: real)
    ensures LookupsUnder(CallsAt(n, c, t), KEY, c)
    decreases n
  {
    if n > 0 {
      LookupsOfCalls(n - 1, c, t);
    }
  }

  // ----- Calls in flight

  const ONE_KEY := Settings(SlidingWindows, 1, 1.0)

  /** m threads have looked the key up, at 0, 1, ..., each too late for the limiter before. */
  function LookedUp(m: nat, c: Config): State {
    State(if m == 0 then [] else [Entry(KEY, Id(KEY, m - 1), (m - 1) as real)],
          if m == 0 then map[] else map[KEY := seq(m, i => Queue(c, []))],
          map th: nat | th < m :: Id(KEY, th))
  }

  /** n threads had, and the first j of them have decided at time n. */
  function Deciding(j: nat, n: nat, c: Config): State
    requires j <= n && n >= 1
  {
    State([Entry(KEY, Id(KEY, n - 1), (n - 1) as real)],
          map[KEY := seq(n, i => Queue(c, if i < j then [n as real] else []))],
          map th: nat | j <= th < n :: Id(KEY, th))
  }

  function LookUp(m: nat, c: Config): Step {
    Step.Lookup(m, KEY, c, m as real, m as real)
  }

  lemma {:induction false} NextLookedUp(m: nat, c: Config)
    requires Sensible(c)
    ensures Valid(LookedUp(m, c)) && Enabled(LookedUp(m, c), LookUp(m, c))
    ensures Next(LookedUp(m, c), LookUp(m, c), ONE_KEY) == LookedUp(m + 1, c)
    ensures NotPopped(LookedUp(m, c), LookUp(m, c), KEY, ONE_KEY)
  {
    var s, s' := LookedUp(m, c), LookedUp(m + 1, c);
    if m > 0 {
      assert Names(s.table) == [KEY];
      assert Without(s.table, KEY) == [];
      assert !Hit(s.table, KEY, m as real, 1.0);
    }
    var made := Made(s, KEY);
    assert made == seq(m, i => Queue(c, []));
    assert [] + s'.table == s'.table;
    var next := Next(s, LookUp(m, c), ONE_KEY);
    assert next.table == s'.table;
    assert next.made[KEY] == s'.made[KEY];
    assert next.inFlight == s'.inFlight;
  }

  lemma {:induction false} NextDeciding(j: nat, n: nat, c: Config)
    requires Sensible(c) && j < n
    ensures var s, st := Deciding(j, n, c), Decide(j, Allow, n as real, n as real);
            && Valid(s) && Enabled(s, st) && Next(s, st, ONE_KEY) == Deciding(j + 1, n, c)
            && LoggedBy(s, st, KEY) == [Decided(j, Queue(c, []), Allow, n as real, n as real)]
            && NotPopped(s, st, KEY, ONE_KEY) && InOrder(s, st, KEY, n as real, AnyLimiter) && ClockAfter(s, st, KEY, n as real, AnyLimiter) == n as real
  {
    var s, st, s' := Deciding(j, n, c), Decide(j, Allow, n as real, n as real), Deciding(j + 1, n, c);
    assert Names(s.table) == [KEY];
    assert SlidingWindow.Next([], AsCall(Allow, c, n as real)) == [n as real];
    assert s.made[KEY][j] == Queue(c, []) && s.inFlight[j] == Id(KEY, j);
    assert Serve(Queue(c, []), Allow, n as real, n as real).limiter == Queue(c, [n as real]);
    var next := Next(s, st, ONE_KEY);
    assert next.made[KEY] == s.made[KEY][j := Queue(c, [n as real])];
    assert next.made[KEY] == s'.made[KEY];
    assert next.inFlight == s'.inFlight;
  }

  function Decides(j: nat, n: nat): seq<Step>
    requires j <= n
    decreases n - j
  {
    if j == n then [] else [Decide(j, Allow, n as real, n as real)] + Decides(j + 1, n)
  }

  function LookUps(m: nat, n: nat, c: Config): seq<Step>
    requires m <= n
    decreases n - m
  {
    if m == n then [] else [LookUp(m, c)] + LookUps(m + 1, n, c)
  }

  /** One decision by each limiter from the j-th on. */
  function LogFrom(j: nat, n: nat, c: Config): (log: seq<Decision>)
    requires j <= n
    ensures |log| == n - j && forall i :: 0 <= i < |log| ==> log[i] == Decided(j + i, Queue(c, []), Allow, n as real, n as real)
    decreases n - j
  {
    if j == n then [] else [Decided(j, Queue(c, []), Allow, n as real, n as real)] + LogFrom(j + 1, n, c)
  }

  lemma {:induction false} DecidesRun(j: nat, n: nat, c: Config)
    requires Sensible(c) && j <= n && n >= 1
    ensures Valid(Deciding(j, n, c)) && RunEnabled(Deciding(j, n, c), Decides(j, n), ONE_KEY)
    ensures Settled(Deciding(j, n, c), Decides(j, n), KEY, n as real, ONE_KEY, AnyLimiter)
    ensures AnswersFor(Deciding(j, n, c), Decides(j, n), KEY, ONE_KEY) == LogFrom(j, n, c)
    decreases n - j
  {
    hide Next, LoggedBy, Decided, Deciding, Valid, Enabled, NotPopped, InOrder, ClockAfter;
    if j < n {
      NextDeciding(j, n, c);
      DecidesRun(j + 1, n, c);
      StepThen(Deciding(j, n, c), Decide(j, Allow, n as real, n as real), Decides(j + 1, n), n as real, ONE_KEY);
    } else {
      AllDecided(n, c);
    }
  }

  lemma {:induction false} AllDecided(n: nat, c: Config)
    requires n >= 1
    ensures Valid(Deciding(n, n, c))
  {
    assert Names(Deciding(n, n, c).table) == [KEY];
  }

  lemma {:induction false} LookUpsRun(m: nat, n: nat, c: Config)
    requires Sensible(c) && m <= n && n >= 1
    ensures Valid(LookedUp(m, c)) && Valid(LookedUp(n, c))
    ensures RunEnabled(LookedUp(n, c), Decides(0, n), ONE_KEY) && RunEnabled(LookedUp(m, c), LookUps(m, n, c) + Decides(0, n), ONE_KEY)
    ensures Settled(LookedUp(m, c), LookUps(m, n, c) + Decides(0, n), KEY, m as real, ONE_KEY, AnyLimiter)
    ensures AnswersFor(LookedUp(m, c), LookUps(m, n, c) + Decides(0, n), KEY, ONE_KEY)
         == AnswersFor(LookedUp(n, c), Decides(0, n), KEY, ONE_KEY)
    decreases n - m
  {
    hide Next, LookedUp, Deciding, RunEnabled, AnswersFor, Settled, NotPopped;
    if m == n {
      AllLookedUp(n, c);
      DecidesRun(0, n, c);
      assert LookUps(m, n, c) + Decides(0, n) == Decides(0, n);
    } else {
      NextLookedUp(m, c);
      LookUpsRun(m + 1, n, c);
      var rest := LookUps(m + 1, n, c) + Decides(0, n);
      SettledEarlier(LookedUp(m + 1, c), rest, m as real, (m + 1) as real, ONE_KEY, AnyLimiter);
      StepThen(LookedUp(m, c), LookUp(m, c), rest, m as real, ONE_KEY);
      assert LookUps(m, n, c) + Decides(0, n) == [LookUp(m, c)] + rest;
      var log := AnswersFor(LookedUp(m + 1, c), rest, KEY, ONE_KEY);
      assert [] + log == log;
    }
  }

  lemma {:induction false} AllLookedUp(n: nat, c: Config)
    requires n >= 1
    ensures LookedUp(n, c) == Deciding(0, n, c)
  {
    assert LookedUp(n, c).made[KEY] == Deciding(0, n, c).made[KEY];
    assert LookedUp(n, c).inFlight == Deciding(0, n, c).inFlight;
  }

  /** Why calls in flight have to be counted. For every n and every policy there is a run on one key, with
      all clocks in order and nothing popped, in which n threads look the key up each after the
      limiter before has reached the time to live, and then all decide at one instant: n requests are
      admitted, one by each of n limiters. */
  lemma {:induction false} InFlightExceeds(n: nat, c: Config)
    requires n >= 1 && Sensible(c)
    ensures var run := LookUps(0, n, c) + Decides(0, n);
            && RunEnabled(INITIAL, run, ONE_KEY) && LookupsUnder(run, KEY, c) && Settled(INITIAL, run, KEY, 0.0, ONE_KEY, AnyLimiter)
            && var log := AnswersFor(INITIAL, run, KEY, ONE_KEY);
               var from, to := n as real, n as real + c.window as real;
               && InLockOrder(log)
               && SlidingWindow.CountIn(Times(log), from, to) == n == |Deciders(log, from, to)|
  {
    hide RunEnabled, AnswersFor, Settled, SlidingWindow.CountIn, Times, Deciders;
    assert LookedUp(0, c) == INITIAL;
    var run := LookUps(0, n, c) + Decides(0, n);
    LookUpsRun(0, n, c);
    AllLookedUp(n, c);
    DecidesRun(0, n, c);
    LookUpsUnder(0, n, c);
    var log := LogFrom(0, n, c);
    assert AnswersFor(INITIAL, run, KEY, ONE_KEY) == log;
    AllAdmitted(log, n, c);
    AllCounted(Times(log), n as real, n as real + c.window as real);
    EachDecides(log, n, n as real + c.window as real);
  }

  lemma {:induction false} LookUpsUnder(m: nat, n: nat, c: Config)
    requires m <= n
    ensures LookupsUnder(LookUps(m, n, c), KEY, c) && LookupsUnder(Decides(m, n), KEY, c)
    decreases n - m
  {
    if m < n {
      LookUpsUnder(m + 1, n, c);
    }
  }

  lemma {:induction false} AllAdmitted(log: seq<Decision>, n: nat, c: Config)
    requires Sensible(c)
    requires forall i :: 0 <= i < |log| ==> log[i] == Decided(i, Queue(c, []), Allow, n as real, n as real)
    ensures InLockOrder(log) && Times(log) == Copies(|log|, n as real)
    decreases |log|
  {
    if log != [] {
      AllAdmitted(log[..|log| - 1], n, c);
    }
  }

  lemma {:induction false} EachDecides(log: seq<Decision>, n: nat, to: real)
    requires |log| == n && n as real < to
    requires forall i :: 0 <= i < |log| ==> log[i].index == i && log[i].t2 == n as real
    ensures |Deciders(log, n as real, to)| == n
  {
    var ids := Deciders(log, n as real, to);
    forall i | 0 <= i < n ensures i in ids {
      assert log[i] in log;
    }
    assert ids == FirstNumbers(n);
  }

  function FirstNumbers(n: nat): (r: set<nat>)
    ensures |r| == n && forall i: nat :: i in r <==> i < n
    decreases n
  {
    if n == 0 then {}
    else
      var r := FirstNumbers(n - 1);
      assert n - 1 !in r;
      r + {n - 1}
  }

  // ----- Clocks read before the lock

  /** n calls that read the facade's clock at i, i + 1, ..., each too late for the limiter before, all
      waited for the lock until n, and then decided one after the other. */
  function LateCalls(i: nat, n: nat, c: Config): seq<Step>
    requires i <= n
    decreases n - i
  {
    if i == n then [] else Call(Allow, c, i as real, n as real) + LateCalls(i + 1, n, c)
  }

  /** Before the i-th of them. */
  function Waited(i: nat, n: nat, c: Config): State {
    if i == 0 then INITIAL else Lone((i - 1) as real, Used(i - 1, n, c), Queue(c, [n as real]))
  }

  /** i limiters that admitted one request each at n. */
  function Used(i: nat, n: nat, c: Config): (made: seq<Limiter>)
    ensures |made| == i && forall k :: 0 <= k < i ==> made[k] == Queue(c, [n as real])
  {
    seq(i, k => Queue(c, [n as real]))
  }

  lemma {:induction false} LateCall(i: nat, n: nat, c: Config)
    requires Sensible(c)
    ensures Serves(Waited(i, n, c), Allow, c, i as real, n as real, ONE_KEY, Waited(i + 1, n, c),
                   Decided(i, Queue(c, []), Allow, n as real, n as real))
  {
    hide Serves, Decided;
    var made := Used(i, n, c);
    if i > 0 {
      assert made[..|made| - 1] == Used(i - 1, n, c);
    } else {
      assert made == [];
    }
    ServedByNew(Waited(i, n, c), i as real - 1.0, made, c, Allow, i as real, n as real, ONE_KEY);
    assert SlidingWindow.Next([], AsCall(Allow, c, n as real)) == [n as real];
  }

  lemma {:induction false} LateCallsRun(i: nat, n: nat, c: Config)
    requires Sensible(c) && i <= n
    ensures Valid(Waited(i, n, c)) && RunEnabled(Waited(i, n, c), LateCalls(i, n, c), ONE_KEY)
    ensures Settled(Waited(i, n, c), LateCalls(i, n, c), KEY, n as real, ONE_KEY, LateLookups)
    ensures AnswersFor(Waited(i, n, c), LateCalls(i, n, c), KEY, ONE_KEY) == LogFrom(i, n, c)
    decreases n - i
  {
    hide Serves, Decided, RunEnabled, AnswersFor, Settled, Valid;
    if i < n {
      LateCall(i, n, c);
      LateCallsRun(i + 1, n, c);
      var d := Decided(i, Queue(c, []), Allow, n as real, n as real);
      CallThen(Waited(i, n, c), Allow, c, i as real, n as real, ONE_KEY, Waited(i + 1, n, c), d, LateCalls(i + 1, n, c), n as real, LateLookups);
    } else {
      WaitedIsQuiet(i, n, c);
    }
  }

  lemma {:induction false} WaitedIsQuiet(i: nat, n: nat, c: Config)
    ensures var s := Waited(i, n, c);
            && Valid(s) && RunEnabled(s, [], ONE_KEY) && AnswersFor(s, [], KEY, ONE_KEY) == []
            && Settled(s, [], KEY, n as real, ONE_KEY, LateLookups)
  {
    if i > 0 {
      assert Names(Waited(i, n, c).table) == [KEY];
    }
  }

  /** Why the order of the lookups' clocks matters, which the code reads before it takes the lock. For every n
      and every policy there is a run on one key, with nothing popped, every decision taken by the
      limiter in the table and the clocks of all decisions in order, in which n calls that read the
      facade's clock one time to live apart get the lock late: n requests are admitted at one instant,
      one by each of n limiters. */
  lemma {:induction false} LateLookupsExceed(n: nat, c: Config)
    requires n >= 1 && Sensible(c)
    ensures var run := LateCalls(0, n, c);
            && RunEnabled(INITIAL, run, ONE_KEY) && LookupsUnder(run, KEY, c) && Settled(INITIAL, run, KEY, 0.0, ONE_KEY, LateLookups)
            && var log := AnswersFor(INITIAL, run, KEY, ONE_KEY);
               var from, to := n as real, n as real + c.window as real;
               && InLockOrder(log)
               && SlidingWindow.CountIn(Times(log), from, to) == n == |Deciders(log, from, to)|
  {
    hide RunEnabled, AnswersFor, Settled, SlidingWindow.CountIn, Times, Deciders;
    LateCallsRun(0, n, c);
    SettledEarlier(INITIAL, LateCalls(0, n, c), 0.0, n as real, ONE_KEY, LateLookups);
    LateCallsUnder(0, n, c);
    var log := LogFrom(0, n, c);
    AllAdmitted(log, n, c);
    AllCounted(Times(log), n as real, n as real + c.window as real);
    EachDecides(log, n, n as real + c.window as real);
  }

  lemma {:induction false} LateCallsUnder(i: nat, n: nat, c: Config)
    requires i <= n
    ensures LookupsUnder(LateCalls(i, n, c), KEY, c)
    decreases n - i
  {
    if i < n {
      LateCallsUnder(i + 1, n, c);
      LookupsOfBoth(Call(Allow, c, i as real, n as real), LateCalls(i + 1, n, c), c);
    }
  }
}
