/** The limiters behind the facade, for all four algorithms: in every interleaved run each of them is the
    history of the calls it served, and keeps its algorithm's bound. */
module Histories {
  import opened Prelude
  import opened LruTable
  import opened Limiters
  import opened FacadeRuns
  import opened EndToEnd
  import FixedWindow
  import SlidingWindow
  import TokenBucket
  import LeakyBucket

  // ----- What a limiter was made from, and what it served

  /** The policy of the lookup that made a limiter, and its constructor's clock reading. */
  datatype Birth = Birth(config: Config, built: real)

  function BornBy(s: State, st: Step, key: string, p: Settings): seq<Birth> {
    if st.Lookup? && st.key == key && !Hit(s.table, key, st.now, p.keyTtl) then [Birth(st.config, st.built)] else []
  }

  /** The births of the key's limiters in a run, in order. */
  function Births(s: State, run: seq<Step>, key: string, p: Settings): seq<Birth>
    requires Valid(s) && RunEnabled(s, run, p)
    decreases |run|
  {
    if run == [] then []
    else
      NextValid(s, run[0], p);
      BornBy(s, run[0], key, p) + Births(Next(s, run[0], p), run[1..], key, p)
  }

  /** The decisions of the key's i-th limiter. */
  function Own(log: seq<Decision>, i: nat): seq<Decision>
    decreases |log|
  {
    if log == [] then []
    else
      var n := |log| - 1;
      Own(log[..n], i) + if log[n].index == i then [log[n]] else []
  }

  /** The limit or capacity a limiter has, and its window or rate. */
  function Size(l: Limiter): int {
    match l
    case Fixed(n, _, _) => n
    case Sliding(n, _, _) => n
    case Token(n, _, _) => n
    case Leaky(n, _, _) => n
  }

  function Pace(l: Limiter): real {
    match l
    case Fixed(_, w, _) => w
    case Sliding(_, w, _) => w
    case Token(_, rate, _) => rate
    case Leaky(_, rate, _) => rate
  }

  function FixedCall(d: Decision): FixedWindow.Call {
    FixedWindow.Call(d.op, Size(d.before), Pace(d.before), d.t1)
  }

  function SlidingCall(d: Decision): SlidingWindow.Call {
    SlidingWindow.Call(d.op, Size(d.before), Pace(d.before), d.t1, d.t2)
  }

  function TokenCall(d: Decision): TokenBucket.Call {
    TokenBucket.Call(d.op, Size(d.before), Pace(d.before), d.t1)
  }

  function LeakyCall(d: Decision): LeakyBucket.Call {
    LeakyBucket.Call(d.op, Size(d.before), Pace(d.before), d.t1, d.t2)
  }

  function Each<C>(own: seq<Decision>, call: Decision -> C): (cs: seq<C>)
    ensures |cs| == |own| && forall k :: 0 <= k < |own| ==> cs[k] == call(own[k])
  {
    seq(|own|, k requires 0 <= k < |own| => call(own[k]))
  }

  // ----- Each limiter is its history

  /** The limiter holds exactly what its algorithm makes of these calls, from an empty counter or queue, or
      from a full bucket, at the time it was built. */
  predicate IsHistory(l: Limiter, a: Algorithm, b: Birth, own: seq<Decision>) {
    match a
    case FixedWindows => l.Fixed? && l.fixed == FixedWindow.After(FixedWindow.State(0, b.built), Each(own, FixedCall))
    case SlidingWindows => l.Sliding? && l.requests == SlidingWindow.Run(Each(own, SlidingCall))
    case TokenBuckets =>
      l.Token? && l.bucket == TokenBucket.After(TokenBucket.State(b.config.limit as real, b.built), Each(own, TokenCall))
    case LeakyBuckets => l.Leaky? && l.leaky == LeakyBucket.After(LeakyBucket.State([], b.built), Each(own, LeakyCall))
  }

  /** The decision is the one the algorithm takes after the calls served before it. */
  predicate IsAnswer(a: Algorithm, b: Birth, own: seq<Decision>, d: Decision) {
    match a
    case FixedWindows =>
      && d.before.Fixed?
      && d.allowed == FixedWindow.Admits(FixedWindow.After(FixedWindow.State(0, b.built), Each(own, FixedCall)), FixedCall(d))
    case SlidingWindows =>
      && d.before.Sliding?
      && d.allowed == SlidingWindow.Admits(SlidingWindow.Run(Each(own, SlidingCall)), SlidingCall(d))
    case TokenBuckets =>
      && d.before.Token?
      && d.allowed == TokenBucket.Admits(TokenBucket.After(TokenBucket.State(b.config.limit as real, b.built), Each(own, TokenCall)),
                                         TokenCall(d))
    case LeakyBuckets =>
      && d.before.Leaky?
      && d.allowed == LeakyBucket.Admits(LeakyBucket.After(LeakyBucket.State([], b.built), Each(own, LeakyCall)), LeakyCall(d))
  }

  lemma {:induction false} EachMore<C>(own: seq<Decision>, d: Decision, call: Decision -> C)
    ensures Each(own + [d], call) == Each(own, call) + [call(d)]
  {
  }

  lemma {:induction false} ServedIsHistory(l: Limiter, a: Algorithm, b: Birth, own: seq<Decision>, d: Decision)
    requires IsHistory(l, a, b, own) && d == Decided(d.index, l, d.op, d.t1, d.t2)
    ensures IsHistory(Serve(l, d.op, d.t1, d.t2).limiter, a, b, own + [d]) && IsAnswer(a, b, own, d)
  {
    hide FixedWindow.Next, FixedWindow.Admits, FixedWindow.After, SlidingWindow.Next, SlidingWindow.Admits, SlidingWindow.Run,
         TokenBucket.Next, TokenBucket.Admits, TokenBucket.After, LeakyBucket.Next, LeakyBucket.Admits, LeakyBucket.After;
    match a
    case FixedWindows =>
      EachMore(own, d, FixedCall);
      FixedWindow.OneMoreCall(FixedWindow.State(0, b.built), Each(own, FixedCall), FixedCall(d));
    case SlidingWindows =>
      EachMore(own, d, SlidingCall);
      SlidingWindow.OneMoreCall(Each(own, SlidingCall), SlidingCall(d));
    case TokenBuckets =>
      EachMore(own, d, TokenCall);
      TokenBucket.OneMoreCall(TokenBucket.State(b.config.limit as real, b.built), Each(own, TokenCall), TokenCall(d));
    case LeakyBuckets =>
      EachMore(own, d, LeakyCall);
      LeakyBucket.OneMoreCall(LeakyBucket.State([], b.built), Each(own, LeakyCall), LeakyCall(d));
  }

  lemma {:induction false} RetunedIsHistory(l: Limiter, c: Config, a: Algorithm, b: Birth, own: seq<Decision>)
    requires IsHistory(l, a, b, own) && Sensible(c)
    ensures IsHistory(Retune(l, c), a, b, own)
  {
    hide FixedWindow.After, SlidingWindow.Run, TokenBucket.After, LeakyBucket.After, Retune;
    RetunedSetTo(l, c);
  }

  lemma {:induction false} NewIsHistory(a: Algorithm, c: Config, built: real)
    requires Sensible(c)
    ensures IsHistory(Create(a, c, built), a, Birth(c, built), [])
  {
    hide Create;
    CreatedSetTo(a, c, built);
  }

  ghost predicate Histories(s: State, key: string, log: seq<Decision>, births: seq<Birth>, a: Algorithm) {
    var made := Made(s, key);
    && |births| == |made|
    && (forall i :: 0 <= i < |made| ==> IsHistory(made[i], a, births[i], Own(log, i)))
    && (forall j :: 0 <= j < |log| ==> log[j].index < |births| && AnswerAt(a, births, log, j))
  }

  predicate AnswerAt(a: Algorithm, births: seq<Birth>, log: seq<Decision>, j: nat)
    requires j < |log| && log[j].index < |births|
  {
    IsAnswer(a, births[log[j].index], Own(log[..j], log[j].index), log[j])
  }

  lemma {:induction false} OwnMore(log: seq<Decision>, d: Decision, i: nat)
    ensures Own(log + [d], i) == if d.index == i then Own(log, i) + [d] else Own(log, i)
  {
    assert (log + [d])[..|log|] == log;
  }

  lemma {:induction false} OwnOfNone(log: seq<Decision>, i: nat)
    requires forall j :: 0 <= j < |log| ==> log[j].index != i
    ensures Own(log, i) == []
    decreases |log|
  {
    if log != [] {
      OwnOfNone(log[..|log| - 1], i);
    }
  }

  lemma {:induction false} LookupKeepsHistories(s: State, st: Step, key: string, log: seq<Decision>, births: seq<Birth>, p: Settings)
    requires Valid(s) && Enabled(s, st) && st.Lookup? && Histories(s, key, log, births, p.algorithm)
    ensures Histories(Next(s, st, p), key, log, births + BornBy(s, st, key, p), p.algorithm)
  {
    hide IsHistory, IsAnswer, Own, Touch, Next, Valid, Made, Create, Retune;
    var made, after := Made(s, key), Made(Next(s, st, p), key);
    var born := births + BornBy(s, st, key, p);
    LookupMakes(s, st, key, p);
    OwnOfNone(log, |made|);
    NewIsHistory(p.algorithm, st.config, st.built);
    forall i | 0 <= i < |after| ensures IsHistory(after[i], p.algorithm, born[i], Own(log, i)) {
      if i < |made| {
        RetunedIsHistory(made[i], st.config, p.algorithm, births[i], Own(log, i));
      }
    }
    forall j | 0 <= j < |log| ensures AnswerAt(p.algorithm, born, log, j) {
      assert AnswerAt(p.algorithm, births, log, j);
    }
  }

  lemma {:induction false} DecideKeepsHistories(s: State, st: Step, key: string, log: seq<Decision>, births: seq<Birth>, p: Settings)
    requires Valid(s) && Enabled(s, st) && st.Decide? && s.inFlight[st.thread].key == key && Histories(s, key, log, births, p.algorithm)
    ensures Histories(Next(s, st, p), key, log + [Answer(s, st)], births, p.algorithm)
  {
    hide IsHistory, IsAnswer, Own, Serve;
    var d := Answer(s, st);
    var made, after := Made(s, key), Made(Next(s, st, p), key);
    var longer := log + [d];
    ServedIsHistory(made[d.index], p.algorithm, births[d.index], Own(log, d.index), d);
    forall i | 0 <= i < |after| ensures IsHistory(after[i], p.algorithm, births[i], Own(longer, i)) {
      OwnMore(log, d, i);
    }
    forall j | 0 <= j < |longer| ensures AnswerAt(p.algorithm, births, longer, j) {
      if j < |log| {
        assert AnswerAt(p.algorithm, births, log, j) && longer[..j] == log[..j];
      } else {
        assert longer[..j] == log;
      }
    }
  }

  lemma {:induction false} StepKeepsHistories(s: State, st: Step, key: string, log: seq<Decision>, births: seq<Birth>, p: Settings)
    requires Valid(s) && Enabled(s, st) && Histories(s, key, log, births, p.algorithm)
    ensures Histories(Next(s, st, p), key, log + LoggedBy(s, st, key), births + BornBy(s, st, key, p), p.algorithm)
  {
    hide IsHistory, Own, AnswerAt, Touch, Serve, Retune, Create;
    assert log + [] == log && births + [] == births;
    if st.Lookup? {
      LookupKeepsHistories(s, st, key, log, births, p);
    } else if s.inFlight[st.thread].key == key {
      DecideKeepsHistories(s, st, key, log, births, p);
    }
  }

  lemma {:induction false} RunKeepsHistories(s: State, run: seq<Step>, key: string, log: seq<Decision>, births: seq<Birth>, p: Settings)
    requires Valid(s) && RunEnabled(s, run, p) && Histories(s, key, log, births, p.algorithm)
    ensures Histories(After(s, run, p), key, log + AnswersFor(s, run, key, p), births + Births(s, run, key, p), p.algorithm)
    decreases |run|
  {
    hide Histories, Next, LoggedBy, BornBy;
    if run == [] {
      assert log + [] == log && births + [] == births;
    } else {
      NextValid(s, run[0], p);
      StepKeepsHistories(s, run[0], key, log, births, p);
      var next, one, born := Next(s, run[0], p), LoggedBy(s, run[0], key), BornBy(s, run[0], key, p);
      RunKeepsHistories(next, run[1..], key, log + one, births + born, p);
      assert (log + one) + AnswersFor(next, run[1..], key, p) == log + (one + AnswersFor(next, run[1..], key, p));
      assert (births + born) + Births(next, run[1..], key, p) == births + (born + Births(next, run[1..], key, p));
    }
  }

  /** For every algorithm and after every interleaved run, through every re-tune, rebuild and eviction: each
      limiter ever made for a key holds what its algorithm makes of the calls it served, starting as
      it was built, and every decision is the algorithm's own after the calls before it. */
  lemma {:induction false} EveryLimiterIsItsHistory(run: seq<Step>, key: string, p: Settings)
    requires RunEnabled(INITIAL, run, p)
    ensures Histories(After(INITIAL, run, p), key, AnswersFor(INITIAL, run, key, p), Births(INITIAL, run, key, p), p.algorithm)
  {
    RunKeepsHistories(INITIAL, run, key, [], [], p);
    assert [] + AnswersFor(INITIAL, run, key, p) == AnswersFor(INITIAL, run, key, p);
    assert [] + Births(INITIAL, run, key, p) == Births(INITIAL, run, key, p);
  }

  // ----- What a limiter reports

  /** How many of n requests at one instant are admitted. */
  function BurstAdmits(l: Limiter, n: nat, t: real): nat
    decreases n
  {
    if n == 0 then 0
    else
      var o := Serve(l, Allow, t, t);
      (if o.allowed then 1 else 0) + BurstAdmits(o.limiter, n - 1, t)
  }

  /** What any limiter satisfies at its calls: a positive window or rate, and nothing recorded in the
      future. */
  predicate Sound(l: Limiter, t: real) {
    match l
    case Fixed(_, w, s) => w > 0.0 && s.start <= t
    case Sliding(_, w, ts) => w > 0.0
    case Token(n, rate, s) => n >= 1 && rate > 0.0 && s.tokens >= 0.0 && s.last <= t
    case Leaky(_, rate, s) => rate > 0.0 && s.last <= t
  }

  function Reported(l: Limiter, t: real): int {
    RemainingOf(Serve(l, Read, t, t).limiter)
  }

  lemma {:induction false} OneLess(l: Limiter, t: real)
    requires Sound(l, t)
    ensures var o := Serve(l, Allow, t, t);
            && Sound(o.limiter, t) && Reported(l, t) >= 0
            && (o.allowed <==> Reported(l, t) > 0)
            && Reported(o.limiter, t) == Reported(l, t) - if o.allowed then 1 else 0
  {
    match l
    case Fixed(_, _, _) =>
    case Sliding(n, w, ts) =>
      LiveStays(ts, t - w, t);
    case Token(n, rate, s) =>
      GainNonNegative(t - s.last, rate);
      GainAtZero(rate);
    case Leaky(_, rate, s) =>
      GainNonNegative(t - s.last, rate);
      GainAtZero(rate);
      LeaksOnce(s, rate, t);
  }

  lemma {:induction false} LiveStays(ts: seq<real>, cutoff: real, t: real)
    requires cutoff < t
    ensures var live := SlidingWindow.DropExpired(ts, cutoff);
            SlidingWindow.DropExpired(live, cutoff) == live && SlidingWindow.DropExpired(live + [t], cutoff) == live + [t]
    decreases |ts|
  {
    if ts != [] && ts[0] <= cutoff {
      LiveStays(ts[1..], cutoff, t);
    }
  }

  lemma {:induction false} LeaksOnce(s: LeakyBucket.State, rate: real, t: real)
    requires s.last <= t && rate > 0.0
    ensures var l := LeakyBucket.Leak(s, rate, t);
            && LeakyBucket.Leak(l, rate, t) == l
            && forall q: seq<real> :: LeakyBucket.Leak(l.(queue := q), rate, t) == l.(queue := q)
  {
    GainNonNegative(t - s.last, rate);
    GainAtZero(rate);
  }

  /** For all four algorithms, what a limiter behind the facade reports as remaining is how many of n
      requests made at once it admits. */
  lemma {:induction false} ReportsWhatItAdmits(l: Limiter, n: nat, t: real)
    requires Sound(l, t)
    ensures BurstAdmits(l, n, t) == MinInt(n, Reported(l, t))
    decreases n
  {
    hide Serve, Reported, Sound;
    OneLess(l, t);
    if n > 0 {
      ReportsWhatItAdmits(Serve(l, Allow, t, t).limiter, n - 1, t);
    }
  }

  /** And what it reports as its reset time: exactly the whole seconds that do not reach past the end of the
      window, the oldest entry's leaving, the next token, or the drain of the places missing. */
  lemma {:induction false} ReportsItsWait(l: Limiter, later: real, n: nat)
    requires Sound(l, later)
    requires l.Fixed? ==> later <= l.fixed.start + l.window
    requires l.Sliding? && l.requests != [] ==> later <= l.requests[0] + l.window
    requires l.Leaky? ==> l.capacity >= 1
    ensures match l
            case Fixed(_, w, s) => n <= ResetOf(l, later) <==> later + n as real <= s.start + w
            case Sliding(_, w, ts) =>
              if ts == [] then ResetOf(l, later) == 0 else n <= ResetOf(l, later) <==> later + n as real <= ts[0] + w
            case Token(_, rate, s) =>
              if s.tokens >= 1.0 then ResetOf(l, later) == 0
              else n <= ResetOf(l, later) <==> s.tokens + Gain(n as real, rate) <= 1.0
            case Leaky(capacity, rate, s) =>
              if |s.queue| < capacity then ResetOf(l, later) == 0
              else n <= ResetOf(l, later) <==> Gain(n as real, rate) <= (|s.queue| - capacity + 1) as real
  {
    match l
    case Fixed(_, w, s) => FixedWindow.ResetIsWindowEnd(s, w, later, n);
    case Sliding(_, w, ts) => SlidingWindow.ResetIsOldestLeaving(ts, w, later, n);
    case Token(_, rate, s) => TokenBucket.ResetIsWaitForToken(s, rate, n);
    case Leaky(capacity, rate, s) => LeakyBucket.ResetIsWaitForPlaces(s, capacity, rate, n);
  }

  // ----- What one limiter's settings are

  /** Set to one of the policies. */
  predicate SetToOne(l: Limiter, configs: set<Config>) {
    exists c :: c in configs && SetTo(l, c.limit, c.window)
  }

  predicate AllSetToOne(log: seq<Decision>, configs: set<Config>) {
    forall j :: 0 <= j < |log| ==> SetToOne(log[j].before, configs)
  }

  predicate LookupsAmong(run: seq<Step>, key: string, configs: set<Config>) {
    forall i :: 0 <= i < |run| && run[i].Lookup? && run[i].key == key ==> run[i].config in configs
  }

  lemma {:induction false} StepSets(s: State, st: Step, key: string, configs: set<Config>, p: Settings)
    requires Valid(s) && Enabled(s, st) && (st.Lookup? && st.key == key ==> st.config in configs)
    requires forall i :: 0 <= i < |Made(s, key)| ==> SetToOne(Made(s, key)[i], configs)
    ensures forall i :: 0 <= i < |Made(Next(s, st, p), key)| ==> SetToOne(Made(Next(s, st, p), key)[i], configs)
    ensures AllSetToOne(LoggedBy(s, st, key), configs)
  {
    hide SetTo, Retune, Create, Serve, Touch;
    var made, after := Made(s, key), Made(Next(s, st, p), key);
    if st.Lookup? {
      LookupMakes(s, st, key, p);
      CreatedSetTo(p.algorithm, st.config, st.built);
      forall i | 0 <= i < |after| ensures SetToOne(after[i], configs) {
        if i < |made| {
          RetunedSetTo(made[i], st.config);
        }
      }
    } else {
      forall i | 0 <= i < |after| ensures SetToOne(after[i], configs) {
        var c :| c in configs && SetTo(made[i], c.limit, c.window);
        ServedSetTo(made[i], st.op, st.t1, st.t2, c.limit, c.window);
      }
    }
  }

  /** Every decision is taken under a policy that some lookup of the key asked for. */
  lemma {:induction false} RunSets(s: State, run: seq<Step>, key: string, configs: set<Config>, p: Settings)
    requires Valid(s) && RunEnabled(s, run, p) && LookupsAmong(run, key, configs)
    requires forall i :: 0 <= i < |Made(s, key)| ==> SetToOne(Made(s, key)[i], configs)
    ensures AllSetToOne(AnswersFor(s, run, key, p), configs)
    decreases |run|
  {
    hide Next, LoggedBy, SetToOne;
    if run != [] {
      NextValid(s, run[0], p);
      StepSets(s, run[0], key, configs, p);
      RunSets(Next(s, run[0], p), run[1..], key, configs, p);
      BothSet(LoggedBy(s, run[0], key), AnswersFor(Next(s, run[0], p), run[1..], key, p), configs);
    }
  }

  lemma {:induction false} BothSet(a: seq<Decision>, b: seq<Decision>, configs: set<Config>)
    requires AllSetToOne(a, configs) && AllSetToOne(b, configs)
    ensures AllSetToOne(a + b, configs)
  {
    hide SetToOne;
    forall j | 0 <= j < |a + b| ensures SetToOne((a + b)[j].before, configs) {
      assert (a + b)[j] == if j < |a| then a[j] else b[j - |a|];
    }
  }

  // ----- The decisions of an interval

  /** How many of the decisions admit. */
  function Admitted(log: seq<Decision>): nat
    decreases |log|
  {
    if log == [] then 0 else (if log[0].allowed then 1 else 0) + Admitted(log[1..])
  }

  /** How many of the decisions whose clock lies in the interval, ends included, admit. */
  function AdmittedIn(log: seq<Decision>, from: real, to: real): nat
    decreases |log|
  {
    if log == [] then 0
    else (if log[0].allowed && from <= log[0].t1 <= to then 1 else 0) + AdmittedIn(log[1..], from, to)
  }

  /** One limiter's clock readings, from when it was built. */
  predicate OwnClock(own: seq<Decision>, built: real) {
    && (forall j :: 0 <= j < |own| ==> built <= own[j].t1 <= own[j].t2)
    && (forall j, k :: 0 <= j < k < |own| ==> own[j].t2 <= own[k].t1)
  }

  /** The decisions in an interval are a stretch of those taken. */
  lemma {:induction false} Stretch(own: seq<Decision>, from: real, to: real) returns (j: nat, k: nat)
    requires forall x, y :: 0 <= x < y < |own| ==> own[x].t1 <= own[y].t1
    ensures j <= k <= |own| && AdmittedIn(own, from, to) == Admitted(own[j..k])
    ensures own != [] && own[0].t1 >= from ==> j == 0
    ensures forall x :: 0 <= x < j ==> own[x].t1 < from
    ensures forall x :: j <= x < k ==> from <= own[x].t1 <= to
    decreases |own|
  {
    if own == [] {
      j, k := 0, 0;
    } else if own[0].t1 > to {
      NoneLater(own, from, to);
      j, k := 0, 0;
    } else {
      var rest := own[1..];
      var j', k' := Stretch(rest, from, to);
      if own[0].t1 < from {
        j, k := j' + 1, k' + 1;
        SliceOfRest(own, j', k');
      } else {
        assert rest != [] ==> own[1].t1 == rest[0].t1 >= from;
        j, k := 0, k' + 1;
        AdmittedFirst(own, k');
      }
      forall x | 0 <= x < j ensures own[x].t1 < from {
        assert x == 0 || own[x] == rest[x - 1];
      }
      forall x | j <= x < k ensures from <= own[x].t1 <= to {
        assert x == 0 || own[x] == rest[x - 1];
      }
    }
  }

  lemma {:induction false} SliceOfRest(own: seq<Decision>, j: nat, k: nat)
    requires own != [] && j <= k <= |own| - 1
    ensures own[j + 1..k + 1] == own[1..][j..k]
  {
    assert |own[j + 1..k + 1]| == |own[1..][j..k]| == k - j;
    assert forall x :: 0 <= x < k - j ==> own[j + 1..k + 1][x] == own[j + 1 + x] == own[1..][j + x] == own[1..][j..k][x];
  }

  lemma {:induction false} AdmittedFirst(own: seq<Decision>, k: nat)
    requires own != [] && k <= |own| - 1
    ensures Admitted(own[0..k + 1]) == (if own[0].allowed then 1 else 0) + Admitted(own[1..][0..k])
  {
    assert own[0..k + 1][1..] == own[1..][0..k];
  }

  lemma {:induction false} NoneLater(own: seq<Decision>, from: real, to: real)
    requires forall x :: 0 <= x < |own| ==> own[x].t1 > to
    ensures AdmittedIn(own, from, to) == 0
    decreases |own|
  {
    if own != [] {
      NoneLater(own[1..], from, to);
    }
  }

  // ----- From the log to one limiter

  predicate OwnAnswers(a: Algorithm, b: Birth, own: seq<Decision>) {
    forall x :: 0 <= x < |own| ==> IsAnswer(a, b, own[..x], own[x])
  }

  lemma {:induction false} OwnAnswersOf(a: Algorithm, births: seq<Birth>, log: seq<Decision>, i: nat)
    requires i < |births| && forall j :: 0 <= j < |log| ==> log[j].index < |births| && AnswerAt(a, births, log, j)
    ensures OwnAnswers(a, births[i], Own(log, i))
    decreases |log|
  {
    hide IsAnswer;
    if log != [] {
      var n := |log| - 1;
      var earlier, d := log[..n], log[n];
      forall j | 0 <= j < n ensures earlier[j].index < |births| && AnswerAt(a, births, earlier, j) {
        assert AnswerAt(a, births, log, j) && earlier[..j] == log[..j];
      }
      OwnAnswersOf(a, births, earlier, i);
      assert AnswerAt(a, births, log, n);
      var own := Own(earlier, i);
      if d.index == i {
        forall x | 0 <= x < |own + [d]| ensures IsAnswer(a, births[i], (own + [d])[..x], (own + [d])[x]) {
          assert (own + [d])[..x] == own[..x];
          if x < |own| {
            assert IsAnswer(a, births[i], own[..x], own[x]);
          } else {
            assert own[..x] == own;
          }
        }
      } else {
        assert own + [] == own;
      }
    }
  }

  lemma {:induction false} OwnClockOf(log: seq<Decision>, births: seq<Birth>, i: nat)
    requires i < |births| && InLockOrder(log)
    requires forall j :: 0 <= j < |log| && log[j].index == i ==> births[i].built <= log[j].t1
    ensures OwnClock(Own(log, i), births[i].built)
    decreases |log|
  {
    if log != [] {
      var n := |log| - 1;
      assert forall j :: 0 <= j < n ==> log[..n][j] == log[j];
      OwnClockOf(log[..n], births, i);
      if log[n].index == i {
        OwnBefore(log[..n], i, log[n].t1);
      }
    }
  }

  lemma {:induction false} OwnBefore(log: seq<Decision>, i: nat, t: real)
    requires forall j :: 0 <= j < |log| && log[j].index == i ==> log[j].t2 <= t
    ensures forall k :: 0 <= k < |Own(log, i)| ==> Own(log, i)[k].t2 <= t
    decreases |log|
  {
    if log != [] {
      OwnBefore(log[..|log| - 1], i, t);
    }
  }

  lemma {:induction false} OwnSet(log: seq<Decision>, i: nat, configs: set<Config>)
    requires AllSetToOne(log, configs)
    ensures AllSetToOne(Own(log, i), configs)
    decreases |log|
  {
    hide SetToOne;
    if log != [] {
      OwnSet(log[..|log| - 1], i, configs);
    }
  }

  // ----- The bounds

  /** What every run gives for one limiter under policies of the set: its answers, its clock and its
      settings. */
  ghost predicate LimiterOf(own: seq<Decision>, b: Birth, a: Algorithm, configs: set<Config>) {
    OwnAnswers(a, b, own) && OwnClock(own, b.built) && AllSetToOne(own, configs)
  }

  /** The clock readings under each limiter's lock are in order, from its constructor's on. */
  predicate LimiterClocks(log: seq<Decision>, births: seq<Birth>) {
    && InLockOrder(log)
    && forall j :: 0 <= j < |log| ==> log[j].index < |births| ==> births[log[j].index].built <= log[j].t1
  }

  lemma {:induction false} RunGivesLimiter(run: seq<Step>, key: string, p: Settings, configs: set<Config>, i: nat)
    requires RunEnabled(INITIAL, run, p) && LookupsAmong(run, key, configs)
    requires i < |Births(INITIAL, run, key, p)| && LimiterClocks(AnswersFor(INITIAL, run, key, p), Births(INITIAL, run, key, p))
    ensures LimiterOf(Own(AnswersFor(INITIAL, run, key, p), i), Births(INITIAL, run, key, p)[i], p.algorithm, configs)
  {
    hide RunEnabled, AnswersFor, Births, IsAnswer, Own, AllSetToOne, After, Made;
    var log, births := AnswersFor(INITIAL, run, key, p), Births(INITIAL, run, key, p);
    EveryLimiterIsItsHistory(run, key, p);
    OwnAnswersOf(p.algorithm, births, log, i);
    OwnClockOf(log, births, i);
    NothingMade(key, configs);
    RunSets(INITIAL, run, key, configs, p);
    OwnSet(log, i, configs);
  }

  lemma {:induction false} NothingMade(key: string, configs: set<Config>)
    ensures Valid(INITIAL) && Made(INITIAL, key) == []
  {
  }

  lemma {:induction false} EachPrefix<C>(own: seq<Decision>, n: nat, call: Decision -> C)
    requires n <= |own|
    ensures Each(own[..n], call) == Each(own, call)[..n]
  {
  }

  /** A stretch of a limiter's decisions admits what its algorithm admits of these calls. */
  lemma {:induction false} FixedStretch(own: seq<Decision>, b: Birth, j: nat, k: nat)
    requires OwnAnswers(FixedWindows, b, own) && j <= k <= |own|
    ensures var calls := Each(own, FixedCall);
            Admitted(own[j..k]) == FixedWindow.Admissions(FixedWindow.After(FixedWindow.State(0, b.built), calls[..j]), calls[j..k])
    decreases k - j
  {
    if j < k {
      hide FixedWindow.Admits, FixedWindow.Next, FixedWindow.After;
      var calls := Each(own, FixedCall);
      FixedStretch(own, b, j + 1, k);
      assert IsAnswer(FixedWindows, b, own[..j], own[j]);
      EachPrefix(own, j, FixedCall);
      assert calls[..j + 1] == calls[..j] + [calls[j]];
      FixedWindow.OneMoreCall(FixedWindow.State(0, b.built), calls[..j], calls[j]);
      assert own[j..k][1..] == own[j + 1..k] && calls[j..k][1..] == calls[j + 1..k];
    }
  }

  lemma {:induction false} TokenStretch(own: seq<Decision>, b: Birth, j: nat, k: nat)
    requires OwnAnswers(TokenBuckets, b, own) && j <= k <= |own|
    ensures var calls := Each(own, TokenCall);
            Admitted(own[j..k])
            == TokenBucket.Admissions(TokenBucket.After(TokenBucket.State(b.config.limit as real, b.built), calls[..j]), calls[j..k])
    decreases k - j
  {
    if j < k {
      hide TokenBucket.Admits, TokenBucket.Next, TokenBucket.After;
      var calls := Each(own, TokenCall);
      TokenStretch(own, b, j + 1, k);
      assert IsAnswer(TokenBuckets, b, own[..j], own[j]);
      EachPrefix(own, j, TokenCall);
      assert calls[..j + 1] == calls[..j] + [calls[j]];
      TokenBucket.OneMoreCall(TokenBucket.State(b.config.limit as real, b.built), calls[..j], calls[j]);
      assert own[j..k][1..] == own[j + 1..k] && calls[j..k][1..] == calls[j + 1..k];
    }
  }

  lemma {:induction false} LeakyStretch(own: seq<Decision>, b: Birth, j: nat, k: nat)
    requires OwnAnswers(LeakyBuckets, b, own) && j <= k <= |own|
    ensures var calls := Each(own, LeakyCall);
            Admitted(own[j..k])
            == LeakyBucket.Admissions(LeakyBucket.After(LeakyBucket.State([], b.built), calls[..j]), calls[j..k])
    decreases k - j
  {
    if j < k {
      hide LeakyBucket.Admits, LeakyBucket.Next, LeakyBucket.After;
      var calls := Each(own, LeakyCall);
      LeakyStretch(own, b, j + 1, k);
      assert IsAnswer(LeakyBuckets, b, own[..j], own[j]);
      EachPrefix(own, j, LeakyCall);
      assert calls[..j + 1] == calls[..j] + [calls[j]];
      LeakyBucket.OneMoreCall(LeakyBucket.State([], b.built), calls[..j], calls[j]);
      assert own[j..k][1..] == own[j + 1..k] && calls[j..k][1..] == calls[j + 1..k];
    }
  }

  /** Under policies with one window, all of at most c's limit. */
  predicate OneWindowUpTo(configs: set<Config>, c: Config) {
    forall x :: x in configs ==> x.window == c.window && x.limit <= c.limit
  }

  /** A fixed-window limiter behind the facade admits at most (m+1) times the largest limit in any closed
      interval of length m*window, in every interleaved run and through every change of the limit. */
  lemma {:induction false} FixedWindowBound(run: seq<Step>, key: string, p: Settings, configs: set<Config>, c: Config, i: nat, from: real, m: nat)
    requires RunEnabled(INITIAL, run, p) && p.algorithm == FixedWindows && LookupsAmong(run, key, configs)
    requires Sensible(c) && OneWindowUpTo(configs, c)
    requires i < |Births(INITIAL, run, key, p)| && LimiterClocks(AnswersFor(INITIAL, run, key, p), Births(INITIAL, run, key, p))
    ensures AdmittedIn(Own(AnswersFor(INITIAL, run, key, p), i), from, from + m as real * c.window as real) <= (m + 1) * c.limit
  {
    hide RunEnabled, AnswersFor, Births, LookupsAmong, LimiterClocks;
    RunGivesLimiter(run, key, p, configs, i);
    FixedBoundOf(Own(AnswersFor(INITIAL, run, key, p), i), Births(INITIAL, run, key, p)[i], configs, c, from, m);
  }

  lemma {:induction false} FixedBoundOf(own: seq<Decision>, b: Birth, configs: set<Config>, c: Config, from: real, m: nat)
    requires LimiterOf(own, b, FixedWindows, configs) && Sensible(c) && OneWindowUpTo(configs, c)
    ensures AdmittedIn(own, from, from + m as real * c.window as real) <= (m + 1) * c.limit
  {
    hide IsAnswer, AdmittedIn, Admitted, SetToOne, FixedWindow.Admissions, FixedWindow.After, FixedWindow.Timely, FixedWindow.Limited,
         FixedWindow.OneWindow, OneWindowUpTo;
    var w := c.window as real;
    var to := from + m as real * w;
    var j, k := Stretch(own, from, to);
    FixedStretch(own, b, j, k);
    var calls := Each(own, FixedCall);
    FixedCallsUnder(own, b, configs, c, j, k);
    var start := Max(from, b.built);
    FixedCallsTimely(own, b, j, k, from, to, start + m as real * w);
    FixedWindow.IntervalBound(b.built, calls[..j], calls[j..k], w, c.limit, start, m);
  }

  lemma {:induction false} FixedCallsTimely(own: seq<Decision>, b: Birth, j: nat, k: nat, from: real, to: real, end: real)
    requires OwnClock(own, b.built) && j <= k <= |own| && to <= end
    requires (forall x :: 0 <= x < j ==> own[x].t1 < from) && (forall x :: j <= x < k ==> from <= own[x].t1 <= to)
    ensures var calls, start := Each(own, FixedCall), Max(from, b.built);
            FixedWindow.Timely(calls[..j], b.built, start) && FixedWindow.Timely(calls[j..k], start, end)
  {
    StretchTimes(own, b, j, k, from, to);
  }

  lemma {:induction false} FixedCallsUnder(own: seq<Decision>, b: Birth, configs: set<Config>, c: Config, j: nat, k: nat)
    requires LimiterOf(own, b, FixedWindows, configs) && OneWindowUpTo(configs, c) && j <= k <= |own|
    ensures var calls := Each(own, FixedCall);
            && FixedWindow.Limited(calls[..j], c.limit)
            && FixedWindow.Limited(calls[j..k], c.limit) && FixedWindow.OneWindow(calls[j..k], c.window as real)
  {
    hide FixedWindow.Admits, FixedWindow.After;
    forall x | 0 <= x < |own| ensures Size(own[x].before) <= c.limit && Pace(own[x].before) == c.window as real {
      assert IsAnswer(FixedWindows, b, own[..x], own[x]);
      var y :| y in configs && SetTo(own[x].before, y.limit, y.window);
    }
  }

  /** The clock readings of a stretch, from the limiter's birth on. */
  lemma {:induction false} StretchTimes(own: seq<Decision>, b: Birth, j: nat, k: nat, from: real, to: real)
    requires OwnClock(own, b.built) && j <= k <= |own|
    requires (forall x :: 0 <= x < j ==> own[x].t1 < from) && (forall x :: j <= x < k ==> from <= own[x].t1 <= to)
    ensures forall x :: 0 <= x < j ==> b.built <= own[x].t1 <= own[x].t2 && own[x].t1 <= Max(from, b.built)
    ensures forall x :: j <= x < k ==> Max(from, b.built) <= own[x].t1 <= own[x].t2 && own[x].t1 <= to
    ensures forall x, y :: 0 <= x < y < |own| ==> own[x].t1 <= own[x].t2 <= own[y].t1
  {
  }

  /** A token bucket behind the facade admits at most its limit, plus limit/window for each second, in any
      closed interval, in every interleaved run under one policy. */
  lemma {:induction false} TokenBucketBound(run: seq<Step>, key: string, p: Settings, c: Config, i: nat, from: real, to: real)
    requires RunEnabled(INITIAL, run, p) && p.algorithm == TokenBuckets && LookupsAmong(run, key, {c})
    requires Sensible(c) && from <= to
    requires i < |Births(INITIAL, run, key, p)| && LimiterClocks(AnswersFor(INITIAL, run, key, p), Births(INITIAL, run, key, p))
    ensures AdmittedIn(Own(AnswersFor(INITIAL, run, key, p), i), from, to) as real
            <= c.limit as real + Gain(to - from, c.limit as real / c.window as real)
  {
    hide RunEnabled, AnswersFor, Births, LookupsAmong, LimiterClocks, LimiterOf, AdmittedIn, Gain, Own;
    RunGivesLimiter(run, key, p, {c}, i);
    BirthsAmong(INITIAL, run, key, {c}, p);
    RateOf(c);
    TokenBoundOf(Own(AnswersFor(INITIAL, run, key, p), i), Births(INITIAL, run, key, p)[i], c, c.limit as real / c.window as real, from, to);
  }

  /** Every limiter is made for a policy some lookup asked for. */
  lemma {:induction false} BirthsAmong(s: State, run: seq<Step>, key: string, configs: set<Config>, p: Settings)
    requires Valid(s) && RunEnabled(s, run, p) && LookupsAmong(run, key, configs)
    ensures forall b :: b in Births(s, run, key, p) ==> b.config in configs
    decreases |run|
  {
    hide Next;
    if run != [] {
      NextValid(s, run[0], p);
      BirthsAmong(Next(s, run[0], p), run[1..], key, configs, p);
    }
  }

  lemma {:induction false} TokenBoundOf(own: seq<Decision>, b: Birth, c: Config, rate: real, from: real, to: real)
    requires LimiterOf(own, b, TokenBuckets, {c}) && Sensible(c) && b.config == c && from <= to
    requires rate == c.limit as real / c.window as real && rate >= 0.0
    ensures AdmittedIn(own, from, to) as real <= c.limit as real + Gain(to - from, rate)
  {
    hide IsAnswer, AdmittedIn, Admitted, SetToOne, Gain, TokenBucket.Admissions, TokenBucket.After, TokenBucket.Timely, TokenBucket.FixedSettings;
    GainNonNegative(to - from, rate);
    var j, k := Stretch(own, from, to);
    TokenStretch(own, b, j, k);
    var start := Max(from, b.built);
    if j < k {
      StretchTimes(own, b, j, k, from, to);
      assert start <= own[j].t1 <= to;
      var calls := Each(own, TokenCall);
      TokenCallsUnder(own, b, c, rate, j, k);
      TokenCallsTimely(own, b, c, rate, j, k, from, to);
      TokenBucket.Reachable(b.built, c.limit, calls[..j], start);
      TokenBucket.IntervalBound(TokenBucket.After(TokenBucket.State(c.limit as real, b.built), calls[..j]), calls[j..k], c.limit, rate, start, to);
      GainMonotone(to - start, to - from, rate);
    } else {
      assert own[j..k] == [];
      NoneAdmitted();
    }
  }

  lemma {:induction false} TokenCallsTimely(own: seq<Decision>, b: Birth, c: Config, rate: real, j: nat, k: nat, from: real, to: real)
    requires OwnClock(own, b.built) && j <= k <= |own| && Sensible(c) && rate >= 0.0
    requires (forall x :: 0 <= x < j ==> own[x].t1 < from) && (forall x :: j <= x < k ==> from <= own[x].t1 <= to)
    requires TokenBucket.FixedSettings(Each(own, TokenCall), c.limit, rate)
    ensures var calls, start := Each(own, TokenCall), Max(from, b.built);
            && TokenBucket.Timely(calls[..j], b.built) && (forall x :: 0 <= x < j ==> calls[..j][x].now <= start)
            && TokenBucket.Timely(calls[j..k], start) && (forall x :: 0 <= x < k - j ==> calls[j..k][x].now <= to)
  {
    StretchTimes(own, b, j, k, from, to);
  }

  lemma {:induction false} TokenCallsUnder(own: seq<Decision>, b: Birth, c: Config, rate: real, j: nat, k: nat)
    requires LimiterOf(own, b, TokenBuckets, {c}) && Sensible(c) && rate == c.limit as real / c.window as real && j <= k <= |own|
    ensures var calls := Each(own, TokenCall);
            TokenBucket.FixedSettings(calls, c.limit, rate) && TokenBucket.FixedSettings(calls[j..k], c.limit, rate)
  {
    hide TokenBucket.Admits, TokenBucket.After;
    forall x | 0 <= x < |own| ensures Size(own[x].before) == c.limit && Pace(own[x].before) == rate {
      assert IsAnswer(TokenBuckets, b, own[..x], own[x]);
    }
  }

  /** A leaky bucket behind the facade admits fewer than its limit, plus limit/window for each second, plus
      one, in any closed interval, so at most twice the limit in a window, in every interleaved run
      under one policy. */
  lemma {:induction false} LeakyBucketBound(run: seq<Step>, key: string, p: Settings, c: Config, i: nat, from: real, to: real)
    requires RunEnabled(INITIAL, run, p) && p.algorithm == LeakyBuckets && LookupsAmong(run, key, {c})
    requires Sensible(c) && from <= to
    requires i < |Births(INITIAL, run, key, p)| && LimiterClocks(AnswersFor(INITIAL, run, key, p), Births(INITIAL, run, key, p))
    ensures var n := AdmittedIn(Own(AnswersFor(INITIAL, run, key, p), i), from, to);
            && n as real < c.limit as real + Gain(to - from, c.limit as real / c.window as real) + 1.0
            && (to == from + c.window as real ==> n <= 2 * c.limit)
  {
    hide RunEnabled, AnswersFor, Births, LookupsAmong, LimiterClocks, LimiterOf, AdmittedIn, Gain, Own;
    RunGivesLimiter(run, key, p, {c}, i);
    RateOf(c);
    LeakyBoundOf(Own(AnswersFor(INITIAL, run, key, p), i), Births(INITIAL, run, key, p)[i], c, c.limit as real / c.window as real, from, to);
  }

  lemma {:induction false} RateOf(c: Config)
    requires Sensible(c)
    ensures c.limit as real / c.window as real >= 0.0
    ensures Gain(c.window as real, c.limit as real / c.window as real) == c.limit as real
  {
    PositiveWait(c.limit as real, c.window as real);
  }

  lemma {:induction false} NoneAdmitted()
    ensures Admitted([]) == 0
  {
  }

  lemma {:induction false} LeakyBoundOf(own: seq<Decision>, b: Birth, c: Config, rate: real, from: real, to: real)
    requires LimiterOf(own, b, LeakyBuckets, {c}) && Sensible(c) && from <= to
    requires rate == c.limit as real / c.window as real && rate >= 0.0
    ensures AdmittedIn(own, from, to) as real < c.limit as real + Gain(to - from, rate) + 1.0
  {
    hide IsAnswer, AdmittedIn, Admitted, SetToOne, Gain, LeakyBucket.Admissions, LeakyBucket.After, LeakyBucket.Timely, LeakyBucket.FixedSettings;
    GainNonNegative(to - from, rate);
    var j, k := Stretch(own, from, to);
    LeakyStretch(own, b, j, k);
    var start := Max(from, b.built);
    if j < k {
      StretchTimes(own, b, j, k, from, to);
      assert start <= own[j].t1 <= to;
      var calls := Each(own, LeakyCall);
      LeakyCallsUnder(own, b, c, rate, j, k);
      LeakyCallsTimely(own, b, c, rate, j, k, from, to);
      LeakyBucket.Reachable(LeakyBucket.State([], b.built), calls[..j], start);
      LeakyBucket.IntervalBound(LeakyBucket.After(LeakyBucket.State([], b.built), calls[..j]), calls[j..k], c.limit, rate, start, to);
      GainMonotone(to - start, to - from, rate);
    } else {
      assert own[j..k] == [];
      NoneAdmitted();
    }
  }

  lemma {:induction false} LeakyCallsTimely(own: seq<Decision>, b: Birth, c: Config, rate: real, j: nat, k: nat, from: real, to: real)
    requires OwnClock(own, b.built) && j <= k <= |own| && Sensible(c) && rate >= 0.0
    requires (forall x :: 0 <= x < j ==> own[x].t1 < from) && (forall x :: j <= x < k ==> from <= own[x].t1 <= to)
    requires LeakyBucket.FixedSettings(Each(own, LeakyCall), c.limit, rate)
    ensures var calls, start := Each(own, LeakyCall), Max(from, b.built);
            && LeakyBucket.Timely(calls[..j], b.built) && (forall x :: 0 <= x < j ==> calls[..j][x].now <= start)
            && LeakyBucket.Timely(calls[j..k], start) && (forall x :: 0 <= x < k - j ==> calls[j..k][x].now <= to)
  {
    StretchTimes(own, b, j, k, from, to);
  }

  lemma {:induction false} LeakyCallsUnder(own: seq<Decision>, b: Birth, c: Config, rate: real, j: nat, k: nat)
    requires LimiterOf(own, b, LeakyBuckets, {c}) && Sensible(c) && rate == c.limit as real / c.window as real && j <= k <= |own|
    ensures var calls := Each(own, LeakyCall);
            LeakyBucket.FixedSettings(calls, c.limit, rate) && LeakyBucket.FixedSettings(calls[j..k], c.limit, rate)
  {
    hide LeakyBucket.Admits, LeakyBucket.After;
    forall x | 0 <= x < |own| ensures Size(own[x].before) == c.limit && Pace(own[x].before) == rate {
      assert IsAnswer(LeakyBuckets, b, own[..x], own[x]);
    }
  }
}
