/** The resolver as a concurrent protocol: lookups in three steps, store writes by any worker, and
    invalidations, in any order. */
module ResolverRuns {
  import opened Prelude
  import opened Policies
  import opened Resolver

  type Thread = nat
  type Route = Option<string>

  /** The store's contents since an instant. */
  datatype Snapshot = Snapshot(at: real, stored: map<string, Policy>)

  /** A resolution together with the version of the store it was read from, and when. */
  datatype Reading = Reading(value: Effective, version: nat, readAt: real)

  /** A call between its steps: it has missed the cache, or read the store. */
  datatype Pending =
    | Missed(route: Route, begun: real)
    | Fetched(route: Route, begun: real, got: Reading)

  /** What a call returned: `begun` is the clock it compared the cache with, `stamped` the clock the
      reading's expiry was computed from. */
  datatype Return = Return(thread: Thread, route: Route, begun: real, got: Reading, stamped: real)

  datatype State = State(clock: real, versions: seq<Snapshot>, cache: seq<Entry<Reading>>,
                         pending: map<Thread, Pending>, answered: seq<Return>)

  datatype Settings = Settings(fallbacks: Fallbacks, ttl: real)

  /** Every step happens at an instant `at`; clocks read earlier in a step come with it. A
      store read that fails raises out of the call and leaves the cache alone. */
  datatype Step =
    | Check(at: real, thread: Thread, route: Route, begun: real)
    | Fetch(at: real, thread: Thread)
    | Finish(at: real, thread: Thread, stamped: real)
    | Raise(at: real, thread: Thread)
    | WriteStore(at: real, stored: map<string, Policy>)
    | Invalidate(at: real, route: Route)

  predicate Enabled(s: State, st: Step) {
    && s.clock <= st.at
    && s.versions != []
    && match st
       case Check(at, th, _, begun) => th !in s.pending && begun <= at
       case Fetch(_, th) => th in s.pending && s.pending[th].Missed?
       case Finish(at, th, stamped) => th in s.pending && s.pending[th].Fetched? && s.pending[th].got.readAt <= stamped <= at
       case Raise(_, th) => th in s.pending && s.pending[th].Missed?
       case WriteStore(_, _) => true
       case Invalidate(_, _) => true
  }

  function Current(s: State): nat
    requires s.versions != []
  {
    |s.versions| - 1
  }

  function Next(s: State, st: Step, p: Settings): State
    requires Enabled(s, st)
  {
    var now := s.(clock := st.at);
    match st
    case Check(_, th, route, begun) =>
      var found := Lookup(s.cache, route);
      if found.Some? && found.value.expires > begun then
        now.(answered := s.answered + [Return(th, route, begun, found.value.value, found.value.expires - p.ttl)])
      else now.(pending := s.pending[th := Missed(route, begun)])
    case Fetch(at, th) =>
      var c := s.pending[th];
      var value := Resolve(c.route, s.versions[Current(s)].stored, p.fallbacks);
      now.(pending := s.pending[th := Fetched(c.route, c.begun, Reading(value, Current(s), at))])
    case Finish(_, th, stamped) =>
      var c := s.pending[th];
      now.(cache := Newest(Assign(s.cache, Entry(c.route, stamped + p.ttl, c.got)), MAX_CACHED),
           pending := s.pending - {th},
           answered := s.answered + [Return(th, c.route, c.begun, c.got, stamped)])
    case Raise(_, th) => now.(pending := s.pending - {th})
    case WriteStore(at, stored) => now.(versions := s.versions + [Snapshot(at, stored)])
    case Invalidate(_, route) => now.(cache := Dropped(s.cache, route))
  }

  // ----- What every step keeps

  /** A version was what the store held at an instant. */
  predicate InForce(versions: seq<Snapshot>, v: nat, t: real) {
    && v < |versions| && versions[v].at <= t
    && (v + 1 < |versions| ==> t <= versions[v + 1].at)
  }

  /** A reading is the true resolution of its route at the instant it was read. */
  predicate Truthful(s: State, route: Route, r: Reading, p: Settings) {
    && InForce(s.versions, r.version, r.readAt) && r.readAt <= s.clock
    && r.value == Resolve(route, s.versions[r.version].stored, p.fallbacks)
  }

  /** What is promised of a returned value: it was true at `readAt`, and that instant lies within
      the call, or before it by less than the time to live plus the time the reading call itself
      took from reading to stamping. */
  predicate Promised(s: State, r: Return, p: Settings) {
    && Truthful(s, r.route, r.got, p)
    && r.got.readAt <= r.stamped
    && (r.begun <= r.got.readAt || r.begun - r.got.readAt < p.ttl + (r.stamped - r.got.readAt))
  }

  ghost predicate Kept(s: State, p: Settings) {
    && s.versions != [] && s.versions[Current(s)].at <= s.clock
    && OneEach(s.cache) && |s.cache| <= MAX_CACHED
    && (forall e :: e in s.cache ==> Truthful(s, e.route, e.value, p) && e.value.readAt <= e.expires - p.ttl <= s.clock)
    && (forall th :: th in s.pending ==> s.pending[th].begun <= s.clock)
    && (forall th :: th in s.pending && s.pending[th].Fetched? ==>
          Truthful(s, s.pending[th].route, s.pending[th].got, p) && s.pending[th].begun <= s.pending[th].got.readAt)
    && (forall i :: 0 <= i < |s.answered| ==> Promised(s, s.answered[i], p))
  }

  /** Later steps do not unmake what was true when it was read. */
  lemma {:induction false} StaysTruthful(s: State, st: Step, p: Settings)
    requires Kept(s, p) && Enabled(s, st)
    ensures forall route: Route, r: Reading :: Truthful(s, route, r, p) ==> Truthful(Next(s, st, p), route, r, p)
    ensures forall r: Return :: Promised(s, r, p) ==> Promised(Next(s, st, p), r, p)
  {
    var n := Next(s, st, p);
    forall route: Route, r: Reading | Truthful(s, route, r, p) ensures Truthful(n, route, r, p) {
      assert n.versions[r.version] == s.versions[r.version];
    }
  }

  lemma {:induction false} CheckKeeps(s: State, st: Step, p: Settings)
    requires Kept(s, p) && Enabled(s, st) && st.Check?
    ensures Kept(Next(s, st, p), p)
  {
    StaysTruthful(s, st, p);
    var n := Next(s, st, p);
    var found := Lookup(s.cache, st.route);
    if found.Some? && found.value.expires > st.begun {
      assert Promised(n, n.answered[|s.answered|], p);
      assert forall i :: 0 <= i < |s.answered| ==> n.answered[i] == s.answered[i];
    }
  }

  lemma {:induction false} FetchKeeps(s: State, st: Step, p: Settings)
    requires Kept(s, p) && Enabled(s, st) && st.Fetch?
    ensures Kept(Next(s, st, p), p)
  {
    StaysTruthful(s, st, p);
    var n := Next(s, st, p);
    assert Truthful(n, n.pending[st.thread].route, n.pending[st.thread].got, p);
  }

  lemma {:induction false} FinishKeeps(s: State, st: Step, p: Settings)
    requires Kept(s, p) && Enabled(s, st) && st.Finish?
    ensures Kept(Next(s, st, p), p)
  {
    hide Assign, Newest, Lookup, Resolve;
    StaysTruthful(s, st, p);
    var n := Next(s, st, p);
    var c := s.pending[st.thread];
    InsertedFound(s.cache, Entry(c.route, st.stamped + p.ttl, c.got));
    assert Promised(n, n.answered[|s.answered|], p);
    assert forall i :: 0 <= i < |s.answered| ==> n.answered[i] == s.answered[i];
  }

  lemma {:induction false} StepKeeps(s: State, st: Step, p: Settings)
    requires Kept(s, p) && Enabled(s, st)
    ensures Kept(Next(s, st, p), p)
  {
    match st
    case Check(_, _, _, _) => CheckKeeps(s, st, p);
    case Fetch(_, _) => FetchKeeps(s, st, p);
    case Finish(_, _, _) => FinishKeeps(s, st, p);
    case Raise(_, _) => StaysTruthful(s, st, p);
    case WriteStore(_, _) => StaysTruthful(s, st, p);
    case Invalidate(_, route) =>
      StaysTruthful(s, st, p);
      DroppedMembers(s.cache, route);
  }

  predicate RunEnabled(s: State, run: seq<Step>, p: Settings)
    decreases |run|
  {
    run == [] || (Enabled(s, run[0]) && RunEnabled(Next(s, run[0], p), run[1..], p))
  }

  function After(s: State, run: seq<Step>, p: Settings): State
    requires RunEnabled(s, run, p)
    decreases |run|
  {
    if run == [] then s else After(Next(s, run[0], p), run[1..], p)
  }

  lemma {:induction false} RunKeeps(s: State, run: seq<Step>, p: Settings)
    requires Kept(s, p) && RunEnabled(s, run, p)
    ensures Kept(After(s, run, p), p)
    decreases |run|
  {
    if run != [] {
      StepKeeps(s, run[0], p);
      RunKeeps(Next(s, run[0], p), run[1..], p);
    }
  }

  function Initial(at: real, stored: map<string, Policy>): State {
    State(at, [Snapshot(at, stored)], [], map[], [])
  }

  /** In every reachable interleaving, each value returned was the true resolution of the store at
      some instant no older than the time to live plus the latency of the call that read it. */
  lemma {:induction false} ReturnsWereTrueRecently(at: real, stored: map<string, Policy>, run: seq<Step>, p: Settings, i: nat)
    requires RunEnabled(Initial(at, stored), run, p) && i < |After(Initial(at, stored), run, p).answered|
    ensures var s := After(Initial(at, stored), run, p);
            Promised(s, s.answered[i], p)
  {
    RunKeeps(Initial(at, stored), run, p);
  }

  /** And the resolution is the documented one of what the store held then. */
  lemma {:induction false} AnswersFollowPrecedence(at: real, stored: map<string, Policy>, run: seq<Step>, p: Settings, i: nat)
    requires RunEnabled(Initial(at, stored), run, p) && i < |After(Initial(at, stored), run, p).answered|
    ensures var s := After(Initial(at, stored), run, p);
            var r := s.answered[i];
            && r.got.version < |s.versions|
            && Precedence(r.got.value, r.route, s.versions[r.got.version].stored, p.fallbacks.statics, p.fallbacks.globals)
  {
    hide RunEnabled, After, Resolve, Precedence;
    ReturnsWereTrueRecently(at, stored, run, p, i);
    var s := After(Initial(at, stored), run, p);
    var r := s.answered[i];
    ResolvesByPrecedence(r.route, s.versions[r.got.version].stored, p.fallbacks, r.got.value);
  }

  // ----- Is a write seen at once?

  /** No reading of the route older than version v is cached or on its way into the cache. */
  predicate NoneOlder(s: State, route: Route, v: nat) {
    && v < |s.versions|
    && (forall e :: e in s.cache && e.route == route ==> e.value.version >= v)
    && !OldInFlight(s, route, v)
  }

  /** Some call has read the store before version v and has not yet written to the cache. */
  predicate OldInFlight(s: State, route: Route, v: nat) {
    exists th :: th in s.pending && s.pending[th].Fetched? && s.pending[th].route == route && s.pending[th].got.version < v
  }

  lemma {:induction false} StepKeepsNoneOlder(s: State, st: Step, route: Route, v: nat, p: Settings)
    requires Kept(s, p) && Enabled(s, st) && NoneOlder(s, route, v)
    ensures NoneOlder(Next(s, st, p), route, v)
    ensures forall i :: |s.answered| <= i < |Next(s, st, p).answered| && Next(s, st, p).answered[i].route == route
              ==> Next(s, st, p).answered[i].got.version >= v
  {
    hide Assign, Newest, Dropped, Lookup, Resolve, Truthful, Promised;
    match st
    case Check(_, _, _, _) =>
    case Fetch(_, _) =>
    case Finish(_, th, stamped) =>
      var c := s.pending[th];
      InsertedFound(s.cache, Entry(c.route, stamped + p.ttl, c.got));
    case Raise(_, _) =>
    case WriteStore(_, _) =>
    case Invalidate(_, dropped) => DroppedMembers(s.cache, dropped);
  }

  lemma {:induction false} ReturnsGrow(s: State, run: seq<Step>, p: Settings)
    requires RunEnabled(s, run, p)
    ensures s.answered <= After(s, run, p).answered
    decreases |run|
  {
    if run != [] {
      ReturnsGrow(Next(s, run[0], p), run[1..], p);
    }
  }

  lemma {:induction false} RunKeepsNoneOlder(s: State, run: seq<Step>, route: Route, v: nat, p: Settings, i: nat)
    requires Kept(s, p) && RunEnabled(s, run, p) && NoneOlder(s, route, v)
    requires |s.answered| <= i < |After(s, run, p).answered| && After(s, run, p).answered[i].route == route
    ensures After(s, run, p).answered[i].got.version >= v
    decreases |run|
  {
    if run != [] {
      var n := Next(s, run[0], p);
      StepKeeps(s, run[0], p);
      StepKeepsNoneOlder(s, run[0], route, v, p);
      ReturnsGrow(n, run[1..], p);
      if i < |n.answered| {
        assert After(s, run, p).answered[i] == n.answered[i];
      } else {
        RunKeepsNoneOlder(n, run[1..], route, v, p, i);
      }
    }
  }

  /** Whatever happens from here, no call of a thread that is idle now returns a reading of the
      route older than version v. */
  ghost predicate SeenAtOnce(s: State, route: Route, v: nat, p: Settings) {
    forall run: seq<Step> {:trigger RunEnabled(s, run, p)} :: RunEnabled(s, run, p) ==>
      forall i :: |s.answered| <= i < |After(s, run, p).answered|
                  && After(s, run, p).answered[i].route == route && After(s, run, p).answered[i].thread !in s.pending
                  ==> After(s, run, p).answered[i].got.version >= v
  }

  /** In every reachable state right after the route (or everything) is invalidated, all later
      calls see version v of the store, or a later one, if and only if no call that read the
      store before v is still on its way to the cache. The promise of RateGuard's README.md:354 that an
      update takes effect immediately holds without such a call and fails with one. */
  lemma {:induction false} SeenAtOnceIff(s: State, st: Step, route: Route, v: nat, p: Settings)
    requires Kept(s, p) && Enabled(s, st) && v < |s.versions| && p.ttl > 0.0
    requires st.Invalidate? && (st.route == route || st.route == None)
    ensures SeenAtOnce(Next(s, st, p), route, v, p) <==> !OldInFlight(s, route, v)
  {
    var n := Next(s, st, p);
    StepKeeps(s, st, p);
    DroppedMembers(s.cache, st.route);
    assert OldInFlight(n, route, v) <==> OldInFlight(s, route, v);
    if OldInFlight(s, route, v) {
      StaleReturn(n, route, v, p);
    } else {
      assert NoneOlder(n, route, v);
      forall run: seq<Step>, i | RunEnabled(n, run, p) && |n.answered| <= i < |After(n, run, p).answered|
                                 && After(n, run, p).answered[i].route == route
        ensures After(n, run, p).answered[i].got.version >= v
      {
        RunKeepsNoneOlder(n, run, route, v, p, i);
      }
    }
  }

  /** The bad run: the old call stores its reading, and a new call finds it. */
  lemma {:induction false} StaleReturn(s: State, route: Route, v: nat, p: Settings)
    requires Kept(s, p) && p.ttl > 0.0 && OldInFlight(s, route, v)
    ensures !SeenAtOnce(s, route, v, p)
  {
    hide Assign, Newest, Dropped, Lookup, Resolve, Promised;
    var oldCall: Thread :| oldCall in s.pending && s.pending[oldCall].Fetched? && s.pending[oldCall].route == route
                            && s.pending[oldCall].got.version < v;
    var newCall := IdleThread(s.pending.Keys);
    var got := s.pending[oldCall].got;
    var finish := Finish(s.clock, oldCall, s.clock);
    var s1 := Next(s, finish, p);
    InsertedFound(s.cache, Entry(route, s.clock + p.ttl, got));
    assert Lookup(s1.cache, route) == Some(Entry(route, s.clock + p.ttl, got));
    var check := Check(s.clock, newCall, route, s.clock);
    var s2 := Next(s1, check, p);
    var run := [finish, check];
    assert run[1..] == [check] && [check][1..] == [];
    assert RunEnabled(s2, [], p) && RunEnabled(s1, [check], p) && RunEnabled(s, run, p);
    assert After(s1, [check], p) == s2 && After(s, run, p) == s2;
    var i := |s.answered| + 1;
    assert s2.answered[i].got == got && s2.answered[i].thread == newCall;
  }

  lemma {:induction false} OneStepMore(s: State, st: Step, rest: seq<Step>, p: Settings)
    requires Enabled(s, st) && RunEnabled(Next(s, st, p), rest, p)
    ensures RunEnabled(s, [st] + rest, p) && After(s, [st] + rest, p) == After(Next(s, st, p), rest, p)
  {
    hide Next;
    assert ([st] + rest)[0] == st && ([st] + rest)[1..] == rest;
  }

  /** Such a state is reached, whatever the stores hold: a call misses the cache and reads the store, and
      before it stores its reading the policies are written and the route invalidated. From there on
      some call that starts after both still gets the old version. */
  lemma {:induction false} StaleReached(at: real, before: map<string, Policy>, after: map<string, Policy>, route: Route, p: Settings)
    requires p.ttl > 0.0
    ensures var run := [Check(at, 0, route, at), Fetch(at, 0), WriteStore(at, after), Invalidate(at, route)];
            && RunEnabled(Initial(at, before), run, p)
            && var s := After(Initial(at, before), run, p);
               && s.versions == [Snapshot(at, before), Snapshot(at, after)]
               && OldInFlight(s, route, 1) && !SeenAtOnce(s, route, 1, p)
  {
    hide SeenAtOnce, Resolve;
    var s0 := Initial(at, before);
    var run := [Check(at, 0, route, at), Fetch(at, 0), WriteStore(at, after), Invalidate(at, route)];
    var s1 := Next(s0, run[0], p);
    assert s1.pending == map[0 := Missed(route, at)];
    var s2 := Next(s1, run[1], p);
    var s3 := Next(s2, run[2], p);
    var s4 := Next(s3, run[3], p);
    OneStepMore(s3, run[3], [], p);
    OneStepMore(s2, run[2], [run[3]], p);
    OneStepMore(s1, run[1], [run[2], run[3]], p);
    OneStepMore(s0, run[0], [run[1], run[2], run[3]], p);
    assert [run[3]] + [] == [run[3]] && [run[2]] + [run[3]] == [run[2], run[3]];
    assert [run[1]] + [run[2], run[3]] == [run[1], run[2], run[3]] && [run[0]] + [run[1], run[2], run[3]] == run;
    RunKeeps(s0, run, p);
    assert 0 in s4.pending && s4.pending[0].Fetched? && s4.pending[0].got.version == 0;
    StaleReturn(s4, route, 1, p);
  }

  /** A thread that is not in flight. */
  ghost function IdleThread(busy: set<Thread>): (th: Thread)
    ensures th !in busy && forall b :: b in busy ==> b < th
    decreases |busy|
  {
    if busy == {} then 0
    else
      var b :| b in busy;
      assert busy == (busy - {b}) + {b};
      var rest := IdleThread(busy - {b});
      if b < rest then rest else b + 1
  }
}
