/** The admin handlers as concurrent clients of the policy store (app/main.py:613-758): create and
    update look first and write later, and other handlers may write in between. */
module AdminRuns {
  import opened Prelude
  import opened Policies
  import opened PolicyStore

  type Thread = nat

  /** A handler between its look and its write. `seen` is the length of the trail at its look. */
  datatype Pending =
    | Creating(policy: Policy, seen: nat)
    | Updating(fields: Fields, snapshot: Policy, seen: nat)

  /** `seen[i]` and `asked[i]` remember, for the i-th event, when its handler looked and with what
      fields. */
  datatype State = State(ledger: Ledger, seen: seq<nat>, asked: seq<Option<Fields>>, pending: map<Thread, Pending>)

  /** Every write carries whether its append succeeds. */
  datatype Step =
    | LookForCreate(thread: Thread, policy: Policy)
    | LookForUpdate(thread: Thread, route: string, fields: Fields)
    | Write(thread: Thread, eventId: string, recorded: bool)
    | DeleteNow(route: string, eventId: string, recorded: bool)

  const ADMIN := "admin"

  predicate Enabled(s: State, st: Step) {
    match st
    case LookForCreate(th, _) => th !in s.pending
    case LookForUpdate(th, _, _) => th !in s.pending
    case Write(th, _, _) => th in s.pending
    case DeleteNow(_, _, _) => true
  }

  /** The event a pending handler writes; its previous policy is filled in by the store. */
  function EventOf(p: Pending, eventId: string): Event {
    match p
    case Creating(policy, _) => Event(eventId, Create, policy.route, None, Some(policy), ADMIN)
    case Updating(fields, snapshot, _) =>
      Event(eventId, Update, snapshot.route, Some(snapshot), Some(Merge(snapshot, fields)), ADMIN)
  }

  function Logged(s: State, e: Event, seen: nat, asked: Option<Fields>): State {
    s.(ledger := Commit(s.ledger, e), seen := s.seen + [seen], asked := s.asked + [asked])
  }

  function Next(s: State, st: Step): State
    requires Enabled(s, st)
  {
    match st
    case LookForCreate(th, policy) =>
      // A policy that is already there is answered with 409.
      if policy.route in s.ledger.policies then s
      else s.(pending := s.pending[th := Creating(policy, |s.ledger.trail|)])
    case LookForUpdate(th, route, fields) =>
      // A missing policy is answered with 404.
      if route !in s.ledger.policies then s
      else s.(pending := s.pending[th := Updating(fields, s.ledger.policies[route], |s.ledger.trail|)])
    case Write(th, eventId, recorded) =>
      var p := s.pending[th];
      var done := s.(pending := s.pending - {th});
      if !recorded then done
      else Logged(done, EventOf(p, eventId), p.seen, if p.Updating? then Some(p.fields) else None)
    case DeleteNow(route, eventId, recorded) =>
      if route !in s.ledger.policies || !recorded then s
      else Logged(s, Event(eventId, Delete, route, None, None, ADMIN), |s.ledger.trail|, None)
  }

  const INITIAL := State(Ledger(map[], []), [], [], map[])

  /** What the i-th event says about the trail its handler looked at and the trail it was added to. */
  predicate Honest(s: State, i: nat)
    requires i < |s.ledger.trail| == |s.seen| == |s.asked|
  {
    var e, seen := s.ledger.trail[i], s.seen[i];
    && seen <= i
    && e.actor == "admin"
    && e.previous == LastOn(s.ledger.trail[..i], e.route)
    && match e.operation
       case Create => e.next.Some? && LastOn(s.ledger.trail[..seen], e.route) == None
       case Update =>
         && LastOn(s.ledger.trail[..seen], e.route).Some? && s.asked[i].Some?
         && e.next == Some(Merge(LastOn(s.ledger.trail[..seen], e.route).value, s.asked[i].value))
       case Delete => e.previous.Some? && e.next == None && seen == i
  }

  /** What a handler in flight looked at. */
  predicate PendingHonest(s: State, p: Pending) {
    && p.seen <= |s.ledger.trail|
    && match p
       case Creating(policy, seen) => LastOn(s.ledger.trail[..seen], policy.route) == None
       case Updating(_, snapshot, seen) => LastOn(s.ledger.trail[..seen], snapshot.route) == Some(snapshot)
  }

  ghost predicate Good(s: State) {
    && Consistent(s.ledger)
    && (forall r :: r in s.ledger.policies ==> s.ledger.policies[r].route == r)
    && |s.ledger.trail| == |s.seen| == |s.asked|
    && (forall i: nat :: i < |s.ledger.trail| ==> Honest(s, i))
    && (forall th :: th in s.pending ==> PendingHonest(s, s.pending[th]))
  }

  lemma {:induction false} LoggedGood(s: State, e: Event, seen: nat, asked: Option<Fields>)
    requires Good(s) && seen <= |s.ledger.trail|
    requires e.actor == "admin"
    requires e.next.Some? ==> e.next.value.route == e.route
    requires match e.operation
             case Create => e.next.Some? && LastOn(s.ledger.trail[..seen], e.route) == None
             case Update =>
               && LastOn(s.ledger.trail[..seen], e.route).Some? && asked.Some?
               && e.next == Some(Merge(LastOn(s.ledger.trail[..seen], e.route).value, asked.value))
             case Delete => e.route in s.ledger.policies && e.next == None && seen == |s.ledger.trail|
    ensures Good(Logged(s, e, seen, asked))
  {
    var r := Logged(s, e, seen, asked);
    var trail := s.ledger.trail;
    CommitConsistent(s.ledger, e);
    ReplayIsLastOn(trail, e.route);
    assert forall k: nat :: k <= |trail| ==> r.ledger.trail[..k] == trail[..k];
    assert trail[..|trail|] == trail;
    forall i: nat | i < |r.ledger.trail| ensures Honest(r, i) {
      if i < |trail| {
        assert Honest(s, i);
      }
    }
    forall th | th in r.pending ensures PendingHonest(r, r.pending[th]) {
      assert PendingHonest(s, s.pending[th]);
    }
  }

  lemma {:induction false} FewerPendingGood(s: State, th: Thread)
    requires Good(s)
    ensures Good(s.(pending := s.pending - {th}))
  {
    var r := s.(pending := s.pending - {th});
    forall i: nat | i < |r.ledger.trail| ensures Honest(r, i) {
      assert Honest(s, i);
    }
    forall t | t in r.pending ensures PendingHonest(r, r.pending[t]) {
      assert PendingHonest(s, s.pending[t]);
    }
  }

  lemma {:induction false} MorePendingGood(s: State, th: Thread, p: Pending)
    requires Good(s) && PendingHonest(s, p)
    ensures Good(s.(pending := s.pending[th := p]))
  {
    var r := s.(pending := s.pending[th := p]);
    forall i: nat | i < |r.ledger.trail| ensures Honest(r, i) {
      assert Honest(s, i);
    }
    forall t | t in r.pending ensures PendingHonest(r, r.pending[t]) {
      if t != th {
        assert PendingHonest(s, s.pending[t]);
      }
    }
  }

  lemma {:induction false} StepGood(s: State, st: Step)
    requires Good(s) && Enabled(s, st)
    ensures Good(Next(s, st))
  {
    var trail := s.ledger.trail;
    assert trail[..|trail|] == trail;
    match st
    case LookForCreate(th, policy) =>
      ReplayIsLastOn(trail, policy.route);
      if policy.route !in s.ledger.policies {
        MorePendingGood(s, th, Creating(policy, |trail|));
      }
    case LookForUpdate(th, route, fields) =>
      ReplayIsLastOn(trail, route);
      if route in s.ledger.policies {
        MorePendingGood(s, th, Updating(fields, s.ledger.policies[route], |trail|));
      }
    case Write(th, eventId, recorded) =>
      var p := s.pending[th];
      assert PendingHonest(s, p);
      FewerPendingGood(s, th);
      if recorded {
        LoggedGood(s.(pending := s.pending - {th}), EventOf(p, eventId), p.seen, if p.Updating? then Some(p.fields) else None);
      }
    case DeleteNow(route, eventId, recorded) =>
      if route in s.ledger.policies && recorded {
        LoggedGood(s, Event(eventId, Delete, route, None, None, ADMIN), |trail|, None);
      }
  }

  predicate RunEnabled(s: State, run: seq<Step>)
    decreases |run|
  {
    run == [] || (Enabled(s, run[0]) && RunEnabled(Next(s, run[0]), run[1..]))
  }

  function After(s: State, run: seq<Step>): State
    requires RunEnabled(s, run)
    decreases |run|
  {
    if run == [] then s else After(Next(s, run[0]), run[1..])
  }

  lemma {:induction false} RunGood(s: State, run: seq<Step>)
    requires Good(s) && RunEnabled(s, run)
    ensures Good(After(s, run))
    decreases |run|
  {
    if run != [] {
      StepGood(s, run[0]);
      RunGood(Next(s, run[0]), run[1..]);
    }
  }

  lemma {:induction false} InitialGood()
    ensures Good(INITIAL)
  {
  }

  /** For every interleaving of create, update and delete handlers and every pattern of failing
      appends, the stored policies are the replay of the trail and each event's previous policy is
      the new policy of the event before it on its route. */
  lemma {:induction false} PoliciesAreReplay(run: seq<Step>)
    requires RunEnabled(INITIAL, run)
    ensures Consistent(After(INITIAL, run).ledger)
  {
    InitialGood();
    RunGood(INITIAL, run);
  }

  // ----- What the labels of the events mean

  /** An event says what its label promises (RateGuard's README.md:394): a create replaced nothing, an update
      replaced the policy its fields were merged into, a delete replaced a policy by none. */
  predicate AsLabelled(e: Event, asked: Option<Fields>) {
    match e.operation
    case Create => e.previous == None && e.next.Some?
    case Update => e.previous.Some? && asked.Some? && e.next == Some(Merge(e.previous.value, asked.value))
    case Delete => e.previous.Some? && e.next == None
  }

  lemma {:induction false} LastOnUnchanged(trail: seq<Event>, from: nat, until: nat, route: string)
    requires from <= until <= |trail|
    requires forall j :: from <= j < until ==> trail[j].route != route
    ensures LastOn(trail[..until], route) == LastOn(trail[..from], route)
    decreases until
  {
    if from < until {
      assert trail[..until][..until - 1] == trail[..until - 1];
      LastOnUnchanged(trail, from, until - 1, route);
    }
  }

  /** The latest event on a route among trail[from..to], if there is one. */
  function LatestIndex(trail: seq<Event>, from: nat, until: nat, route: string): (r: Option<nat>)
    requires from <= until <= |trail|
    ensures r.Some? ==> from <= r.value < until && trail[r.value].route == route
    ensures r.Some? ==> (forall j :: r.value < j < until ==> trail[j].route != route)
    ensures r.None? ==> (forall j :: from <= j < until ==> trail[j].route != route)
    decreases until
  {
    if from == until then None
    else if trail[until - 1].route == route then Some(until - 1)
    else LatestIndex(trail, from, until - 1, route)
  }

  /** What the i-th event replaced: what the latest event that overtook it left, or else what its
      handler had looked at. */
  lemma {:induction false} PreviousByLatest(run: seq<Step>, i: nat)
    requires RunEnabled(INITIAL, run) && i < |After(INITIAL, run).ledger.trail|
    ensures var s := After(INITIAL, run);
            && |s.seen| == |s.asked| == |s.ledger.trail| && Honest(s, i)
            && var trail, e := s.ledger.trail, s.ledger.trail[i];
               var latest := LatestIndex(trail, s.seen[i], i, e.route);
               e.previous == if latest.Some? then trail[latest.value].next else LastOn(trail[..s.seen[i]], e.route)
  {
    hide After, RunEnabled, Chained, Replay;
    InitialGood();
    RunGood(INITIAL, run);
    var s := After(INITIAL, run);
    assert Honest(s, i);
    var trail, e := s.ledger.trail, s.ledger.trail[i];
    var latest := LatestIndex(trail, s.seen[i], i, e.route);
    if latest.Some? {
      var j := latest.value;
      LastOnUnchanged(trail, j + 1, i, e.route);
      assert trail[..j + 1][..j] == trail[..j];
    } else {
      LastOnUnchanged(trail, s.seen[i], i, e.route);
    }
  }

  /** Exactly when: nothing overtook it, or the latest event that did left what makes the label true
      all the same. A delete looks and writes in one step, so its label is always true. */
  lemma {:induction false} LabelsMeanWhatTheySay(run: seq<Step>, i: nat)
    requires RunEnabled(INITIAL, run) && i < |After(INITIAL, run).ledger.trail|
    ensures var s := After(INITIAL, run);
            && |s.seen| == |s.asked| == |s.ledger.trail| && s.seen[i] <= i
            && var trail, e, asked := s.ledger.trail, s.ledger.trail[i], s.asked[i];
               var latest := LatestIndex(trail, s.seen[i], i, e.route);
               AsLabelled(e, asked)
               <==> latest.None? || match e.operation
                                    case Create => trail[latest.value].next == None
                                    case Update => asked.Some? && trail[latest.value].next.Some?
                                                   && e.next == Some(Merge(trail[latest.value].next.value, asked.value))
                                    case Delete => true
  {
    hide After, RunEnabled;
    PreviousByLatest(run, i);
  }

  /** What an update writes, in every run: each field asked for has the value asked for, and each other one
      the value its handler looked at. */
  lemma {:induction false} UpdateWritesFields(run: seq<Step>, i: nat)
    requires RunEnabled(INITIAL, run) && i < |After(INITIAL, run).ledger.trail|
    requires After(INITIAL, run).ledger.trail[i].operation == Update
    ensures var s := After(INITIAL, run);
            && |s.seen| == |s.asked| == |s.ledger.trail| && s.seen[i] <= i && s.asked[i].Some?
            && var e, asked := s.ledger.trail[i], s.asked[i].value;
               var looked := LastOn(s.ledger.trail[..s.seen[i]], e.route);
               looked.Some? && e.next.Some? && Updated(e.next.value, looked.value, asked.limit, asked.window, asked.enabled)
  {
    hide After, RunEnabled, Merge, Updated;
    PreviousByLatest(run, i);
    var s := After(INITIAL, run);
    var e, asked := s.ledger.trail[i], s.asked[i].value;
    MergeUpdates(LastOn(s.ledger.trail[..s.seen[i]], e.route).value, asked, e.next.value);
  }

  /** A create is logged with a previous policy exactly when it was overtaken and the latest event
      that overtook it left a policy. */
  lemma {:induction false} CreateReplacesIff(run: seq<Step>, i: nat)
    requires RunEnabled(INITIAL, run) && i < |After(INITIAL, run).ledger.trail|
    requires After(INITIAL, run).ledger.trail[i].operation == Create
    ensures var s := After(INITIAL, run);
            && |s.seen| == |s.ledger.trail| && s.seen[i] <= i
            && var trail, e := s.ledger.trail, s.ledger.trail[i];
               var latest := LatestIndex(trail, s.seen[i], i, e.route);
               e.previous.Some? <==> latest.Some? && trail[latest.value].next.Some?
  {
    hide After, RunEnabled;
    PreviousByLatest(run, i);
  }

  /** An update's event says what its label promises, the fields asked for merged into the policy it
      replaced, exactly when nothing overtook it, or the latest event that did left a policy that
      merges to the same. Otherwise a change made in between is lost. */
  lemma {:induction false} UpdateMergesIff(run: seq<Step>, i: nat)
    requires RunEnabled(INITIAL, run) && i < |After(INITIAL, run).ledger.trail|
    requires After(INITIAL, run).ledger.trail[i].operation == Update
    ensures var s := After(INITIAL, run);
            && |s.seen| == |s.asked| == |s.ledger.trail| && s.seen[i] <= i && s.asked[i].Some?
            && var trail, e, asked := s.ledger.trail, s.ledger.trail[i], s.asked[i].value;
               var looked := LastOn(trail[..s.seen[i]], e.route);
               var latest := LatestIndex(trail, s.seen[i], i, e.route);
               && looked.Some?
               && (e.previous.Some? && e.next == Some(Merge(e.previous.value, asked))
                   <==> latest.None? || (trail[latest.value].next.Some?
                                         && Merge(trail[latest.value].next.value, asked) == Merge(looked.value, asked)))
  {
    hide After, RunEnabled;
    PreviousByLatest(run, i);
  }

  /** Two racing creates are both accepted and the second is logged as a create over the first. */
  lemma {:induction false} RacingCreates(first: Policy, second: Policy)
    requires first.route == second.route
    ensures var run := [LookForCreate(0, first), LookForCreate(1, second), Write(0, "a", true), Write(1, "b", true)];
            && RunEnabled(INITIAL, run)
            && var trail := After(INITIAL, run).ledger.trail;
               |trail| == 2 && trail[1].operation == Create && trail[1].previous == Some(first)
  {
    var run := [LookForCreate(0, first), LookForCreate(1, second), Write(0, "a", true), Write(1, "b", true)];
    var s1 := Next(INITIAL, run[0]);
    var s2 := Next(s1, run[1]);
    var s3 := Next(s2, run[2]);
    var s4 := Next(s3, run[3]);
    assert run[1..][0] == run[1] && run[1..][1..][0] == run[2] && run[1..][1..][1..][0] == run[3];
    assert run[1..][1..][1..][1..] == [];
    assert After(s3, run[1..][1..][1..]) == s4;
    assert After(s2, run[1..][1..]) == s4;
    assert After(s1, run[1..]) == s4;
  }

  /** Two racing updates of different fields: the later write restores the field the earlier one
      had changed, because it merged into the policy it saw before. */
  lemma {:induction false} LostUpdate(p: Policy, limit: int, window: int)
    ensures var f, g := Fields(Some(limit), None, None), Fields(None, Some(window), None);
            var run := [LookForCreate(0, p), Write(0, "a", true), LookForUpdate(0, p.route, f),
                        LookForUpdate(1, p.route, g), Write(0, "b", true), Write(1, "c", true)];
            && RunEnabled(INITIAL, run)
            && Get(After(INITIAL, run).ledger.policies, p.route) == Some(p.(window := window))
  {
    var f, g := Fields(Some(limit), None, None), Fields(None, Some(window), None);
    var run := [LookForCreate(0, p), Write(0, "a", true), LookForUpdate(0, p.route, f),
                LookForUpdate(1, p.route, g), Write(0, "b", true), Write(1, "c", true)];
    var s1 := Next(INITIAL, run[0]);
    var s2 := Next(s1, run[1]);
    var s3 := Next(s2, run[2]);
    var s4 := Next(s3, run[3]);
    var s5 := Next(s4, run[4]);
    var s6 := Next(s5, run[5]);
    var r1, r2, r3, r4, r5 := run[1..], run[2..], run[3..], run[4..], run[5..];
    assert r1[1..] == r2 && r2[1..] == r3 && r3[1..] == r4 && r4[1..] == r5 && r5[1..] == [];
    assert RunEnabled(s5, r5) && RunEnabled(s4, r4);
    assert RunEnabled(s3, r3) && RunEnabled(s2, r2);
    assert RunEnabled(s1, r1) && RunEnabled(INITIAL, run);
    assert After(s5, r5) == s6;
    assert After(s4, r4) == s6;
    assert After(s3, r3) == s6;
    assert After(s2, r2) == s6;
    assert After(s1, r1) == s6;
  }
}
