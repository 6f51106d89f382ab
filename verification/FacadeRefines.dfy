/** The facade's objects as a state of FacadeRuns, and its two steps as steps there. */
module FacadeRefines {
  import opened Prelude
  import opened LruTable
  import opened Limiters
  import opened Facade
  import opened FacadeRuns

  /** Which limiter object is the how-manieth made for which key. */
  datatype Naming = Naming(made: map<string, seq<Handle>>, ids: map<object, Id>)

  function IdOf(n: Naming, h: Handle): Id {
    if Object(h) in n.ids then n.ids[Object(h)] else Id("", 0)
  }

  function HandlesOf(n: Naming, key: string): seq<Handle> {
    if key in n.made then n.made[key] else []
  }

  /** Every object made has its own number. */
  ghost predicate Numbered(n: Naming, repr: set<object>) {
    forall k: string, i :: 0 <= i < |HandlesOf(n, k)| ==> HasNumber(n, repr, k, i)
  }

  predicate HasNumber(n: Naming, repr: set<object>, k: string, i: nat)
    requires i < |HandlesOf(n, k)|
  {
    var o := Object(HandlesOf(n, k)[i]);
    o in repr && o in n.ids && n.ids[o] == Id(k, i)
  }

  /** The table's limiters are numbered under the key of their entry. */
  predicate Listed(es: seq<Entry<Handle>>, n: Naming) {
    forall e :: e in es ==> OwnKey(n, e)
  }

  predicate OwnKey(n: Naming, e: Entry<Handle>) {
    var id := IdOf(n, e.limiter);
    id.key == e.key && id.index < |HandlesOf(n, e.key)| && HandlesOf(n, e.key)[id.index] == e.limiter
  }

  function Renamed(t: seq<Entry<Handle>>, n: Naming): (r: seq<Entry<Id>>)
    ensures |r| == |t|
    ensures forall i :: 0 <= i < |t| ==> r[i] == Entry(t[i].key, IdOf(n, t[i].limiter), t[i].created)
    ensures Names(r) == Names(t)
  {
    seq(|t|, i requires 0 <= i < |t| => Entry(t[i].key, IdOf(n, t[i].limiter), t[i].created))
  }

  /** The state of FacadeRuns the objects stand for, with what threads hold between their steps. */
  ghost predicate StandsFor(r: RateLimiter, n: Naming, s: State)
    reads r, r.repr
  {
    && r.Valid() && Numbered(n, r.repr) && Listed(r.limiters, n)
    && s.table == Renamed(r.limiters, n)
    && (forall k: string :: |Made(s, k)| == |HandlesOf(n, k)|)
    && (forall k: string, i :: 0 <= i < |HandlesOf(n, k)| ==> HasNumber(n, r.repr, k, i) && Made(s, k)[i] == View(HandlesOf(n, k)[i]))
    && (forall th :: th in s.inFlight ==> s.inFlight[th].index < |Made(s, s.inFlight[th].key)|)
  }

  lemma {:induction false} RenamedFind(t: seq<Entry<Handle>>, n: Naming, key: string)
    ensures var found, id := Find(t, key), Find(Renamed(t, n), key);
            id == if found.Some? then Some(Entry(key, IdOf(n, found.value.limiter), found.value.created)) else None
    decreases |t|
  {
    if t != [] {
      assert Renamed(t, n)[1..] == Renamed(t[1..], n);
      RenamedFind(t[1..], n, key);
    }
  }

  lemma {:induction false} RenamedFirst(e: Entry<Handle>, rest: seq<Entry<Handle>>, n: Naming)
    ensures Renamed([e] + rest, n) == [Entry(e.key, IdOf(n, e.limiter), e.created)] + Renamed(rest, n)
  {
    hide Names, IdOf;
  }

  lemma {:induction false} RenamedWithout(t: seq<Entry<Handle>>, n: Naming, key: string)
    ensures Renamed(Without(t, key), n) == Without(Renamed(t, n), key)
    decreases |t|
  {
    hide Names, IdOf, Renamed;
    if t != [] {
      assert t == [t[0]] + t[1..];
      RenamedFirst(t[0], t[1..], n);
      if t[0].key != key {
        RenamedWithout(t[1..], n, key);
        RenamedFirst(t[0], Without(t[1..], key), n);
      }
    }
  }

  lemma {:induction false} RenamedParts(a: seq<Entry<Handle>>, e: Entry<Handle>, n: Naming, most: nat)
    ensures Renamed(a + [e], n) == Renamed(a, n) + [Entry(e.key, IdOf(n, e.limiter), e.created)]
    ensures Renamed(Newest(a + [e], most), n) == Newest(Renamed(a + [e], n), most)
  {
    hide Names, IdOf;
  }

  /** Naming the limiters and one step of the least-recently-used list can be exchanged. */
  lemma {:induction false} RenamedTouch(t: seq<Entry<Handle>>, n: Naming, key: string, h: Handle, now: real, ttl: real, maxKeys: nat)
    ensures Hit(Renamed(t, n), key, now, ttl) == Hit(t, key, now, ttl)
    ensures Renamed(Touch(t, key, h, now, ttl, maxKeys), n) == Touch(Renamed(t, n), key, IdOf(n, h), now, ttl, maxKeys)
  {
    hide Names, IdOf, Find, Without, Newest, Renamed;
    RenamedFind(t, n, key);
    RenamedWithout(t, n, key);
    RenamedParts(Without(t, key), Entry(key, h, now), n, maxKeys);
    var found := Find(t, key);
    if found.Some? {
      RenamedParts(Without(t, key), found.value, n, maxKeys);
    }
  }

  lemma {:induction false} StandsForValid(r: RateLimiter, n: Naming, s: State)
    requires StandsFor(r, n, s)
    ensures Valid(s)
  {
    forall e | e in s.table ensures e.limiter.key == e.key && e.limiter.index < |Made(s, e.key)| {
      var i :| 0 <= i < |s.table| && s.table[i] == e;
      assert r.limiters[i] in r.limiters;
    }
  }

  /** The naming after a lookup has made h, if it did. */
  function WithNew(n: Naming, key: string, h: Handle): Naming {
    Naming(n.made[key := HandlesOf(n, key) + [h]], n.ids[Object(h) := Id(key, |HandlesOf(n, key)|)])
  }

  lemma {:induction false} RenamedSame(t: seq<Entry<Handle>>, n: Naming, n': Naming)
    requires forall e :: e in t ==> IdOf(n, e.limiter) == IdOf(n', e.limiter)
    ensures Renamed(t, n) == Renamed(t, n')
  {
    assert forall i :: 0 <= i < |t| ==> t[i] in t;
  }

  /** h is the limiter its number says. */
  predicate Holds(n: Naming, h: Handle) {
    var id := IdOf(n, h);
    id.index < |HandlesOf(n, id.key)| && HandlesOf(n, id.key)[id.index] == h
  }

  function SettingsOf(r: RateLimiter): Settings {
    Settings(r.algorithm, r.maxKeys, r.keyTtl)
  }

  lemma {:induction false} TouchListed(t: seq<Entry<Handle>>, n: Naming, key: string, h: Handle, now: real, ttl: real, maxKeys: nat)
    requires Unique(Names(t)) && Listed(t, n) && (Hit(t, key, now, ttl) || OwnKey(n, Entry(key, h, now)))
    ensures Listed(Touch(t, key, h, now, ttl, maxKeys), n)
  {
    hide Unique, Names, OwnKey, Touch, Hit;
    TouchUnique(t, key, h, now, ttl, maxKeys);
  }

  lemma {:induction false} NewIsNumbered(t: seq<Entry<Handle>>, n: Naming, key: string, h: Handle, repr: set<object>)
    requires Numbered(n, repr) && Listed(t, n) && Object(h) !in repr && forall e :: e in t ==> Object(e.limiter) in repr
    ensures Numbered(WithNew(n, key, h), repr + {Object(h)}) && Listed(t, WithNew(n, key, h))
    ensures forall e :: e in t ==> IdOf(n, e.limiter) == IdOf(WithNew(n, key, h), e.limiter)
    ensures IdOf(WithNew(n, key, h), h) == Id(key, |HandlesOf(n, key)|)
    ensures forall now: real :: OwnKey(WithNew(n, key, h), Entry(key, h, now))
  {
    var n' := WithNew(n, key, h);
    forall k: string, i | 0 <= i < |HandlesOf(n', k)| ensures HasNumber(n', repr + {Object(h)}, k, i) {
      if i < |HandlesOf(n, k)| {
        assert HasNumber(n, repr, k, i);
      }
    }
    forall e | e in t ensures OwnKey(n', e) {
      assert OwnKey(n, e);
    }
  }

  /** A facade just built stands for the initial state. */
  lemma {:induction false} BuiltStands(r: RateLimiter)
    requires r.Valid() && r.limiters == []
    ensures StandsFor(r, Naming(map[], map[]), INITIAL)
  {
  }

  // ----- The lookup

  lemma {:induction false} HitStands(r: RateLimiter, before: seq<Entry<Handle>>, n: Naming, s: State, h: Handle, st: Step)
    requires r.Valid() && Numbered(n, r.repr) && Listed(before, n) && Unique(Names(before)) && s.table == Renamed(before, n)
    requires Valid(s) && Enabled(s, st) && st.Lookup? && Hit(before, st.key, st.now, r.keyTtl)
    requires h == Find(before, st.key).value.limiter
    requires r.limiters == Touch(before, st.key, h, st.now, r.keyTtl, r.maxKeys)
    requires forall k: string :: |Made(s, k)| == |HandlesOf(n, k)|
    requires forall k: string, i :: 0 <= i < |HandlesOf(n, k)| ==>
               View(HandlesOf(n, k)[i]) == if HandlesOf(n, k)[i] == h then Retune(Made(s, k)[i], st.config) else Made(s, k)[i]
    ensures StandsFor(r, n, Next(s, st, SettingsOf(r))) && Next(s, st, SettingsOf(r)).inFlight == s.inFlight[st.thread := IdOf(n, h)]
  {
    hide Touch, Hit, Names, Unique, Retune, Create, View, Find, Renamed, Next, Made, IdOf;
    var p := SettingsOf(r);
    var next := Next(s, st, p);
    NextValid(s, st, p);
    AfterLookup(s, st, p);
    TouchListed(before, n, st.key, h, st.now, r.keyTtl, r.maxKeys);
    RenamedTouch(before, n, st.key, h, st.now, r.keyTtl, r.maxKeys);
    RenamedFind(before, n, st.key);
    HitIgnoresMade(s.table, st.key, IdOf(n, h), Id(st.key, |Made(s, st.key)|), st.now, r.keyTtl, r.maxKeys);
    var at := IdOf(n, h);
    FoundOwnKey(before, n, st.key, st.now, r.keyTtl);
    forall k: string ensures |Made(next, k)| == |HandlesOf(n, k)|
      ensures forall i :: 0 <= i < |HandlesOf(n, k)| ==> HasNumber(n, r.repr, k, i) && Made(next, k)[i] == View(HandlesOf(n, k)[i])
    {
      LookupMakes(s, st, k, p);
      forall i | 0 <= i < |HandlesOf(n, k)| ensures HasNumber(n, r.repr, k, i) && Made(next, k)[i] == View(HandlesOf(n, k)[i]) {
        assert HasNumber(n, r.repr, k, i);
        NumbersDiffer(n, r.repr, k, i, st.key, at.index);
      }
    }
    InFlightCounted(next);
    InFlightAfter(s, st, p);
  }

  lemma {:induction false} InFlightAfter(s: State, st: Step, p: Settings)
    requires Valid(s) && Enabled(s, st) && st.Lookup?
    ensures Next(s, st, p).inFlight
         == s.inFlight[st.thread := if Hit(s.table, st.key, st.now, p.keyTtl) then Find(s.table, st.key).value.limiter
                                    else Id(st.key, |Made(s, st.key)|)]
  {
    hide Touch, Retune, Create;
  }

  lemma {:induction false} InFlightCounted(s: State)
    requires Valid(s)
    ensures forall th :: th in s.inFlight ==> s.inFlight[th].index < |Made(s, s.inFlight[th].key)|
  {
  }

  lemma {:induction false} HitIgnoresMade<L>(t: seq<Entry<L>>, key: string, a: L, b: L, now: real, ttl: real, maxKeys: nat)
    requires Hit(t, key, now, ttl)
    ensures Touch(t, key, a, now, ttl, maxKeys) == Touch(t, key, b, now, ttl, maxKeys)
  {
  }

  /** What a lookup of the name finds is numbered under it. */
  lemma {:induction false} FoundOwnKey(t: seq<Entry<Handle>>, n: Naming, key: string, now: real, ttl: real)
    requires Listed(t, n) && Hit(t, key, now, ttl)
    ensures Find(t, key).Some?
    ensures var h := Find(t, key).value.limiter;
            var at := IdOf(n, h);
            at.key == key && at.index < |HandlesOf(n, key)| && HandlesOf(n, key)[at.index] == h
  {
    assert OwnKey(n, Find(t, key).value);
  }

  lemma {:induction false} NumbersDiffer(n: Naming, repr: set<object>, k: string, i: nat, k': string, i': nat)
    requires i < |HandlesOf(n, k)| && i' < |HandlesOf(n, k')| && Numbered(n, repr)
    ensures HandlesOf(n, k)[i] == HandlesOf(n, k')[i'] ==> k == k' && i == i'
  {
    assert HasNumber(n, repr, k, i) && HasNumber(n, repr, k', i');
  }

  lemma {:induction false} MissStands(r: RateLimiter, before: seq<Entry<Handle>>, repr: set<object>, n: Naming, s: State, h: Handle, st: Step)
    requires r.Valid() && Numbered(n, repr) && Listed(before, n) && Unique(Names(before)) && s.table == Renamed(before, n)
    requires Valid(s) && Enabled(s, st) && st.Lookup? && !Hit(before, st.key, st.now, r.keyTtl)
    requires Object(h) !in repr && repr + {Object(h)} <= r.repr && forall e :: e in before ==> Object(e.limiter) in repr
    requires r.limiters == Touch(before, st.key, h, st.now, r.keyTtl, r.maxKeys)
    requires View(h) == Create(r.algorithm, st.config, st.built)
    requires forall k: string :: |Made(s, k)| == |HandlesOf(n, k)|
    requires forall k: string, i :: 0 <= i < |HandlesOf(n, k)| ==> View(HandlesOf(n, k)[i]) == Made(s, k)[i]
    ensures StandsFor(r, WithNew(n, st.key, h), Next(s, st, SettingsOf(r)))
    ensures Next(s, st, SettingsOf(r)).inFlight == s.inFlight[st.thread := IdOf(WithNew(n, st.key, h), h)]
  {
    hide Touch, Hit, Names, Unique, Retune, Create, View, Find, Renamed, Next, Made, IdOf, WithNew;
    var n' := WithNew(n, st.key, h);
    var p := SettingsOf(r);
    var next := Next(s, st, p);
    NextValid(s, st, p);
    AfterLookup(s, st, p);
    NewIsNumbered(before, n, st.key, h, repr);
    TouchListed(before, n', st.key, h, st.now, r.keyTtl, r.maxKeys);
    RenamedTouch(before, n', st.key, h, st.now, r.keyTtl, r.maxKeys);
    RenamedSame(before, n, n');
    forall k: string ensures |Made(next, k)| == |HandlesOf(n', k)|
      ensures forall i :: 0 <= i < |HandlesOf(n', k)| ==> HasNumber(n', r.repr, k, i) && Made(next, k)[i] == View(HandlesOf(n', k)[i])
    {
      LookupMakes(s, st, k, p);
      WithNewHandles(n, st.key, h, k);
      forall i | 0 <= i < |HandlesOf(n', k)| ensures HasNumber(n', r.repr, k, i) && Made(next, k)[i] == View(HandlesOf(n', k)[i]) {
        assert HasNumber(n', repr + {Object(h)}, k, i);
      }
    }
    InFlightCounted(next);
    InFlightAfter(s, st, p);
  }

  lemma {:induction false} WithNewHandles(n: Naming, key: string, h: Handle, k: string)
    ensures HandlesOf(WithNew(n, key, h), k) == if k == key then HandlesOf(n, k) + [h] else HandlesOf(n, k)
  {
  }

  lemma {:induction false} NewHolds(n: Naming, key: string, h: Handle, repr: set<object>)
    requires Numbered(n, repr) && Object(h) !in repr
    ensures Holds(WithNew(n, key, h), h)
    ensures forall g :: Holds(n, g) ==> Holds(WithNew(n, key, h), g) && IdOf(WithNew(n, key, h), g) == IdOf(n, g)
  {
    forall g | Holds(n, g) ensures Holds(WithNew(n, key, h), g) && IdOf(WithNew(n, key, h), g) == IdOf(n, g) {
      assert HasNumber(n, repr, IdOf(n, g).key, IdOf(n, g).index);
    }
  }

  /** The section under the facade's lock is the lookup step, and takes nothing from threads that hold
      limiters already. */
  method LookUp(r: RateLimiter, key: string, route: Option<string>, resolved: Option<Config>, now: real, built: real,
                ghost th: Thread, ghost n: Naming, ghost s: State)
    returns (h: Handle, ghost n': Naming, ghost s': State)
    requires StandsFor(r, n, s) && th !in s.inFlight && (resolved.Some? ==> Sensible(resolved.value)) && now <= built
    modifies r`limiters, r`repr, r.repr
    ensures var st := Step.Lookup(th, InternalKey(key, route), r.RouteConfig(route, resolved), now, built);
            Valid(s) && Enabled(s, st) && s' == Next(s, st, SettingsOf(r))
    ensures StandsFor(r, n', s')
    ensures s'.inFlight == s.inFlight[th := IdOf(n', h)] && Holds(n', h)
    ensures forall g :: Holds(n, g) ==> Holds(n', g) && IdOf(n', g) == IdOf(n, g)
  {
    hide View, Retune, Create, Touch, Renamed, Next, Made, IdOf, Names, Unique, WithNew;
    StandsForValid(r, n, s);
    ghost var before, repr := r.limiters, r.repr;
    ghost var st := Step.Lookup(th, InternalKey(key, route), r.RouteConfig(route, resolved), now, built);
    h := r.GetLimiter(key, route, resolved, now, built);
    s' := Next(s, st, SettingsOf(r));
    if Hit(before, st.key, now, r.keyTtl) {
      n' := n;
      HitStands(r, before, n, s, h, st);
      FoundOwnKey(before, n, st.key, now, r.keyTtl);
    } else {
      n' := WithNew(n, st.key, h);
      MissStands(r, before, repr, n, s, h, st);
      NewHolds(n, st.key, h, repr);
    }
  }

  // ----- The decision

  lemma {:induction false} DecisionStands(r: RateLimiter, n: Naming, s: State, h: Handle, st: Step, served: Limiter)
    requires r.Valid() && Numbered(n, r.repr) && Listed(r.limiters, n) && s.table == Renamed(r.limiters, n)
    requires Valid(s) && Enabled(s, st) && st.Decide? && s.inFlight[st.thread] == IdOf(n, h) && Holds(n, h)
    requires forall k: string :: |Made(s, k)| == |HandlesOf(n, k)|
    requires served == Serve(Made(s, IdOf(n, h).key)[IdOf(n, h).index], st.op, st.t1, st.t2).limiter
    requires forall k: string, i :: 0 <= i < |HandlesOf(n, k)| ==>
               View(HandlesOf(n, k)[i]) == if HandlesOf(n, k)[i] == h then served else Made(s, k)[i]
    ensures StandsFor(r, n, Next(s, st, SettingsOf(r)))
  {
    hide View, Renamed, Serve;
    var id := IdOf(n, h);
    var next := Next(s, st, SettingsOf(r));
    forall k: string ensures |Made(next, k)| == |HandlesOf(n, k)|
      ensures forall i :: 0 <= i < |HandlesOf(n, k)| ==> HasNumber(n, r.repr, k, i) && Made(next, k)[i] == View(HandlesOf(n, k)[i])
    {
      forall i | 0 <= i < |HandlesOf(n, k)| ensures HasNumber(n, r.repr, k, i) && Made(next, k)[i] == View(HandlesOf(n, k)[i]) {
        assert HasNumber(n, r.repr, k, i);
        NumbersDiffer(n, r.repr, k, i, id.key, id.index);
      }
    }
    NextValid(s, st, SettingsOf(r));
    InFlightCounted(next);
  }

  /** Only the entry and the number of h name its object. */
  lemma {:induction false} NobodyElses(n: Naming, repr: set<object>, es: seq<Entry<Handle>>, h: Handle)
    requires Numbered(n, repr) && Listed(es, n) && Holds(n, h)
    ensures Object(h) in repr
    ensures forall e :: e in es && Object(e.limiter) == Object(h) ==> e.limiter == h
    ensures forall k: string, i :: 0 <= i < |HandlesOf(n, k)| && HandlesOf(n, k)[i] != h ==> Object(HandlesOf(n, k)[i]) != Object(h)
  {
    var id := IdOf(n, h);
    assert HasNumber(n, repr, id.key, id.index);
    forall e | e in es && Object(e.limiter) == Object(h) ensures e.limiter == h {
      assert OwnKey(n, e);
    }
    forall k: string, i | 0 <= i < |HandlesOf(n, k)| && HandlesOf(n, k)[i] != h ensures Object(HandlesOf(n, k)[i]) != Object(h) {
      assert HasNumber(n, repr, k, i);
    }
  }

  /** The section under a limiter's lock is the decision step, also if the table has dropped the limiter
      since. */
  method Decide(r: RateLimiter, h: Handle, t1: real, t2: real, ghost th: Thread, ghost n: Naming, ghost s: State)
    returns (ok: bool, ghost s': State)
    requires StandsFor(r, n, s) && th in s.inFlight && s.inFlight[th] == IdOf(n, h) && Holds(n, h) && t1 <= t2
    modifies Object(h)
    ensures var st := Step.Decide(th, Allow, t1, t2);
            Valid(s) && Enabled(s, st) && s' == Next(s, st, SettingsOf(r)) && ok == Answer(s, st).allowed
    ensures StandsFor(r, n, s')
  {
    hide View, Renamed, Serve, Next, Made, Names, Unique;
    StandsForValid(r, n, s);
    NobodyElses(n, r.repr, r.limiters, h);
    ghost var st, was := Step.Decide(th, Allow, t1, t2), View(h);
    ok := Limiters.AllowRequest(h, t1, t2);
    forall e | e in r.limiters ensures InGoodTune(e.limiter) {
      if e.limiter == h {
        ServeKeepsTune(was, Tuned(h).value, Allow, t1, t2);
      }
    }
    s' := Next(s, st, SettingsOf(r));
    DecisionStands(r, n, s, h, st, View(h));
  }

  /** `remaining_requests` is a reading step. */
  method ReadRemaining(r: RateLimiter, h: Handle, t: real, ghost th: Thread, ghost n: Naming, ghost s: State)
    returns (count: int, ghost s': State)
    requires StandsFor(r, n, s) && th in s.inFlight && s.inFlight[th] == IdOf(n, h) && Holds(n, h)
    modifies Object(h)
    ensures var st := Step.Decide(th, Read, t, t);
            Valid(s) && Enabled(s, st) && s' == Next(s, st, SettingsOf(r))
    ensures StandsFor(r, n, s') && count == RemainingOf(Made(s', IdOf(n, h).key)[IdOf(n, h).index])
  {
    hide View, Renamed, Serve, Next, Made, Names, Unique, RemainingOf;
    StandsForValid(r, n, s);
    NobodyElses(n, r.repr, r.limiters, h);
    ghost var st, was := Step.Decide(th, Read, t, t), View(h);
    count := Limiters.RemainingRequests(h, t);
    forall e | e in r.limiters ensures InGoodTune(e.limiter) {
      if e.limiter == h {
        ServeKeepsTune(was, Tuned(h).value, Read, t, t);
      }
    }
    s' := Next(s, st, SettingsOf(r));
    DecisionStands(r, n, s, h, st, View(h));
  }

  /** So is `reset_time`. */
  method ReadReset(r: RateLimiter, h: Handle, t1: real, t2: real, ghost th: Thread, ghost n: Naming, ghost s: State)
    returns (seconds: int, ghost s': State)
    requires StandsFor(r, n, s) && th in s.inFlight && s.inFlight[th] == IdOf(n, h) && Holds(n, h) && t1 <= t2
    modifies Object(h)
    ensures var st := Step.Decide(th, Read, t1, t2);
            Valid(s) && Enabled(s, st) && s' == Next(s, st, SettingsOf(r))
    ensures StandsFor(r, n, s') && seconds == ResetOf(Made(s', IdOf(n, h).key)[IdOf(n, h).index], t2)
  {
    hide View, Renamed, Serve, Next, Made, Names, Unique, ResetOf;
    StandsForValid(r, n, s);
    NobodyElses(n, r.repr, r.limiters, h);
    ghost var st, was := Step.Decide(th, Read, t1, t2), View(h);
    seconds := Limiters.ResetTime(h, t1, t2);
    forall e | e in r.limiters ensures InGoodTune(e.limiter) {
      if e.limiter == h {
        ServeKeepsTune(was, Tuned(h).value, Read, t1, t2);
      }
    }
    s' := Next(s, st, SettingsOf(r));
    DecisionStands(r, n, s, h, st, View(h));
  }
}
