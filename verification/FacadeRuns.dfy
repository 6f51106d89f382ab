/** Interleaved use of the facade by many threads (app/middleware/rate_limiter.py:101-146). A call is
    two atomic steps: the lookup under the facade's lock, and later the decision under the lock of
    the limiter it returned, which by then may have been re-tuned or dropped. */
module FacadeRuns {
  import opened Prelude
  import opened LruTable
  import opened Limiters

  type Thread = nat

  /** A limiter object: the index-th one made for its key. */
  datatype Id = Id(key: string, index: nat)

  datatype Settings = Settings(algorithm: Algorithm, maxKeys: nat, keyTtl: real)

  /** `made[k]` lists every limiter ever made for k; dropped ones may still be held by a call in
      flight. */
  datatype State = State(table: seq<Entry<Id>>, made: map<string, seq<Limiter>>, inFlight: map<Thread, Id>)

  datatype Step =
    | Lookup(thread: Thread, key: string, config: Config, now: real, built: real)
    | Decide(thread: Thread, op: Op, t1: real, t2: real)

  function Made(s: State, key: string): seq<Limiter> {
    if key in s.made then s.made[key] else []
  }

  /** Every identifier in use names a limiter that was made. */
  predicate Valid(s: State) {
    && Unique(Names(s.table))
    && (forall e :: e in s.table ==> e.limiter.key == e.key && e.limiter.index < |Made(s, e.key)|)
    && (forall th :: th in s.inFlight ==> s.inFlight[th].index < |Made(s, s.inFlight[th].key)|)
  }

  predicate Enabled(s: State, st: Step) {
    match st
    case Lookup(th, _, config, _, _) => th !in s.inFlight && Sensible(config)
    case Decide(th, _, _, _) => th in s.inFlight
  }

  function Next(s: State, st: Step, p: Settings): State
    requires Valid(s) && Enabled(s, st)
  {
    match st
    case Lookup(th, key, config, now, built) =>
      var limiters := Made(s, key);
      var table := Touch(s.table, key, Id(key, |limiters|), now, p.keyTtl, p.maxKeys);
      if Hit(s.table, key, now, p.keyTtl) then
        var id := Find(s.table, key).value.limiter;
        State(table, s.made[key := limiters[id.index := Retune(limiters[id.index], config)]], s.inFlight[th := id])
      else
        State(table, s.made[key := limiters + [Create(p.algorithm, config, built)]], s.inFlight[th := Id(key, |limiters|)])
    case Decide(th, op, t1, t2) =>
      var id := s.inFlight[th];
      var limiters := s.made[id.key];
      var o := Serve(limiters[id.index], op, t1, t2);
      State(s.table, s.made[id.key := limiters[id.index := o.limiter]], s.inFlight - {th})
  }

  /** One decision for a key: by which of its limiters, in what state and under what settings, with
      the limiter's two clock readings, and the answer. */
  datatype Decision = Decision(index: nat, before: Limiter, op: Op, t1: real, t2: real, allowed: bool)

  function Decided(index: nat, before: Limiter, op: Op, t1: real, t2: real): Decision {
    Decision(index, before, op, t1, t2, Serve(before, op, t1, t2).allowed)
  }

  function Answer(s: State, st: Step): Decision
    requires Valid(s) && Enabled(s, st) && st.Decide?
  {
    var id := s.inFlight[st.thread];
    Decided(id.index, Made(s, id.key)[id.index], st.op, st.t1, st.t2)
  }

  lemma {:induction false} NextValid(s: State, st: Step, p: Settings)
    requires Valid(s) && Enabled(s, st)
    ensures Valid(Next(s, st, p))
  {
    hide Touch, Unique, Names, Create, Retune, Serve;
    match st
    case Lookup(th, key, config, now, built) =>
      TouchUnique(s.table, key, Id(key, |Made(s, key)|), now, p.keyTtl, p.maxKeys);
    case Decide(th, op, t1, t2) =>
  }

  /** What a lookup does to the limiters of a key: nothing, a re-tune, or one more. */
  lemma {:induction false} LookupMakes(s: State, st: Step, key: string, p: Settings)
    requires Valid(s) && Enabled(s, st) && st.Lookup?
    ensures var made, after := Made(s, key), Made(Next(s, st, p), key);
            if st.key != key then after == made
            else if Hit(s.table, key, st.now, p.keyTtl) then
              var i := Find(s.table, key).value.limiter.index;
              i < |made| && after == made[i := Retune(made[i], st.config)]
            else after == made + [Create(p.algorithm, st.config, st.built)]
  {
    hide Touch, Unique, Names, Create, Retune;
  }

  lemma {:induction false} AfterLookup(s: State, st: Step, p: Settings)
    requires Valid(s) && Enabled(s, st) && st.Lookup?
    ensures Unique(Names(s.table))
    ensures Next(s, st, p).table == Touch(s.table, st.key, Id(st.key, |Made(s, st.key)|), st.now, p.keyTtl, p.maxKeys)
  {
  }

  // ----- The simple thing the facade stands for: one private limiter per key

  /** The current limiter of one key, if it has one, and every limiter made for it. */
  datatype Solo = Solo(current: Option<Current>, made: seq<Limiter>, inFlight: map<Thread, nat>)

  datatype Current = Current(index: nat, created: real)

  datatype SoloStep =
    | SoloLookup(thread: Thread, config: Config, now: real, built: real)
    | SoloDecide(thread: Thread, op: Op, t1: real, t2: real)
    | Drop

  predicate SoloValid(s: Solo) {
    && (s.current.Some? ==> s.current.value.index < |s.made|)
    && (forall th :: th in s.inFlight ==> s.inFlight[th] < |s.made|)
  }

  predicate SoloEnabled(s: Solo, st: SoloStep) {
    match st
    case SoloLookup(th, config, _, _) => th !in s.inFlight && Sensible(config)
    case SoloDecide(th, _, _, _) => th in s.inFlight
    case Drop => true
  }

  /** A private limiter starts afresh exactly when it has no current limiter or that is as old as
      the time to live. */
  function SoloNext(s: Solo, st: SoloStep, p: Settings): Solo
    requires SoloValid(s) && SoloEnabled(s, st)
  {
    match st
    case SoloLookup(th, config, now, built) =>
      if s.current.Some? && now - s.current.value.created < p.keyTtl then
        var i := s.current.value.index;
        s.(made := s.made[i := Retune(s.made[i], config)], inFlight := s.inFlight[th := i])
      else
        Solo(Some(Current(|s.made|, now)), s.made + [Create(p.algorithm, config, built)], s.inFlight[th := |s.made|])
    case SoloDecide(th, op, t1, t2) =>
      var i := s.inFlight[th];
      s.(made := s.made[i := Serve(s.made[i], op, t1, t2).limiter], inFlight := s.inFlight - {th})
    case Drop => s.(current := None)
  }

  function SoloAnswer(s: Solo, st: SoloStep): Decision
    requires SoloValid(s) && SoloEnabled(s, st) && st.SoloDecide?
  {
    var i := s.inFlight[st.thread];
    Decided(i, s.made[i], st.op, st.t1, st.t2)
  }

  lemma {:induction false} SoloNextValid(s: Solo, st: SoloStep, p: Settings)
    requires SoloValid(s) && SoloEnabled(s, st)
    ensures SoloValid(SoloNext(s, st, p))
  {
  }

  // ----- What one key sees of the facade

  function CurrentOf(s: State, key: string): Option<Current> {
    var found := Find(s.table, key);
    if found.Some? then Some(Current(found.value.limiter.index, found.value.created)) else None
  }

  function Projection(s: State, key: string): Solo {
    Solo(CurrentOf(s, key), Made(s, key),
         map th | th in s.inFlight && s.inFlight[th].key == key :: s.inFlight[th].index)
  }

  /** The steps of the private limiter of `key` that a facade step amounts to: its own calls, and a
      drop whenever a lookup pops its entry as the least recently used. */
  function StepsFor(s: State, st: Step, key: string, p: Settings): seq<SoloStep>
    requires Valid(s) && Enabled(s, st)
  {
    match st
    case Lookup(th, k, config, now, built) =>
      (if k == key then [SoloLookup(th, config, now, built)] else [])
      + (if (k == key || Find(s.table, key).Some?) && Find(Next(s, st, p).table, key).None? then [Drop] else [])
    case Decide(th, op, t1, t2) =>
      if s.inFlight[th].key == key then [SoloDecide(th, op, t1, t2)] else []
  }

  predicate SoloAllEnabled(s: Solo, sts: seq<SoloStep>, p: Settings)
    requires SoloValid(s)
    decreases |sts|
  {
    sts == []
    || (SoloEnabled(s, sts[0])
        && (SoloNextValid(s, sts[0], p); SoloAllEnabled(SoloNext(s, sts[0], p), sts[1..], p)))
  }

  function SoloAfter(s: Solo, sts: seq<SoloStep>, p: Settings): (r: Solo)
    requires SoloValid(s) && SoloAllEnabled(s, sts, p)
    ensures SoloValid(r)
    decreases |sts|
  {
    if sts == [] then s
    else
      SoloNextValid(s, sts[0], p);
      SoloAfter(SoloNext(s, sts[0], p), sts[1..], p)
  }

  lemma {:induction false} ProjectionValid(s: State, key: string)
    requires Valid(s)
    ensures SoloValid(Projection(s, key))
  {
  }

  /** A table step finds another key's entry unchanged or drops it. */
  lemma {:induction false} TouchOther<L>(t: seq<Entry<L>>, used: string, other: string, made: L, now: real, ttl: real, maxKeys: nat)
    requires Unique(Names(t)) && used != other
    ensures var found := Find(Touch(t, used, made, now, ttl, maxKeys), other);
            found == None || found == Find(t, other)
  {
    TouchUnique(t, used, made, now, ttl, maxKeys);
    var r := Touch(t, used, made, now, ttl, maxKeys);
    var found := Find(r, other);
    if found.Some? {
      FindByName(t, found.value);
    }
  }

  /** A table step finds the used key's entry newest, unless the table holds no keys at all. */
  lemma {:induction false} TouchSelf<L>(t: seq<Entry<L>>, used: string, made: L, now: real, ttl: real, maxKeys: nat)
    requires Unique(Names(t))
    ensures var found := Find(Touch(t, used, made, now, ttl, maxKeys), used);
            if Hit(t, used, now, ttl) then found == Find(t, used)
            else if maxKeys == 0 then found == None
            else found == Some(Entry(used, made, now))
  {
    TouchUnique(t, used, made, now, ttl, maxKeys);
    var r := Touch(t, used, made, now, ttl, maxKeys);
    if Hit(t, used, now, ttl) || maxKeys > 0 {
      FindByName(r, r[|r| - 1]);
    }
  }

  /** One step of the facade is, for each key, the steps of its private limiter, with the same
      answer. */
  lemma {:induction false} StepProjects(s: State, st: Step, key: string, p: Settings)
    requires Valid(s) && Enabled(s, st)
    ensures Valid(Next(s, st, p)) && SoloValid(Projection(s, key))
    ensures var sts := StepsFor(s, st, key, p);
            && SoloAllEnabled(Projection(s, key), sts, p)
            && SoloAfter(Projection(s, key), sts, p) == Projection(Next(s, st, p), key)
            && (st.Decide? && s.inFlight[st.thread].key == key ==>
                  sts == [SoloDecide(st.thread, st.op, st.t1, st.t2)]
                  && SoloAnswer(Projection(s, key), sts[0]) == Answer(s, st))
  {
    NextValid(s, st, p);
    ProjectionValid(s, key);
    if st.Decide? {
      DecideProjects(s, st, key, p);
    } else if st.key == key {
      OwnLookupProjects(s, st, p);
    } else {
      OtherLookupProjects(s, st, key, p);
    }
  }

  lemma {:induction false} DecideProjects(s: State, st: Step, key: string, p: Settings)
    requires Valid(s) && Enabled(s, st) && st.Decide? && SoloValid(Projection(s, key))
    ensures var sts := StepsFor(s, st, key, p);
            && SoloAllEnabled(Projection(s, key), sts, p)
            && SoloAfter(Projection(s, key), sts, p) == Projection(Next(s, st, p), key)
            && (sts != [] ==> SoloAnswer(Projection(s, key), sts[0]) == Answer(s, st))
  {
    var solo := Projection(s, key);
    var after := Projection(Next(s, st, p), key);
    if s.inFlight[st.thread].key == key {
      var one := SoloDecide(st.thread, st.op, st.t1, st.t2);
      SoloNextValid(solo, one, p);
      assert SoloNext(solo, one, p).inFlight == after.inFlight;
      assert SoloAfter(SoloNext(solo, one, p), [], p) == after;
      assert [one][1..] == [];
    } else {
      assert solo.inFlight == after.inFlight;
    }
  }

  lemma {:induction false} OwnLookupProjects(s: State, st: Step, p: Settings)
    requires Valid(s) && Enabled(s, st) && st.Lookup? && SoloValid(Projection(s, st.key))
    ensures var sts := StepsFor(s, st, st.key, p);
            && SoloAllEnabled(Projection(s, st.key), sts, p)
            && SoloAfter(Projection(s, st.key), sts, p) == Projection(Next(s, st, p), st.key)
  {
    hide Create, Retune, Touch, Find;
    var key := st.key;
    var solo := Projection(s, key);
    var after := Projection(Next(s, st, p), key);
    TouchSelf(s.table, key, Id(key, |Made(s, key)|), st.now, p.keyTtl, p.maxKeys);
    var one := SoloLookup(st.thread, st.config, st.now, st.built);
    SoloNextValid(solo, one, p);
    var middle := SoloNext(solo, one, p);
    assert middle.inFlight == after.inFlight;
    var sts := StepsFor(s, st, key, p);
    if Find(Next(s, st, p).table, key).None? {
      assert sts == [one, Drop] && sts[1..] == [Drop] && [Drop][1..] == [];
      SoloNextValid(middle, Drop, p);
    } else {
      assert sts == [one] && sts[1..] == [];
    }
  }

  lemma {:induction false} OtherLookupProjects(s: State, st: Step, key: string, p: Settings)
    requires Valid(s) && Enabled(s, st) && st.Lookup? && st.key != key && SoloValid(Projection(s, key))
    ensures var sts := StepsFor(s, st, key, p);
            && SoloAllEnabled(Projection(s, key), sts, p)
            && SoloAfter(Projection(s, key), sts, p) == Projection(Next(s, st, p), key)
  {
    hide Create, Retune, Touch, Find;
    var solo := Projection(s, key);
    var after := Projection(Next(s, st, p), key);
    TouchOther(s.table, st.key, key, Id(st.key, |Made(s, st.key)|), st.now, p.keyTtl, p.maxKeys);
    assert solo.inFlight == after.inFlight;
    var sts := StepsFor(s, st, key, p);
    if sts != [] {
      assert sts == [Drop] && sts[1..] == [];
      SoloNextValid(solo, Drop, p);
    }
  }

  // ----- Whole runs

  predicate RunEnabled(s: State, run: seq<Step>, p: Settings)
    requires Valid(s)
    decreases |run|
  {
    run == []
    || (Enabled(s, run[0]) && (NextValid(s, run[0], p); RunEnabled(Next(s, run[0], p), run[1..], p)))
  }

  function LoggedBy(s: State, st: Step, key: string): seq<Decision>
    requires Valid(s) && Enabled(s, st)
  {
    if st.Decide? && s.inFlight[st.thread].key == key then [Answer(s, st)] else []
  }

  /** The decisions taken on `key`'s calls in a run of the facade, in order. */
  function AnswersFor(s: State, run: seq<Step>, key: string, p: Settings): seq<Decision>
    requires Valid(s) && RunEnabled(s, run, p)
    decreases |run|
  {
    if run == [] then []
    else
      NextValid(s, run[0], p);
      LoggedBy(s, run[0], key) + AnswersFor(Next(s, run[0], p), run[1..], key, p)
  }

  function RunFor(s: State, run: seq<Step>, key: string, p: Settings): seq<SoloStep>
    requires Valid(s) && RunEnabled(s, run, p)
    decreases |run|
  {
    if run == [] then []
    else
      NextValid(s, run[0], p);
      StepsFor(s, run[0], key, p) + RunFor(Next(s, run[0], p), run[1..], key, p)
  }

  function SoloAnswers(s: Solo, sts: seq<SoloStep>, p: Settings): seq<Decision>
    requires SoloValid(s) && SoloAllEnabled(s, sts, p)
    decreases |sts|
  {
    if sts == [] then []
    else
      SoloNextValid(s, sts[0], p);
      (if sts[0].SoloDecide? then [SoloAnswer(s, sts[0])] else []) + SoloAnswers(SoloNext(s, sts[0], p), sts[1..], p)
  }

  lemma {:induction false} SoloConcat(s: Solo, a: seq<SoloStep>, b: seq<SoloStep>, p: Settings)
    requires SoloValid(s) && SoloAllEnabled(s, a, p) && SoloAllEnabled(SoloAfter(s, a, p), b, p)
    ensures SoloAllEnabled(s, a + b, p)
    ensures SoloAnswers(s, a + b, p) == SoloAnswers(s, a, p) + SoloAnswers(SoloAfter(s, a, p), b, p)
    ensures SoloAfter(s, a + b, p) == SoloAfter(SoloAfter(s, a, p), b, p)
    decreases |a|
  {
    if a == [] {
      assert a + b == b;
    } else {
      assert (a + b)[1..] == a[1..] + b;
      SoloNextValid(s, a[0], p);
      SoloConcat(SoloNext(s, a[0], p), a[1..], b, p);
    }
  }

  /** For every interleaved run over any number of keys and threads, the decisions the facade takes
      on one key's calls are those of a private limiter that sees only these calls and starts
      afresh exactly when its current limiter reaches the time to live or the facade has popped
      its entry. */
  lemma {:induction false} FacadeIsPrivateLimiters(s: State, run: seq<Step>, key: string, p: Settings)
    requires Valid(s) && RunEnabled(s, run, p)
    ensures SoloValid(Projection(s, key)) && SoloAllEnabled(Projection(s, key), RunFor(s, run, key, p), p)
    ensures AnswersFor(s, run, key, p) == SoloAnswers(Projection(s, key), RunFor(s, run, key, p), p)
    decreases |run|
  {
    ProjectionValid(s, key);
    if run != [] {
      StepProjects(s, run[0], key, p);
      var next := Next(s, run[0], p);
      FacadeIsPrivateLimiters(next, run[1..], key, p);
      var sts := StepsFor(s, run[0], key, p);
      SoloConcat(Projection(s, key), sts, RunFor(next, run[1..], key, p), p);
      AnswersOfStep(s, run[0], key, p);
    }
  }

  lemma {:induction false} AnswersOfStep(s: State, st: Step, key: string, p: Settings)
    requires Valid(s) && Enabled(s, st)
    requires SoloValid(Projection(s, key)) && SoloAllEnabled(Projection(s, key), StepsFor(s, st, key, p), p)
    ensures SoloAnswers(Projection(s, key), StepsFor(s, st, key, p), p)
         == LoggedBy(s, st, key)
  {
    var sts := StepsFor(s, st, key, p);
    if st.Decide? {
      DecideProjects(s, st, key, p);
    }
    if |sts| > 1 {
      assert sts[1..] == [Drop] && [Drop][1..] == [];
    } else if |sts| == 1 {
      assert sts[1..] == [];
    }
  }

  // ----- When the facade pops an entry

  /** A step's lookup, if it is one, as the least-recently-used table sees it. */
  function LookupOf(s: State, st: Step): seq<LruTable.Lookup<Id>> {
    match st
    case Lookup(_, key, _, now, _) => [LruTable.Lookup(key, Id(key, |Made(s, key)|), now)]
    case Decide(_, _, _, _) => []
  }

  function LookupsOf(s: State, run: seq<Step>, p: Settings): seq<LruTable.Lookup<Id>>
    requires Valid(s) && RunEnabled(s, run, p)
    decreases |run|
  {
    if run == [] then []
    else
      NextValid(s, run[0], p);
      LookupOf(s, run[0]) + LookupsOf(Next(s, run[0], p), run[1..], p)
  }

  function After(s: State, run: seq<Step>, p: Settings): (r: State)
    requires Valid(s) && RunEnabled(s, run, p)
    ensures Valid(r)
    decreases |run|
  {
    if run == [] then s
    else
      NextValid(s, run[0], p);
      After(Next(s, run[0], p), run[1..], p)
  }

  const INITIAL := State([], map[], map[])

  lemma {:induction false} TableOfStep(s: State, st: Step, earlier: seq<LruTable.Lookup<Id>>, p: Settings)
    requires Valid(s) && Enabled(s, st) && s.table == TableAfter(earlier, p.keyTtl, p.maxKeys)
    ensures Next(s, st, p).table == TableAfter(earlier + LookupOf(s, st), p.keyTtl, p.maxKeys)
  {
    if st.Lookup? {
      var l := LookupOf(s, st)[0];
      assert LookupOf(s, st) == [l];
      assert (earlier + [l])[..|earlier|] == earlier;
    } else {
      assert earlier + [] == earlier;
    }
  }

  lemma {:induction false} TableOfRun(s: State, run: seq<Step>, earlier: seq<LruTable.Lookup<Id>>, p: Settings)
    requires Valid(s) && RunEnabled(s, run, p) && s.table == TableAfter(earlier, p.keyTtl, p.maxKeys)
    ensures After(s, run, p).table == TableAfter(earlier + LookupsOf(s, run, p), p.keyTtl, p.maxKeys)
    decreases |run|
  {
    hide TableAfter, Next, Valid, Enabled, LookupOf;
    if run == [] {
      assert earlier + [] == earlier;
    } else {
      NextValid(s, run[0], p);
      var next := Next(s, run[0], p);
      TableOfStep(s, run[0], earlier, p);
      var one := LookupOf(s, run[0]);
      TableOfRun(next, run[1..], earlier + one, p);
      assert (earlier + one) + LookupsOf(next, run[1..], p) == earlier + (one + LookupsOf(next, run[1..], p));
    }
  }

  lemma {:induction false} TableOfWholeRun(run: seq<Step>, p: Settings)
    requires RunEnabled(INITIAL, run, p)
    ensures After(INITIAL, run, p).table == TableAfter(LookupsOf(INITIAL, run, p), p.keyTtl, p.maxKeys)
  {
    TableOfRun(INITIAL, run, [], p);
    assert [] + LookupsOf(INITIAL, run, p) == LookupsOf(INITIAL, run, p);
  }

  /** After every interleaved run the facade holds at most `maxKeys` keys, in order of last use,
      and a key that was ever looked up has lost its entry exactly when at least `maxKeys`
      distinct other keys were looked up since. */
  lemma {:induction false} PoppedIff(run: seq<Step>, key: string, p: Settings)
    requires RunEnabled(INITIAL, run, p)
    ensures var table := After(INITIAL, run, p).table;
            var used := KeysOf(LookupsOf(INITIAL, run, p));
            && |table| <= p.maxKeys
            && Names(table) == Newest(Recency(used), p.maxKeys)
            && (key in used ==> (Find(table, key).None? <==> |OthersSince(used, key)| >= p.maxKeys))
  {
    TableOfWholeRun(run, p);
    EvictionRule(LookupsOf(INITIAL, run, p), key, p.keyTtl, p.maxKeys);
  }
}
