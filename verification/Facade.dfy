/** app/middleware/rate_limiter.py in memory mode: one limiter per key, found or made under a lock,
    re-tuned in place, dropped by age or as the least recently used. */
module Facade {
  import opened Prelude
  import opened LruTable
  import opened Limiters

  /** `_internal_key` */
  function InternalKey(key: string, route: Option<string>): string {
    match route
    case None => key
    case Some(r) => r + ":" + key
  }

  /** Calls share a limiter exactly when they name the same route and the same client, as long as routes have
      no colon; and a call without a route shares one with those whose route and client spell its key. */
  lemma {:induction false} SharesLimiterIff(key: string, route: Option<string>, key': string, route': Option<string>)
    requires route.Some? ==> ':' !in route.value
    requires route'.Some? ==> ':' !in route'.value
    ensures route.Some? && route'.Some? ==>
              (InternalKey(key, route) == InternalKey(key', route') <==> key == key' && route == route')
    ensures route.None? && route'.None? ==> (InternalKey(key, route) == InternalKey(key', route') <==> key == key')
    ensures route.None? && route'.Some? ==>
              (InternalKey(key, route) == InternalKey(key', route')
               <==> |key| == |route'.value| + 1 + |key'| && route'.value <= key && key[|route'.value|] == ':'
                    && key[|route'.value| + 1..] == key')
  {
    if route.Some? && route'.Some? && InternalKey(key, route) == InternalKey(key', route') {
      FirstColon(route.value, key, route'.value, key');
    }
  }

  lemma {:induction false} FirstColon(a: string, b: string, c: string, d: string)
    requires ':' !in a && ':' !in c && a + ":" + b == c + ":" + d
    ensures a == c && b == d
  {
    var whole := a + ":" + b;
    assert whole[|a|] == ':' && whole[|c|] == ':';
    assert forall i :: 0 <= i < |a| ==> whole[i] == a[i] && a[i] in a;
    assert forall i :: 0 <= i < |c| ==> whole[i] == c[i] && c[i] in c;
    assert |a| == |c|;
    assert whole[..|a|] == a && whole[..|c|] == c;
    assert whole[|a| + 1..] == b && whole[|c| + 1..] == d;
  }

  /** Every entry has an object of its own, among `repr`, tuned to the policy it remembers. */
  ghost predicate Sound(es: seq<Entry<Handle>>, repr: set<object>)
    reads repr
  {
    && (forall e :: e in es ==> Object(e.limiter) in repr && InGoodTune(e.limiter))
    && (forall e, e' :: e in es && e' in es && e != e' ==> Object(e.limiter) != Object(e'.limiter))
  }

  ghost predicate InGoodTune(h: Handle)
    reads Object(h)
  {
    Tuned(h).Some? && InTune(View(h), Tuned(h).value)
  }

  lemma {:induction false} SoundPart(es: seq<Entry<Handle>>, part: seq<Entry<Handle>>, repr: set<object>)
    requires Sound(es, repr) && forall e :: e in part ==> e in es
    ensures Sound(part, repr)
  {
  }

  /** Popping the entry that is about to go back. */
  lemma {:induction false} PoppedOnHit(es: seq<Entry<Handle>>, found: Entry<Handle>, rest: seq<Entry<Handle>>, repr: set<object>)
    requires Unique(Names(es)) && Sound(es, repr) && found in es && rest == Without(es, found.key)
    ensures Unique(Names(rest + [found])) && Sound(rest, repr - {Object(found.limiter)}) && |rest + [found]| == |es|
  {
    WithoutMembers(es, found.key);
    UniqueAppend(rest, found);
    FindByName(es, found);
  }

  /** Popping whatever entry the name has, before a new one is made. */
  lemma {:induction false} PoppedOnMiss(es: seq<Entry<Handle>>, name: string, rest: seq<Entry<Handle>>, repr: set<object>)
    requires Unique(Names(es)) && Sound(es, repr) && rest == Without(es, name)
    ensures Unique(Names(rest)) && name !in Names(rest) && Sound(rest, repr)
  {
    WithoutMembers(es, name);
    SoundPart(es, rest, repr);
  }

  lemma {:induction false} SoundWith(es: seq<Entry<Handle>>, e: Entry<Handle>, repr: set<object>)
    requires Sound(es, repr) && InGoodTune(e.limiter) && Object(e.limiter) !in repr
    ensures Sound(es + [e], repr + {Object(e.limiter)})
  {
  }

  /** What eviction leaves. */
  lemma {:induction false} AfterEviction(es: seq<Entry<Handle>>, most: nat, repr: set<object>)
    requires Unique(Names(es)) && Sound(es, repr)
    ensures Unique(Names(Newest(es, most))) && Sound(Newest(es, most), repr) && |Newest(es, most)| <= most
  {
    UniqueNewest(es, most);
    SoundPart(es, Newest(es, most), repr);
  }

  class RateLimiter {
    const defaults: Config
    const algorithm: Algorithm
    const maxKeys: nat
    const keyTtl: real
    const routeLimits: map<string, Config>
    // Internal key -> (limiter, time it was made), least recently used first.
    var limiters: seq<Entry<Handle>>
    // The objects of the limiters made so far.
    ghost var repr: set<object>

    ghost predicate Valid()
      reads this, repr
    {
      && this !in repr && Sound(limiters, repr)
      && Sensible(defaults) && (forall r :: r in routeLimits ==> Sensible(routeLimits[r]))
      && Unique(Names(limiters)) && |limiters| <= maxKeys
    }

    constructor (defaults: Config, algorithm: Algorithm, maxKeys: nat, keyTtl: real, routeLimits: map<string, Config>)
      requires Sensible(defaults) && forall r :: r in routeLimits ==> Sensible(routeLimits[r])
      ensures Valid() && limiters == [] && repr == {}
      ensures this.algorithm == algorithm && this.maxKeys == maxKeys && this.keyTtl == keyTtl
      ensures this.defaults == defaults && this.routeLimits == routeLimits
    {
      this.defaults, this.algorithm, this.maxKeys := defaults, algorithm, maxKeys;
      this.keyTtl, this.routeLimits, limiters, repr := keyTtl, routeLimits, [], {};
    }

    /** `_route_config`: what the resolver answers if there is one, else the route's own limit,
        else the default. */
    function RouteConfig(route: Option<string>, resolved: Option<Config>): Config {
      if resolved.Some? then resolved.value
      else if route.Some? && route.value in routeLimits then routeLimits[route.value]
      else defaults
    }

    /** No other entry shares the limiter's object. */
    ghost predicate Alone(h: Handle)
      reads this, Object(h)
    {
      InGoodTune(h) && forall e :: e in limiters ==> e.limiter == h || Object(e.limiter) != Object(h)
    }

    /** `popitem(last=False)` until the table fits. */
    method EvictOldest()
      modifies this`limiters
      ensures limiters == Newest(old(limiters), maxKeys)
    {
      ghost var all := limiters;
      while |limiters| > maxKeys
        invariant |limiters| <= |all| && limiters == all[|all| - |limiters|..]
        invariant |limiters| >= maxKeys || limiters == all
        decreases |limiters|
      {
        limiters := limiters[1..];
      }
    }

    /** The path of a hit: the popped entry goes back, newest, and its limiter is re-tuned if the
        policy changed. */
    method Reuse(name: string, found: Entry<Handle>, config: Config)
      requires Valid() && Sensible(config)
      requires found in limiters && found.key == name
      modifies this`limiters, Object(found.limiter)
      ensures Valid()
      ensures limiters == Without(old(limiters), name) + [found]
      ensures View(found.limiter) == Retune(old(View(found.limiter)), config) && Tuned(found.limiter) == Some(config)
      ensures Alone(found.limiter)
    {
      hide View, Retune, Unique, Without;
      var rest := Without(limiters, name);
      PoppedOnHit(limiters, found, rest, repr);
      RetunedInTune(View(found.limiter), config);
      ghost var others := repr - {Object(found.limiter)};
      limiters := rest + [found];
      if Tuned(found.limiter) != Some(config) {
        RetuneLimiter(found.limiter, config);
      } else {
        InTuneStays(View(found.limiter), config);
      }
      SoundWith(rest, found, others);
      assert others + {Object(found.limiter)} == repr;
    }

    /** The path of a miss: a new limiter, newest, then eviction. */
    method Install(name: string, config: Config, now: real, built: real) returns (h: Handle)
      requires Valid() && Sensible(config)
      modifies this`limiters, this`repr
      ensures Valid() && repr == old(repr) + {Object(h)}
      ensures fresh(Object(h)) && View(h) == Create(algorithm, config, built) && Tuned(h) == Some(config)
      ensures Alone(h)
      ensures limiters == Newest(Without(old(limiters), name) + [Entry(name, h, now)], maxKeys)
    {
      hide View, Retune, Create, Unique, Without, Newest;
      var rest := Without(limiters, name);
      PoppedOnMiss(limiters, name, rest, repr);
      CreatedInTune(algorithm, config, built);
      h := CreateRateLimiter(algorithm, config, built);
      MarkTuned(h, config);
      var all := rest + [Entry(name, h, now)];
      UniqueAppend(rest, Entry(name, h, now));
      SoundWith(rest, Entry(name, h, now), repr);
      limiters := all;
      repr := repr + {Object(h)};
      EvictOldest();
      AfterEviction(all, maxKeys, repr);
    }

    /** A lookup changes the table as one step of the least-recently-used list, and the limiter
        it returns as one re-tune or one creation; every other limiter is left alone. */
    method GetLimiter(key: string, route: Option<string>, resolved: Option<Config>, now: real, built: real) returns (h: Handle)
      requires Valid() && (resolved.Some? ==> Sensible(resolved.value)) && now <= built
      modifies this`limiters, this`repr, repr
      ensures Valid()
      ensures limiters == Touch(old(limiters), InternalKey(key, route), h, now, keyTtl, maxKeys)
      ensures Hit(old(limiters), InternalKey(key, route), now, keyTtl) ==>
                && h == Find(old(limiters), InternalKey(key, route)).value.limiter
                && View(h) == Retune(old(View(Find(limiters, InternalKey(key, route)).value.limiter)), RouteConfig(route, resolved))
      ensures !Hit(old(limiters), InternalKey(key, route), now, keyTtl) ==>
                fresh(Object(h)) && View(h) == Create(algorithm, RouteConfig(route, resolved), built)
      ensures Tuned(h) == Some(RouteConfig(route, resolved))
      // The limiter enforces what the resolver answered, or else the route's own limit, or else the default.
      ensures resolved.Some? ==> SetTo(View(h), resolved.value.limit, resolved.value.window)
      ensures resolved.None? && route.Some? && route.value in routeLimits ==>
                SetTo(View(h), routeLimits[route.value].limit, routeLimits[route.value].window)
      ensures resolved.None? && (route.None? || route.value !in routeLimits) ==> SetTo(View(h), defaults.limit, defaults.window)
      ensures Alone(h)
      ensures old(repr) <= repr && fresh(repr - old(repr)) && Object(h) in repr
      ensures forall o :: o in old(repr) && o != Object(h) ==> unchanged(o)
    {
      hide View, Retune, Create, Unique, Without, SetTo;
      var config := RouteConfig(route, resolved);
      var name := InternalKey(key, route);
      var found := Find(limiters, name);
      if found.Some? && now - found.value.created < keyTtl {
        h := found.value.limiter;
        Reuse(name, found.value, config);
      } else {
        h := Install(name, config, now, built);
      }
      ConfigIsSet(View(h), config);
    }

    method AllowRequest(key: string, route: Option<string>, resolved: Option<Config>, now: real, built: real, t1: real, t2: real)
      returns (ok: bool, ghost h: Handle)
      requires Valid() && (resolved.Some? ==> Sensible(resolved.value)) && now <= built <= t1 <= t2
      modifies this`limiters, this`repr, repr
      ensures Valid() && old(repr) <= repr && fresh(repr - old(repr)) && Object(h) in repr
      ensures limiters == Touch(old(limiters), InternalKey(key, route), h, now, keyTtl, maxKeys)
      ensures var name := InternalKey(key, route);
              var config := RouteConfig(route, resolved);
              var looked := if Hit(old(limiters), name, now, keyTtl)
                            then Retune(old(View(Find(limiters, InternalKey(key, route)).value.limiter)), config)
                            else Create(algorithm, config, built);
              ok == Serve(looked, Allow, t1, t2).allowed && View(h) == Serve(looked, Allow, t1, t2).limiter
      ensures resolved.Some? ==> SetTo(View(h), resolved.value.limit, resolved.value.window)
      ensures resolved.None? && route.Some? && route.value in routeLimits ==>
                SetTo(View(h), routeLimits[route.value].limit, routeLimits[route.value].window)
      ensures resolved.None? && (route.None? || route.value !in routeLimits) ==> SetTo(View(h), defaults.limit, defaults.window)
      ensures forall o :: o in old(repr) && o != Object(h) ==> unchanged(o)
    {
      hide View, Retune, Serve, Create, Touch, Unique, SetTo;
      var g := GetLimiter(key, route, resolved, now, built);
      h := g;
      ServeKeepsTune(View(g), RouteConfig(route, resolved), Allow, t1, t2);
      ghost var looked := View(g);
      ok := Limiters.AllowRequest(g, t1, t2);
      StillSetTo(looked, Allow, t1, t2);
    }
  }

  lemma {:induction false} ConfigIsSet(l: Limiter, c: Config)
    requires InTune(l, c)
    ensures SetTo(l, c.limit, c.window)
  {
    RetunedSetTo(l, c);
  }

  lemma {:induction false} StillSetTo(l: Limiter, op: Op, now: real, later: real)
    ensures forall limit, window :: SetTo(l, limit, window) ==> SetTo(Serve(l, op, now, later).limiter, limit, window)
  {
    forall limit, window | SetTo(l, limit, window) ensures SetTo(Serve(l, op, now, later).limiter, limit, window) {
      ServedSetTo(l, op, now, later, limit, window);
    }
  }

  lemma {:induction false} RetunedInTune(l: Limiter, c: Config)
    requires Sensible(c)
    ensures InTune(Retune(l, c), c)
  {
  }

  lemma {:induction false} InTuneStays(l: Limiter, c: Config)
    requires InTune(l, c)
    ensures Retune(l, c) == l
  {
  }

  lemma {:induction false} CreatedInTune(a: Algorithm, c: Config, built: real)
    requires Sensible(c)
    ensures InTune(Create(a, c, built), c)
  {
  }

  /** A call never changes a limiter's settings. */
  lemma {:induction false} ServeKeepsTune(l: Limiter, c: Config, op: Op, now: real, later: real)
    requires InTune(l, c)
    ensures InTune(Serve(l, op, now, later).limiter, c)
  {
  }
}
