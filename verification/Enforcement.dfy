/** The facade with a resolver wired in, as app/main.py:206-213 builds it: what the policies say is what the
    limiters enforce. */
module Enforcement {
  import opened Prelude
  import opened Policies
  import opened Limiters
  import opened Facade
  import opened Resolver

  /** Every policy and every cached resolution has a limit and a window of at least 1. */
  ghost predicate SensiblePolicies(r: PolicyResolver)
    reads r, r.store
  {
    && (forall route :: route in r.store.policies ==> r.store.policies[route].limit >= 1 && r.store.policies[route].window >= 1)
    && (forall route :: route in r.fallbacks.statics ==> Sensible(r.fallbacks.statics[route]))
    && Sensible(r.fallbacks.globals)
    && (forall e :: e in r.cache ==> Sensible(e.value.config))
  }

  /** The resolver has no live entry for the route. */
  ghost predicate MustLookUp(r: PolicyResolver, route: Option<string>, now: real)
    reads r
  {
    var found := Lookup(r.cache, route);
    found.Some? ==> found.value.expires <= now
  }

  /** One request through both. If the resolver has to look the route up, the limiter that decides is set to
      the enabled policy stored for the route; without one to the route's configured limit; and without
      that to the global one. After a change answered by the admin handlers that is the next request. */
  method AllowRequest(f: RateLimiter, r: PolicyResolver, key: string, route: Option<string>,
                      asked: real, stamped: real, now: real, built: real, t1: real, t2: real)
    returns (ok: bool, ghost h: Handle)
    requires f.Valid() && r.Valid() && SensiblePolicies(r) && r !in f.repr && r.store !in f.repr
    requires asked <= stamped && now <= built <= t1 <= t2
    modifies r`cache, f`limiters, f`repr, f.repr
    ensures f.Valid() && r.Valid() && SensiblePolicies(r) && r.store.policies == old(r.store.policies)
    ensures old(MustLookUp(r, route, asked)) ==>
              && (route.Some? && route.value in r.store.policies && r.store.policies[route.value].enabled ==>
                    SetTo(View(h), r.store.policies[route.value].limit, r.store.policies[route.value].window))
              && (route.Some? && (route.value in r.store.policies ==> !r.store.policies[route.value].enabled)
                  && route.value in r.fallbacks.statics ==>
                    SetTo(View(h), r.fallbacks.statics[route.value].limit, r.fallbacks.statics[route.value].window))
              && ((route.Some? ==> (route.value in r.store.policies ==> !r.store.policies[route.value].enabled)
                                   && route.value !in r.fallbacks.statics) ==>
                    SetTo(View(h), r.fallbacks.globals.limit, r.fallbacks.globals.window))
    ensures !old(MustLookUp(r, route, asked)) ==>
              var cached := old(Lookup(r.cache, route)).value.value;
              SetTo(View(h), cached.config.limit, cached.config.window)
  {
    hide SetTo, View, RateLimiter.Valid;
    var e := r.GetEffective(route, asked, stamped);
    ok, h := f.AllowRequest(key, route, Some(e.config), now, built, t1, t2);
  }
}
