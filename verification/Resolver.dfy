/** app/policies/resolver.py: dynamic over static over global limits, behind a cache with a time to
    live. A route is optional because the limiter also resolves calls without one. */
module Resolver {
  import opened Prelude
  import opened Policies
  import opened PolicyStore

  datatype Source = FromDynamic | FromStatic | FromGlobal

  datatype Effective = Effective(route: Option<string>, config: Config, source: Source,
                                 enabled: Option<bool>, policy: Option<Policy>)

  /** What a resolver is configured with. */
  datatype Fallbacks = Fallbacks(statics: map<string, Config>, globals: Config)

  /** `_resolve`, given what the store holds. */
  function Resolve(route: Option<string>, stored: map<string, Policy>, f: Fallbacks): Effective {
    var policy := if route.Some? then Get(stored, route.value) else None;
    if policy.Some? && policy.value.enabled then
      Effective(route, Config(policy.value.limit, policy.value.window), FromDynamic, Some(true), policy)
    else
      var enabled := if policy.Some? then Some(false) else None;
      if route.Some? && route.value in f.statics then Effective(route, f.statics[route.value], FromStatic, enabled, policy)
      else Effective(route, f.globals, FromGlobal, enabled, policy)
  }

  /** The documented precedence, dynamic over static over global: what a resolution has to be, from what is
      stored and what is configured. */
  ghost predicate Precedence(e: Effective, route: Option<string>, stored: map<string, Policy>,
                             statics: map<string, Config>, globals: Config) {
    && e.route == route
    && e.policy == (if route.Some? && route.value in stored then Some(stored[route.value]) else None)
    // An enabled stored policy: its own limit and window.
    && (route.Some? && route.value in stored && stored[route.value].enabled ==>
          && e.config.limit == stored[route.value].limit && e.config.window == stored[route.value].window
          && e.source == FromDynamic && e.enabled == Some(true))
    // Otherwise a configured route: its own.
    && (route.Some? && (route.value in stored ==> !stored[route.value].enabled) && route.value in statics ==>
          e.config == statics[route.value] && e.source == FromStatic)
    // Otherwise, and without a route: the global one.
    && ((route.Some? ==> (route.value in stored ==> !stored[route.value].enabled) && route.value !in statics) ==>
          e.config == globals && e.source == FromGlobal)
    // A fallback says whether a disabled policy stands behind it.
    && (e.source != FromDynamic ==> e.enabled == if e.policy.Some? then Some(false) else None)
  }

  /** `_resolve` follows it, and nothing else does. */
  lemma {:induction false} ResolvesByPrecedence(route: Option<string>, stored: map<string, Policy>, f: Fallbacks, e: Effective)
    ensures Precedence(e, route, stored, f.statics, f.globals) <==> e == Resolve(route, stored, f)
  {
  }

  /** A disabled policy limits exactly as if it had been deleted: the route falls back, it is
      never left unlimited. */
  lemma {:induction false} DisabledIsDeleted(route: string, stored: map<string, Policy>, f: Fallbacks)
    requires route in stored && !stored[route].enabled
    ensures Resolve(Some(route), stored, f).config == Resolve(Some(route), stored - {route}, f).config
    ensures Resolve(Some(route), stored, f).source == Resolve(Some(route), stored - {route}, f).source != FromDynamic
  {
  }

  // ----- The cache: a dictionary in insertion order, capped

  datatype Entry<V> = Entry(route: Option<string>, expires: real, value: V)

  const MAX_CACHED: nat := 10_000

  function Lookup<V>(c: seq<Entry<V>>, route: Option<string>): (r: Option<Entry<V>>)
    ensures r.Some? ==> r.value in c && r.value.route == route
    ensures r.None? ==> forall e :: e in c ==> e.route != route
    decreases |c|
  {
    if c == [] then None else if c[0].route == route then Some(c[0]) else Lookup(c[1..], route)
  }

  /** Assigning to a key that is present keeps its place in the order. */
  function Assign<V>(c: seq<Entry<V>>, e: Entry<V>): seq<Entry<V>>
    decreases |c|
  {
    if c == [] then [e] else if c[0].route == e.route then [e] + c[1..] else [c[0]] + Assign(c[1..], e)
  }

  /** `invalidate`: one route, or everything when no route is named. */
  function Dropped<V>(c: seq<Entry<V>>, route: Option<string>): seq<Entry<V>>
    decreases |c|
  {
    if route == None || c == [] then []
    else (if c[0].route == route then [] else [c[0]]) + Dropped(c[1..], route)
  }

  predicate OneEach<V>(c: seq<Entry<V>>) {
    forall i, j :: 0 <= i < j < |c| ==> c[i].route != c[j].route
  }

  lemma {:induction false} AssignMembers<V>(c: seq<Entry<V>>, e: Entry<V>)
    requires OneEach(c)
    ensures OneEach(Assign(c, e)) && e in Assign(c, e)
    ensures forall x :: x in Assign(c, e) ==> x == e || (x in c && x.route != e.route)
    ensures forall x :: x in c && x.route != e.route ==> x in Assign(c, e)
    ensures |Assign(c, e)| == |c| + if Lookup(c, e.route).Some? then 0 else 1
    ensures Lookup(c, e.route).None? ==> Assign(c, e) == c + [e]
    decreases |c|
  {
    if c != [] {
      FirstDiffers(c);
      if c[0].route != e.route {
        AssignMembers(c[1..], e);
        forall y | y in Assign(c[1..], e) ensures y.route != c[0].route {
          assert y == e || y in c[1..];
        }
        OneEachFirst(c[0], Assign(c[1..], e));
      } else {
        OneEachFirst(e, c[1..]);
      }
      assert c == [c[0]] + c[1..];
    }
  }

  lemma {:induction false} OneEachFirst<V>(x: Entry<V>, rest: seq<Entry<V>>)
    requires OneEach(rest) && forall y :: y in rest ==> y.route != x.route
    ensures OneEach([x] + rest)
  {
    forall i | 0 <= i < |rest| ensures rest[i].route != x.route {
      assert rest[i] in rest;
    }
  }

  lemma {:induction false} FirstDiffers<V>(c: seq<Entry<V>>)
    requires OneEach(c) && c != []
    ensures forall x :: x in c[1..] ==> x.route != c[0].route
  {
    forall x | x in c[1..] ensures x.route != c[0].route {
      var i :| 0 <= i < |c[1..]| && c[1..][i] == x;
      assert c[i + 1] == x;
    }
  }

  /** After an insertion within the cap the new entry is found, whatever had to be popped: the earliest
      insertion, and only if the route is new and the cache was full. */
  lemma {:induction false} InsertedFound<V>(c: seq<Entry<V>>, e: Entry<V>)
    requires OneEach(c) && |c| <= MAX_CACHED
    ensures var r := Newest(Assign(c, e), MAX_CACHED);
            && OneEach(r) && |r| <= MAX_CACHED && Lookup(r, e.route) == Some(e)
            && (forall x :: x in r ==> x == e || (x in c && x.route != e.route))
            && (forall x :: x in c && x.route != e.route ==>
                  x in r || (x == c[0] && |c| == MAX_CACHED && Lookup(c, e.route).None?))
  {
    AssignMembers(c, e);
    var all := Assign(c, e);
    var r := Newest(all, MAX_CACHED);
    if |all| > MAX_CACHED {
      assert r == all[1..] && r[|r| - 1] == e;
    }
    assert e in r;
    assert OneEach(r);
    assert forall x :: x in r ==> x in all;
    LookupFinds(r, e);
  }

  lemma {:induction false} LookupFinds<V>(c: seq<Entry<V>>, e: Entry<V>)
    requires OneEach(c) && e in c
    ensures Lookup(c, e.route) == Some(e)
    decreases |c|
  {
    var i :| 0 <= i < |c| && c[i] == e;
    if i > 0 {
      assert c[0].route != c[i].route;
      assert c[1..][i - 1] == e;
      LookupFinds(c[1..], e);
    }
  }

  /** Dropping a route takes its entry away and no other; without a route everything goes. */
  lemma {:induction false} DroppedMembers<V>(c: seq<Entry<V>>, route: Option<string>)
    requires OneEach(c)
    ensures OneEach(Dropped(c, route)) && |Dropped(c, route)| <= |c|
    ensures forall x :: x in Dropped(c, route) ==> x in c && x.route != route && route != None
    ensures forall x :: x in c && x.route != route && route != None ==> x in Dropped(c, route)
    decreases |c|
  {
    if c != [] && route != None {
      FirstDiffers(c);
      DroppedMembers(c[1..], route);
      var rest := Dropped(c[1..], route);
      forall y | y in rest ensures y.route != c[0].route {
        assert y in c[1..];
      }
      OneEachFirst(c[0], rest);
      assert [] + rest == rest;
      assert c == [c[0]] + c[1..];
    }
  }

  class PolicyResolver {
    const store: MemoryPolicyStore
    const fallbacks: Fallbacks
    const cacheTtl: real
    var cache: seq<Entry<Effective>>

    ghost predicate Valid()
      reads this
    {
      OneEach(cache) && |cache| <= MAX_CACHED
    }

    constructor (store: MemoryPolicyStore, fallbacks: Fallbacks, cacheTtl: real)
      ensures Valid() && cache == [] && this.store == store && this.fallbacks == fallbacks && this.cacheTtl == cacheTtl
    {
      this.store, this.fallbacks, this.cacheTtl, cache := store, fallbacks, cacheTtl, [];
    }

    /** The first locked section of `effective`. */
    method CheckCache(route: Option<string>, now: real) returns (r: Option<Effective>)
      ensures var found := Lookup(cache, route);
              r == if found.Some? && found.value.expires > now then Some(found.value.value) else None
    {
      var found := Lookup(cache, route);
      if found.Some? && found.value.expires > now {
        return Some(found.value.value);
      }
      return None;
    }

    method ReadStore(route: Option<string>) returns (e: Effective)
      ensures e == Resolve(route, store.policies, fallbacks)
    {
      e := Resolve(route, store.policies, fallbacks);
    }

    /** The loop that pops the first entries until the cap holds. */
    method PopFirst()
      modifies this`cache
      ensures cache == Newest(old(cache), MAX_CACHED)
    {
      ghost var all := cache;
      while |cache| > MAX_CACHED
        invariant |cache| <= |all| && cache == all[|all| - |cache|..]
        invariant |cache| >= MAX_CACHED || cache == all
        decreases |cache|
      {
        cache := cache[1..];
      }
    }

    /** The second locked section of `effective`. */
    method InsertResult(route: Option<string>, e: Effective, stamped: real)
      requires Valid()
      modifies this`cache
      ensures Valid() && cache == Newest(Assign(old(cache), Entry(route, stamped + cacheTtl, e)), MAX_CACHED)
      ensures Lookup(cache, route) == Some(Entry(route, stamped + cacheTtl, e))
    {
      var entry := Entry(route, stamped + cacheTtl, e);
      InsertedFound(cache, entry);
      cache := Assign(cache, entry);
      PopFirst();
    }

    /** The three parts in a row. */
    method GetEffective(route: Option<string>, now: real, stamped: real) returns (e: Effective)
      requires Valid() && now <= stamped
      modifies this`cache
      ensures Valid()
      ensures var found := Lookup(old(cache), route);
              if found.Some? && found.value.expires > now then e == found.value.value && cache == old(cache)
              else Precedence(e, route, store.policies, fallbacks.statics, fallbacks.globals)
                   && Lookup(cache, route) == Some(Entry(route, stamped + cacheTtl, e))
      ensures forall x :: x in cache ==> x in old(cache) || x == Entry(route, stamped + cacheTtl, e)
    {
      var cached := CheckCache(route, now);
      if cached.Some? {
        return cached.value;
      }
      e := ReadStore(route);
      InsertedFound(cache, Entry(route, stamped + cacheTtl, e));
      ResolvesByPrecedence(route, store.policies, fallbacks, e);
      InsertResult(route, e, stamped);
    }

    method Invalidate(route: Option<string>)
      requires Valid()
      modifies this`cache
      ensures Valid() && cache == Dropped(old(cache), route)
      ensures Lookup(cache, route).None?
    {
      DroppedMembers(cache, route);
      cache := Dropped(cache, route);
    }

    /** `set_policy`: with an existing policy an omitted limit or window inherits its value, but
        `enabled` never does; without one an omitted value is an error and nothing is written. */
    method SetPolicy(route: string, limit: Option<int>, window: Option<int>, enabled: bool, existing: Option<Policy>)
      returns (written: Option<Policy>)
      requires Valid()
      modifies this`cache, store`policies
      ensures Valid()
      ensures written.None? <==> existing.None? && (limit.None? || window.None?)
      ensures written.None? ==> store.policies == old(store.policies) && cache == old(cache)
      ensures written.Some? ==>
                var p := written.value;
                && p.route == (if existing.Some? then existing.value.route else route)
                && (limit.Some? ==> p.limit == limit.value) && (limit.None? ==> existing.Some? && p.limit == existing.value.limit)
                && (window.Some? ==> p.window == window.value) && (window.None? ==> existing.Some? && p.window == existing.value.window)
                && p.enabled == enabled
                && store.policies == old(store.policies)[p.route := p]
                && Lookup(cache, Some(p.route)).None?
    {
      if existing.None? && (limit.None? || window.None?) {
        return None;
      }
      var base := if existing.Some? then existing.value else Policy(route, limit.value, window.value, enabled);
      var policy := Policy(base.route,
                           if limit.Some? then limit.value else base.limit,
                           if window.Some? then window.value else base.window,
                           enabled);
      store.Set(policy);
      Invalidate(Some(policy.route));
      return Some(policy);
    }

    method DeletePolicy(route: string) returns (deleted: bool)
      requires Valid()
      modifies this`cache, store`policies
      ensures Valid() && deleted == (route in old(store.policies)) && store.policies == old(store.policies) - {route}
      ensures if deleted then Lookup(cache, Some(route)).None? else cache == old(cache)
    {
      deleted := store.Delete(route);
      if deleted {
        Invalidate(Some(route));
      }
    }
  }
}
