/** The admin handlers of app/main.py over the memory store: look, write with audit, invalidate. */
module AdminApi {
  import opened Prelude
  import opened Policies
  import opened PolicyStore
  import opened Resolver
  import AdminRuns

  datatype Status = Created201 | Ok200 | NoContent204 | NotFound404 | Conflict409 | Unavailable503

  /** What a handler leaves when nothing comes between its look and its write. */
  function Uninterrupted(l: Ledger, look: AdminRuns.Step, eventId: string, recorded: bool): Ledger
    requires look.LookForCreate? || look.LookForUpdate?
  {
    var seen := AdminRuns.Next(AdminRuns.State(l, [], [], map[]), look);
    if look.thread !in seen.pending then seen.ledger
    else AdminRuns.Next(seen, AdminRuns.Write(look.thread, eventId, recorded)).ledger
  }

  /** What the route is limited by from now on is not in the cache, so the next lookup reads it from the
      store: the policy's own limit and window, or none that is enabled. */
  ghost predicate SeenNext(r: PolicyResolver, route: string, config: Option<Config>)
    reads r, r.store
  {
    && Lookup(r.cache, Some(route)).None?
    && (config.Some? ==>
          && route in r.store.policies && r.store.policies[route].enabled
          && r.store.policies[route].limit == config.value.limit && r.store.policies[route].window == config.value.window)
    && (config == None ==> route in r.store.policies ==> !r.store.policies[route].enabled)
  }

  class AdminHandlers {
    const resolver: PolicyResolver

    ghost predicate Valid()
      reads this, resolver, resolver.store, resolver.store.audit
    {
      && resolver.Valid() && resolver.store.Valid() && resolver.store.audit != null
      && (forall r :: r in resolver.store.policies ==> resolver.store.policies[r].route == r)
    }

    ghost function View(): Ledger
      requires resolver.store.audit != null
      reads resolver.store, resolver.store.audit
    {
      resolver.store.View()
    }

    ghost function Enforced(p: Policy): (r: Option<Config>) {
      if p.enabled then Some(Config(p.limit, p.window)) else None
    }

    constructor (resolver: PolicyResolver)
      requires resolver.Valid() && resolver.store.Valid() && resolver.store.audit != null
      requires forall r :: r in resolver.store.policies ==> resolver.store.policies[r].route == r
      ensures Valid() && this.resolver == resolver
    {
      this.resolver := resolver;
    }

    method CreateRateLimit(policy: Policy, eventId: string, recorded: bool) returns (status: Status)
      requires Valid()
      modifies resolver`cache, resolver.store`policies, resolver.store.audit
      ensures Valid()
      ensures status == if policy.route in old(resolver.store.policies) then Conflict409
                        else if recorded then Created201 else Unavailable503
      ensures View() == Uninterrupted(old(View()), AdminRuns.LookForCreate(0, policy), eventId, recorded)
      ensures status == Created201 ==>
                resolver.store.policies == old(resolver.store.policies)[policy.route := policy]
                && SeenNext(resolver, policy.route, Enforced(policy))
      ensures status != Created201 ==> View() == old(View()) && resolver.cache == old(resolver.cache)
    {
      if Get(resolver.store.policies, policy.route) != None {
        return Conflict409;
      }
      var event := Event(eventId, Create, policy.route, None, Some(policy), AdminRuns.ADMIN);
      var written := resolver.store.SetWithAudit(policy, event, recorded);
      if written != Done {
        return Unavailable503;
      }
      resolver.Invalidate(Some(policy.route));
      return Created201;
    }

    method UpdateRateLimit(route: string, fields: Fields, eventId: string, recorded: bool)
      returns (status: Status)
      requires Valid()
      modifies resolver`cache, resolver.store`policies, resolver.store.audit
      ensures Valid()
      ensures status == if route !in old(resolver.store.policies) then NotFound404
                        else if recorded then Ok200 else Unavailable503
      ensures View() == Uninterrupted(old(View()), AdminRuns.LookForUpdate(0, route, fields), eventId, recorded)
      ensures status == Ok200 ==>
                && route in resolver.store.policies
                && var p := resolver.store.policies[route];
                   && Updated(p, old(resolver.store.policies)[route], fields.limit, fields.window, fields.enabled)
                   && resolver.store.policies == old(resolver.store.policies)[route := p]
                   && SeenNext(resolver, route, Enforced(p))
      ensures status != Ok200 ==> View() == old(View()) && resolver.cache == old(resolver.cache)
    {
      var existing := Get(resolver.store.policies, route);
      if existing == None {
        return NotFound404;
      }
      var policy := Merge(existing.value, fields);
      var event := Event(eventId, Update, route, existing, Some(policy), AdminRuns.ADMIN);
      var written := resolver.store.SetWithAudit(policy, event, recorded);
      if written != Done {
        return Unavailable503;
      }
      resolver.Invalidate(Some(policy.route));
      return Ok200;
    }

    method DeleteRateLimit(route: string, eventId: string, recorded: bool) returns (status: Status)
      requires Valid()
      modifies resolver`cache, resolver.store`policies, resolver.store.audit
      ensures Valid()
      ensures status == if route !in old(resolver.store.policies) then NotFound404
                        else if recorded then NoContent204 else Unavailable503
      ensures View() == AdminRuns.Next(AdminRuns.State(old(View()), [], [], map[]),
                                       AdminRuns.DeleteNow(route, eventId, recorded)).ledger
      ensures status == NoContent204 ==>
                resolver.store.policies == old(resolver.store.policies) - {route} && SeenNext(resolver, route, None)
      ensures status != NoContent204 ==> View() == old(View()) && resolver.cache == old(resolver.cache)
    {
      var event := Event(eventId, Delete, route, None, None, AdminRuns.ADMIN);
      var deleted := resolver.store.DeleteWithAudit(route, event, recorded);
      if deleted == Failed {
        return Unavailable503;
      }
      if deleted == Absent {
        return NotFound404;
      }
      resolver.Invalidate(Some(route));
      return NoContent204;
    }
  }

  /** A handler that nothing interrupts keeps the ledger consistent and logs what its label says. */
  lemma {:induction false} UninterruptedConsistent(l: Ledger, look: AdminRuns.Step, eventId: string, recorded: bool)
    requires Consistent(l) && (look.LookForCreate? || look.LookForUpdate?)
    ensures var r := Uninterrupted(l, look, eventId, recorded);
            && Consistent(r) && l.trail <= r.trail && |r.trail| <= |l.trail| + 1
            && (|r.trail| > |l.trail| ==>
                  var e := r.trail[|l.trail|];
                  if look.LookForCreate? then e.operation == Create && e.previous == None && e.next == Some(look.policy)
                  else look.route in l.policies && e.operation == Update
                       && (l.policies[look.route].route == look.route ==>
                             && e.previous == Some(l.policies[look.route]) && e.next.Some?
                             && Updated(e.next.value, l.policies[look.route], look.fields.limit, look.fields.window, look.fields.enabled)))
  {
    hide Consistent, Merge, Updated, Apply;
    var s := AdminRuns.State(l, [], [], map[]);
    var seen := AdminRuns.Next(s, look);
    if look.thread in seen.pending && recorded {
      CommitConsistent(l, AdminRuns.EventOf(seen.pending[look.thread], eventId));
      if look.LookForUpdate? {
        var q := l.policies[look.route];
        MergeUpdates(q, look.fields, Merge(q, look.fields));
      }
    }
  }
}
