/** app/policies/model.py and the events of app/policies/audit.py, as already validated records. */
module Policies {
  import opened Prelude

  /** A stored policy; validation has made limit and window at least 1. */
  datatype Policy = Policy(route: string, limit: int, window: int, enabled: bool)

  datatype Operation = Create | Update | Delete

  /** One audit event with its two snapshots. */
  datatype Event = Event(eventId: string, operation: Operation, route: string,
                         previous: Option<Policy>, next: Option<Policy>, actor: string)

  /** The fields of an update request: what is left out keeps the stored value. */
  datatype Fields = Fields(limit: Option<int>, window: Option<int>, enabled: Option<bool>)

  function Merge(p: Policy, f: Fields): Policy {
    Policy(p.route,
           if f.limit.Some? then f.limit.value else p.limit,
           if f.window.Some? then f.window.value else p.window,
           if f.enabled.Some? then f.enabled.value else p.enabled)
  }

  /** p is q with the fields given, and only those, changed to the values given. */
  ghost predicate Updated(p: Policy, q: Policy, limit: Option<int>, window: Option<int>, enabled: Option<bool>) {
    && p.route == q.route
    && (limit.Some? ==> p.limit == limit.value) && (limit.None? ==> p.limit == q.limit)
    && (window.Some? ==> p.window == window.value) && (window.None? ==> p.window == q.window)
    && (enabled.Some? ==> p.enabled == enabled.value) && (enabled.None? ==> p.enabled == q.enabled)
  }

  lemma {:induction false} MergeUpdates(q: Policy, f: Fields, p: Policy)
    ensures Updated(p, q, f.limit, f.window, f.enabled) <==> p == Merge(q, f)
  {
  }

  function Get(m: map<string, Policy>, route: string): Option<Policy> {
    if route in m then Some(m[route]) else None
  }
}
