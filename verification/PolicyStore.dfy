/** app/policies/store.py: policies with an audit trail written in the same atomic step. */
module PolicyStore {
  import opened Prelude
  import opened Policies
  import opened Audit

  // ----- What the two stores share: policies and the full trail of changes

  datatype Ledger = Ledger(policies: map<string, Policy>, trail: seq<Event>)

  function Apply(m: map<string, Policy>, e: Event): map<string, Policy> {
    if e.next.Some? then m[e.route := e.next.value] else m - {e.route}
  }

  /** The policies a trail of events amounts to. */
  function Replay(trail: seq<Event>): map<string, Policy>
    decreases |trail|
  {
    if trail == [] then map[] else Apply(Replay(trail[..|trail| - 1]), trail[|trail| - 1])
  }

  /** The new policy of the latest event on a route. */
  function LastOn(trail: seq<Event>, route: string): Option<Policy>
    decreases |trail|
  {
    if trail == [] then None
    else
      var n := |trail| - 1;
      if trail[n].route == route then trail[n].next else LastOn(trail[..n], route)
  }

  /** The event as stored: its previous policy is the one actually replaced. */
  function Recorded(l: Ledger, e: Event): Event {
    e.(previous := Get(l.policies, e.route))
  }

  function Commit(l: Ledger, e: Event): Ledger {
    Ledger(Apply(l.policies, e), l.trail + [Recorded(l, e)])
  }

  /** Each event's previous policy is the new policy of the event before it on its route. */
  predicate Chained(trail: seq<Event>) {
    forall i :: 0 <= i < |trail| ==> trail[i].previous == LastOn(trail[..i], trail[i].route)
  }

  /** The policies are exactly the replay of the trail, and the trail is chained. */
  predicate Consistent(l: Ledger) {
    l.policies == Replay(l.trail) && Chained(l.trail)
  }

  lemma {:induction false} ReplayIsLastOn(trail: seq<Event>, route: string)
    ensures Get(Replay(trail), route) == LastOn(trail, route)
    decreases |trail|
  {
    if trail != [] {
      ReplayIsLastOn(trail[..|trail| - 1], route);
    }
  }

  lemma {:induction false} CommitConsistent(l: Ledger, e: Event)
    requires Consistent(l)
    ensures Consistent(Commit(l, e))
  {
    var r := Recorded(l, e);
    var trail := l.trail + [r];
    assert trail[..|l.trail|] == l.trail;
    ReplayIsLastOn(l.trail, e.route);
    forall i | 0 <= i < |trail| ensures trail[i].previous == LastOn(trail[..i], trail[i].route) {
      if i < |l.trail| {
        assert trail[..i] == l.trail[..i];
      }
    }
  }

  // ----- The memory store

  datatype Result = Done | Absent | NoAudit | Failed

  class MemoryPolicyStore {
    var policies: map<string, Policy>
    const audit: MemoryAuditStore?

    ghost predicate Valid()
      reads this, audit
    {
      audit != null ==> audit.Valid()
    }

    ghost function View(): Ledger
      requires audit != null
      reads this, audit
    {
      Ledger(policies, audit.trail)
    }

    constructor (audit: MemoryAuditStore?)
      requires audit != null ==> audit.Valid()
      ensures Valid() && policies == map[] && this.audit == audit
    {
      this.audit, policies := audit, map[];
    }

    method Set(p: Policy)
      modifies this`policies
      ensures policies == old(policies)[p.route := p]
    {
      policies := policies[p.route := p];
    }

    method Delete(route: string) returns (existed: bool)
      modifies this`policies
      ensures existed == (route in old(policies)) && policies == old(policies) - {route}
    {
      existed := route in policies;
      policies := policies - {route};
    }

    /** `recorded` says whether appending the event succeeds. The event is appended before the
        policy changes, so a failing append leaves everything as it was. */
    method SetWithAudit(p: Policy, e: Event, recorded: bool) returns (r: Result)
      requires Valid() && e.route == p.route && e.next == Some(p)
      modifies this`policies, audit
      ensures Valid()
      ensures r == if audit == null then NoAudit else if recorded then Done else Failed
      ensures r == Done ==> View() == Commit(old(View()), e)
      ensures r != Done ==> policies == old(policies) && (audit != null ==> View() == old(View()))
    {
      if audit == null {
        return NoAudit;
      }
      var previous := Get(policies, p.route);
      if !recorded {
        return Failed;
      }
      audit.Append(e.(previous := previous));
      policies := policies[p.route := p];
      return Done;
    }

    method DeleteWithAudit(route: string, e: Event, recorded: bool) returns (r: Result)
      requires Valid() && e.route == route && e.next == None
      modifies this`policies, audit
      ensures Valid()
      ensures r == if audit == null then NoAudit else if route !in old(policies) then Absent
                   else if recorded then Done else Failed
      ensures r == Done ==> View() == Commit(old(View()), e) && View().trail[|old(View()).trail|].previous.Some?
      ensures r != Done ==> policies == old(policies) && (audit != null ==> View() == old(View()))
    {
      if audit == null {
        return NoAudit;
      }
      var previous := Get(policies, route);
      if previous == None {
        return Absent;
      }
      if !recorded {
        return Failed;
      }
      audit.Append(e.(previous := previous));
      policies := policies - {route};
      return Done;
    }
  }

  // ----- The Redis store

  /** Where the script stops: it may fail between two commands, and what it wrote stays. */
  datatype Fault = NoFault | BeforeWriting | AfterDocument | AfterIndex

  class RedisPolicyStore {
    var documents: map<string, Policy>
    var index: set<string>
    const audit: RedisAuditStore

    ghost predicate Valid()
      reads this, audit
    {
      audit.Valid()
    }

    ghost function View(): Ledger
      reads this, audit
    {
      Ledger(documents, audit.trail)
    }

    constructor (audit: RedisAuditStore)
      requires audit.Valid()
      ensures Valid() && documents == map[] && index == {} && this.audit == audit
    {
      this.audit, documents, index := audit, map[], {};
    }

    /** GET, SET, SADD, XADD with XTRIM. */
    method SetWithAudit(p: Policy, e: Event, fault: Fault) returns (r: Result)
      requires Valid() && e.route == p.route && e.next == Some(p)
      modifies this`documents, this`index, audit
      ensures Valid()
      ensures r == if fault == NoFault then Done else Failed
      ensures View() == AfterSet(old(View()), e, fault)
      ensures index == if fault.NoFault? || fault.AfterIndex? then old(index) + {p.route} else old(index)
    {
      var previous := Get(documents, p.route);
      if fault == BeforeWriting {
        return Failed;
      }
      documents := documents[p.route := p];
      if fault == AfterDocument {
        return Failed;
      }
      index := index + {p.route};
      if fault == AfterIndex {
        return Failed;
      }
      audit.Append(e.(previous := previous));
      return Done;
    }

    /** GET, DEL, SREM, XADD with XTRIM. */
    method DeleteWithAudit(route: string, e: Event, fault: Fault) returns (r: Result)
      requires Valid() && e.route == route && e.next == None
      modifies this`documents, this`index, audit
      ensures Valid()
      ensures r == if route !in old(documents) then Absent else if fault == NoFault then Done else Failed
      ensures View() == if r == Absent then old(View()) else AfterSet(old(View()), e, fault)
      ensures index == if r != Absent && (fault.NoFault? || fault.AfterIndex?) then old(index) - {route} else old(index)
    {
      var previous := Get(documents, route);
      if previous == None {
        return Absent;
      }
      if fault == BeforeWriting {
        return Failed;
      }
      documents := documents - {route};
      if fault == AfterDocument {
        return Failed;
      }
      index := index - {route};
      if fault == AfterIndex {
        return Failed;
      }
      audit.Append(e.(previous := previous));
      return Done;
    }
  }

  function AfterSet(l: Ledger, e: Event, fault: Fault): Ledger {
    match fault
    case NoFault => Commit(l, e)
    case BeforeWriting => l
    case _ => l.(policies := Apply(l.policies, e))
  }

  /** A Redis script that fails midway keeps the ledger consistent if and only if nothing had been
      written, or what had been written is what was already there. That a mutation never survives
      without its audit event (store.py:30) is true only of scripts that run to their end. */
  lemma {:induction false} FaultConsistentIff(l: Ledger, e: Event, fault: Fault)
    requires Consistent(l)
    ensures Consistent(AfterSet(l, e, fault))
            <==> fault == NoFault || fault == BeforeWriting || e.next == Get(l.policies, e.route)
  {
    if fault == NoFault {
      CommitConsistent(l, e);
    } else if fault != BeforeWriting {
      assert Get(Apply(l.policies, e), e.route) == e.next;
      if e.next == Get(l.policies, e.route) {
        assert Apply(l.policies, e) == l.policies;
      }
    }
  }
}
