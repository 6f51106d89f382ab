/** app/policies/audit.py: the bounded trail of policy changes, in memory and as a Redis stream. */
module Audit {
  import opened Prelude
  import opened Policies

  function Reversed<T>(s: seq<T>): (r: seq<T>)
    ensures |r| == |s| && forall i :: 0 <= i < |s| ==> r[i] == s[|s| - 1 - i]
  {
    seq(|s|, i requires 0 <= i < |s| => s[|s| - 1 - i])
  }

  /** Exact-match filters; an absent one matches everything. */
  datatype Filter = Filter(route: Option<string>, operation: Option<Operation>)

  predicate Matches(e: Event, f: Filter) {
    && (f.route.Some? ==> e.route == f.route.value)
    && (f.operation.Some? ==> e.operation == f.operation.value)
  }

  function Matching(es: seq<Event>, f: Filter): seq<Event>
    decreases |es|
  {
    if es == [] then []
    else (if Matches(es[0], f) then [es[0]] else []) + Matching(es[1..], f)
  }

  function First<T>(s: seq<T>, n: nat): seq<T> {
    if |s| > n then s[..n] else s
  }

  /** What memory mode lists: all retained matches, newest first, cut to the limit. */
  function MemoryListing(retained: seq<Event>, limit: Option<int>, f: Filter): seq<Event> {
    var found := Matching(Reversed(retained), f);
    if limit.Some? then First(found, MaxInt(0, limit.value)) else found
  }

  /** How many recent entries the Redis listing examines. */
  function ScanWindow(count: nat): nat {
    MinInt(MaxInt(count * 5, 100), 500)
  }

  /** `max(1, int(limit or 50))`: no limit and limit 0 both mean 50. */
  function Wanted(limit: Option<int>): nat {
    MaxInt(1, if limit.Some? && limit.value != 0 then limit.value else 50)
  }

  function RedisListing(retained: seq<Event>, limit: Option<int>, f: Filter): seq<Event> {
    First(Matching(First(Reversed(retained), ScanWindow(Wanted(limit))), f), Wanted(limit))
  }

  class MemoryAuditStore {
    const maxEvents: nat
    var events: seq<Event>
    // Every event ever appended since the last clear.
    ghost var trail: seq<Event>

    ghost predicate Valid()
      reads this
    {
      maxEvents >= 1 && events == Newest(trail, maxEvents)
    }

    constructor (maxEvents: nat)
      requires maxEvents >= 1
      ensures Valid() && trail == [] && this.maxEvents == maxEvents
    {
      this.maxEvents, events, trail := maxEvents, [], [];
    }

    method Append(e: Event)
      requires Valid()
      modifies this
      ensures Valid() && trail == old(trail) + [e] && events == Newest(old(trail) + [e], maxEvents)
    {
      events := events + [e];
      if |events| > maxEvents {
        events := events[1..];
      }
      trail := trail + [e];
    }

    method List(limit: Option<int>, f: Filter) returns (r: seq<Event>)
      ensures r == MemoryListing(events, limit, f)
    {
      r := Matching(Reversed(events), f);
      if limit.Some? {
        r := First(r, MaxInt(0, limit.value));
      }
    }

    /** The newest retained event with the id. */
    method GetEvent(eventId: string) returns (r: Option<Event>)
      ensures r == None ==> forall e :: e in events ==> e.eventId != eventId
      ensures r.Some? ==> exists i :: 0 <= i < |events| && events[i] == r.value && r.value.eventId == eventId
                                      && forall j :: i < j < |events| ==> events[j].eventId != eventId
    {
      var i: nat := |events|;
      while i > 0
        invariant i <= |events|
        invariant forall j :: i <= j < |events| ==> events[j].eventId != eventId
      {
        i := i - 1;
        if events[i].eventId == eventId {
          return Some(events[i]);
        }
      }
      return None;
    }

    method Clear()
      requires Valid()
      modifies this
      ensures Valid() && events == [] && trail == []
    {
      events := [];
      trail := [];
    }
  }

  class RedisAuditStore {
    const maxEvents: nat
    var stream: seq<Event>
    ghost var trail: seq<Event>

    ghost predicate Valid()
      reads this
    {
      maxEvents >= 1 && stream == Newest(trail, maxEvents)
    }

    constructor (maxEvents: nat)
      requires maxEvents >= 1
      ensures Valid() && trail == [] && this.maxEvents == maxEvents
    {
      this.maxEvents, stream, trail := maxEvents, [], [];
    }

    /** XADD and XTRIM MAXLEN in one transaction. */
    method Append(e: Event)
      requires Valid()
      modifies this
      ensures Valid() && trail == old(trail) + [e] && stream == Newest(old(trail) + [e], maxEvents)
    {
      stream := stream + [e];
      if |stream| > maxEvents {
        stream := stream[|stream| - maxEvents..];
      }
      trail := trail + [e];
    }

    method List(limit: Option<int>, f: Filter) returns (events: seq<Event>)
      ensures events == RedisListing(stream, limit, f)
    {
      hide Matches, ScanWindow;
      var count := Wanted(limit);
      var entries := First(Reversed(stream), ScanWindow(count));
      events := [];
      var i := 0;
      while i < |entries|
        invariant i <= |entries| && |events| < count
        invariant events == Matching(entries[..i], f)
      {
        var event := entries[i];
        MatchingNext(entries, i, f);
        i := i + 1;
        if Matches(event, f) {
          events := events + [event];
          if |events| >= count {
            StoppingEarly(entries, i, f);
            return;
          }
        }
      }
      assert entries[..i] == entries;
    }
  }

  lemma {:induction false} MatchingNext(es: seq<Event>, i: nat, f: Filter)
    requires i < |es|
    ensures Matching(es[..i + 1], f) == if Matches(es[i], f) then Matching(es[..i], f) + [es[i]] else Matching(es[..i], f)
  {
    MatchingSnoc(es[..i], es[i], f);
    assert es[..i] + [es[i]] == es[..i + 1];
  }

  /** Matches found in a front part stay the first matches. */
  lemma {:induction false} StoppingEarly(es: seq<Event>, i: nat, f: Filter)
    requires i <= |es|
    ensures First(Matching(es, f), |Matching(es[..i], f)|) == Matching(es[..i], f)
  {
    MatchingOfConcat(es[..i], es[i..], f);
    assert es[..i] + es[i..] == es;
  }

  lemma {:induction false} MatchingOfConcat(a: seq<Event>, b: seq<Event>, f: Filter)
    ensures Matching(a + b, f) == Matching(a, f) + Matching(b, f)
    decreases |a|
  {
    if a == [] {
      assert a + b == b;
    } else {
      assert (a + b)[1..] == a[1..] + b;
      MatchingOfConcat(a[1..], b, f);
    }
  }

  lemma {:induction false} MatchingSnoc(es: seq<Event>, e: Event, f: Filter)
    ensures Matching(es + [e], f) == if Matches(e, f) then Matching(es, f) + [e] else Matching(es, f)
  {
    MatchingOfConcat(es, [e], f);
    assert [e][1..] == [];
  }

  lemma {:induction false} MatchingAll(es: seq<Event>)
    ensures Matching(es, Filter(None, None)) == es
    decreases |es|
  {
    if es != [] {
      MatchingAll(es[1..]);
      assert [es[0]] + es[1..] == es;
    }
  }

  /** For the limits the API accepts, the Redis listing is a prefix of the memory listing of the
      same trail. It is the whole of it exactly when the examined entries already hold as many
      matches as are wanted, or all there are. */
  lemma {:induction false} RedisListingIsPrefix(retained: seq<Event>, limit: int, f: Filter)
    requires 1 <= limit <= 500
    ensures var redis := RedisListing(retained, Some(limit), f);
            var memory := MemoryListing(retained, Some(limit), f);
            var examined := Matching(First(Reversed(retained), ScanWindow(limit)), f);
            && redis <= memory
            && (redis == memory <==> |examined| >= limit || |examined| == |Matching(Reversed(retained), f)|)
  {
    var newest := Reversed(retained);
    var window := First(newest, ScanWindow(limit));
    var beyond := newest[|window|..];
    assert newest == window + beyond;
    MatchingOfConcat(window, beyond, f);
    var a, b := Matching(window, f), Matching(beyond, f);
    assert First(a + b, limit) == if |a| >= limit then First(a, limit) else a + First(b, limit - |a|);
  }

  /** Without a filter the two listings are the same. */
  lemma {:induction false} UnfilteredListingsAgree(retained: seq<Event>, limit: int)
    requires 1 <= limit <= 500
    ensures RedisListing(retained, Some(limit), Filter(None, None)) == MemoryListing(retained, Some(limit), Filter(None, None))
  {
    RedisListingIsPrefix(retained, limit, Filter(None, None));
    MatchingAll(Reversed(retained));
    MatchingAll(First(Reversed(retained), ScanWindow(limit)));
  }

  /** What a filter lets through, and in what order: exactly the entries with the route and the operation
      asked for, if any is asked for. */
  lemma {:induction false} MatchingMembers(es: seq<Event>, route: Option<string>, operation: Option<Operation>)
    ensures var r := Matching(es, Filter(route, operation));
            && (forall e :: e in r <==> e in es && (route == None || route == Some(e.route))
                                        && (operation == None || operation == Some(e.operation)))
            && InOrderOf(r, es)
    decreases |es|
  {
    if es != [] {
      MatchingMembers(es[1..], route, operation);
      var rest := Matching(es[1..], Filter(route, operation));
      assert es == [es[0]] + es[1..];
      LaterInOrder(rest, es[0], es[1..]);
      assert ([es[0]] + rest)[1..] == rest && [] + rest == rest;
    }
  }

  /** r can be obtained from es by leaving entries out. */
  predicate InOrderOf(r: seq<Event>, es: seq<Event>)
    decreases |es|
  {
    if es == [] then r == [] else (r != [] && r[0] == es[0] && InOrderOf(r[1..], es[1..])) || InOrderOf(r, es[1..])
  }

  lemma {:induction false} LaterInOrder(r: seq<Event>, e: Event, es: seq<Event>)
    requires InOrderOf(r, es)
    ensures InOrderOf(r, [e] + es)
  {
    assert ([e] + es)[1..] == es;
  }

  /** How many recent entries a Redis listing can see: 5 for each one wanted, at least 100 and at most 500.
      An older match behind d newer events of other routes is listed exactly if d is smaller; memory lists
      it always. */
  lemma {:induction false} OlderMatchListedIff(wanted: Event, other: Event, d: nat, limit: int)
    requires wanted.route != other.route && 1 <= limit <= 500
    ensures var retained := [wanted] + seq(d, i => other);
            var f := Filter(Some(wanted.route), None);
            && MemoryListing(retained, Some(limit), f) == [wanted]
            && (RedisListing(retained, Some(limit), f) == [wanted]
                <==> d < if limit <= 20 then 100 else if limit <= 100 then 5 * limit else 500)
  {
    var retained := [wanted] + seq(d, i => other);
    var f := Filter(Some(wanted.route), None);
    var newest := Reversed(retained);
    var others := newest[..d];
    assert newest == others + [wanted];
    NoMatches(others, f);
    MatchingOfConcat(others, [wanted], f);
    assert [wanted][1..] == [];
    if d >= ScanWindow(limit) {
      var window := First(newest, ScanWindow(limit));
      NoMatches(window, f);
    } else {
      assert First(newest, ScanWindow(limit)) == newest;
    }
  }

  /** What limits outside that range mean to Redis: none and 0 are 50, a negative one is 1. Memory lists
      everything without a limit and nothing for a limit below 1. */
  lemma {:induction false} OtherLimits(retained: seq<Event>, f: Filter, negative: int)
    requires negative < 0
    ensures RedisListing(retained, None, f) == RedisListing(retained, Some(0), f) == RedisListing(retained, Some(50), f)
    ensures RedisListing(retained, Some(negative), f) == RedisListing(retained, Some(1), f)
    ensures MemoryListing(retained, None, f) == Matching(Reversed(retained), f)
    ensures MemoryListing(retained, Some(0), f) == MemoryListing(retained, Some(negative), f) == []
  {
    assert First(Matching(Reversed(retained), f), 0) == [];
  }

  lemma {:induction false} NoMatches(es: seq<Event>, f: Filter)
    requires forall i :: 0 <= i < |es| ==> !Matches(es[i], f)
    ensures Matching(es, f) == []
    decreases |es|
  {
    if es != [] {
      NoMatches(es[1..], f);
    }
  }
}
