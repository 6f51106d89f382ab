/** The part of a Redis server the limiter scripts rely on: keys that expire and sorted sets.
    Every script runs as one atomic step at one server time. */
module Redis {
  import opened Prelude

  /** A key: absent, or present with a value and possibly an instant it expires at. */
  datatype Slot<+T> = Absent | Present(value: T, expiry: Option<real>)

  /** What a command finds at `now`: an expired key is absent. */
  function At<T>(s: Slot<T>, now: real): Slot<T> {
    if s.Present? && s.expiry.Some? && s.expiry.value <= now then Absent else s
  }

  /** PEXPIRE; nothing happens to an absent key. No time to live stands for a script without
      the command. */
  function Expire<T>(s: Slot<T>, now: real, ttl: Option<real>): Slot<T> {
    if s.Present? && ttl.Some? then s.(expiry := Some(now + ttl.value)) else s
  }

  /** INCR: an absent counter counts as zero; the expiry of a present one is kept. */
  function Incr(s: Slot<int>): Slot<int> {
    if s.Present? then s.(value := s.value + 1) else Present(1, None)
  }

  /** The time to live both bucket limiters pick when they are built: the whole seconds a full
      refill or drain takes, at least 1. */
  function DefaultTtl(capacity: int, rate: real): int {
    MaxInt(1, if rate > 0.0 then Truncate(capacity as real / rate) else 3600)
  }

  /** What the ALLOW scripts answer. */
  datatype Reply = Reply(allowed: bool, remaining: int, resetIn: int)

  /** How many of the replies admit. */
  function Allowed(replies: seq<Reply>): nat
    decreases |replies|
  {
    if replies == [] then 0 else (if replies[0].allowed then 1 else 0) + Allowed(replies[1..])
  }

  // ----- Sorted sets

  /** An entry with its score. The scripts name it "score:id", so the two numbers identify it. */
  datatype Member = Member(score: real, id: int)

  function Digits(n: nat): seq<nat> {
    if n < 10 then [n] else Digits(n / 10) + [n % 10]
  }

  predicate TextBefore(a: seq<nat>, b: seq<nat>)
    decreases |a|
  {
    b != [] && (a == [] || a[0] < b[0] || (a[0] == b[0] && TextBefore(a[1..], b[1..])))
  }

  /** Members are kept by score and, for one score, by the text of their names. */
  predicate Before(a: Member, b: Member) {
    a.score < b.score || (a.score == b.score && a.id >= 0 && b.id >= 0 && TextBefore(Digits(a.id), Digits(b.id)))
  }

  /** The position a new entry takes: in front of the first one it comes before. */
  function Place(z: seq<Member>, m: Member): (p: nat)
    ensures p <= |z| && (p < |z| ==> Before(m, z[p]))
    decreases |z|
  {
    if z == [] || Before(m, z[0]) then 0 else 1 + Place(z[1..], m)
  }

  function Insert(z: seq<Member>, m: Member): seq<Member> {
    z[..Place(z, m)] + [m] + z[Place(z, m)..]
  }

  /** ZADD: a name already present is not added again. */
  function ZAdd(z: seq<Member>, m: Member): seq<Member> {
    if m in z then z else Insert(z, m)
  }

  /** ZREMRANGEBYSCORE key 0 hi */
  function RemoveByScore(z: seq<Member>, hi: real): seq<Member>
    decreases |z|
  {
    if z == [] then []
    else (if 0.0 <= z[0].score <= hi then [] else [z[0]]) + RemoveByScore(z[1..], hi)
  }

  /** ZREMRANGEBYRANK key 0 n-1 */
  function RemoveByRank(z: seq<Member>, n: nat): seq<Member> {
    z[MinInt(n, |z|)..]
  }

  function Members(s: Slot<seq<Member>>): seq<Member> {
    if s.Present? then s.value else []
  }

  /** Writing back a sorted set: Redis deletes a set that has become empty. */
  function WithMembers(s: Slot<seq<Member>>, z: seq<Member>): Slot<seq<Member>> {
    if z == [] then Absent
    else if s.Present? then s.(value := z)
    else Present(z, None)
  }

  function Scores(z: seq<Member>): (ts: seq<real>)
    ensures |ts| == |z| && forall i :: 0 <= i < |z| ==> ts[i] == z[i].score
  {
    seq(|z|, i requires 0 <= i < |z| => z[i].score)
  }

  predicate Ascending(z: seq<Member>) {
    forall i, j :: 0 <= i < j < |z| ==> z[i].score <= z[j].score
  }

  /** What every set a script builds satisfies: in order of score, no score after `now`, and
      sequence numbers that are all different and none past the last one issued. */
  predicate Built(z: seq<Member>, now: real, last: int) {
    && Ascending(z)
    && (forall i :: 0 <= i < |z| ==> 0.0 <= z[i].score <= now && z[i].id <= last)
    && (forall i, j :: 0 <= i < j < |z| ==> z[i].id != z[j].id)
  }

  /** Whatever follows the place of a newest entry has the same score. */
  lemma {:induction false} PlaceOfNewest(z: seq<Member>, m: Member)
    requires Ascending(z) && forall i :: 0 <= i < |z| ==> z[i].score <= m.score
    ensures forall i :: Place(z, m) <= i < |z| ==> z[i].score == m.score
  {
    var p := Place(z, m);
    if p < |z| {
      assert m.score <= z[p].score;
      forall i | p <= i < |z| ensures z[i].score == m.score {
        assert z[p].score <= z[i].score;
      }
    }
  }

  lemma {:induction false} InsertedAt(z: seq<Member>, m: Member, p: nat)
    requires p <= |z|
    ensures var r := z[..p] + [m] + z[p..];
            |r| == |z| + 1 && forall i :: 0 <= i < |r| ==> r[i] == if i < p then z[i] else if i == p then m else z[i - 1]
  {
  }

  lemma {:induction false} InsertedBuilt(z: seq<Member>, m: Member, p: nat, last: int)
    requires Built(z, m.score, last) && m.id > last && 0.0 <= m.score
    requires p <= |z| && forall i :: p <= i < |z| ==> z[i].score == m.score
    ensures Scores(z[..p] + [m] + z[p..]) == Scores(z) + [m.score]
    ensures Built(z[..p] + [m] + z[p..], m.score, m.id)
  {
    InsertedAt(z, m, p);
    var r := z[..p] + [m] + z[p..];
    assert forall i :: 0 <= i < |r| ==> Scores(r)[i] == (Scores(z) + [m.score])[i];
  }

  /** What ZADD leaves when the sequence number in the name has just been issued: exactly one
      entry more, its score last (wherever the text order of the names puts the entry), and a
      set built the same way. */
  lemma {:induction false} AddNewest(z: seq<Member>, m: Member, last: int)
    requires Built(z, m.score, last) && m.id > last && 0.0 <= m.score
    ensures m !in z && |ZAdd(z, m)| == |z| + 1
    ensures Scores(ZAdd(z, m)) == Scores(z) + [m.score]
    ensures Built(ZAdd(z, m), m.score, m.id)
  {
    PlaceOfNewest(z, m);
    InsertedBuilt(z, m, Place(z, m), last);
  }

  /** On a set in order, removing by score cuts off a front part. */
  lemma {:induction false} RemovalCutsFront(z: seq<Member>, hi: real) returns (k: nat)
    requires Ascending(z) && forall i :: 0 <= i < |z| ==> 0.0 <= z[i].score
    ensures k <= |z| && RemoveByScore(z, hi) == z[k..]
    ensures forall i :: 0 <= i < k ==> z[i].score <= hi
    ensures forall i :: k <= i < |z| ==> z[i].score > hi
    decreases |z|
  {
    k := 0;
    if z != [] {
      if z[0].score <= hi {
        var rest := RemovalCutsFront(z[1..], hi);
        k := rest + 1;
        forall i | 0 <= i < |z| ensures i < k ==> z[i].score <= hi
          ensures k <= i ==> z[i].score > hi
        {
          assert i > 0 ==> z[i] == z[1..][i - 1];
        }
      } else {
        NothingToRemove(z, hi);
      }
    }
  }

  lemma {:induction false} NothingToRemove(z: seq<Member>, hi: real)
    requires forall i :: 0 <= i < |z| ==> z[i].score > hi
    ensures RemoveByScore(z, hi) == z
    decreases |z|
  {
    if z != [] {
      NothingToRemove(z[1..], hi);
    }
  }

  /** A back part of a set built earlier is still a set built that way. */
  lemma {:induction false} BackPartBuilt(z: seq<Member>, n: nat, before: real, now: real, last: int)
    requires Built(z, before, last) && before <= now && n <= |z|
    ensures Built(z[n..], now, last) && Scores(z[n..]) == Scores(z)[n..]
  {
    assert forall i :: 0 <= i < |z| - n ==> z[n..][i] == z[i + n];
  }
}
