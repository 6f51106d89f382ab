/** app/algorithms/redis_leaky_bucket.py once the reading script runs too: it drains without renewing
    the set's time to live, and each drain restarts the clock and drops a fraction. */
module RedisLeakyReads {
  import opened Prelude
  import opened Redis
  import opened RedisLeakyBucket
  import Factory

  /** A decision or a reading, with the settings in force. */
  datatype Visit = Visit(op: Op, call: Call)

  function CallAt(p: Setting, now: real): Call {
    Call(p.capacity, p.rate, now)
  }

  function Script(k: Keys, v: Visit, ttl: Option<real>): Outcome {
    if v.op.Allow? then AllowScript(k, v.call, ttl) else ReadScript(k, v.call, ttl)
  }

  function Answers(k: Keys, visits: seq<Visit>, ttl: Option<real>): (r: seq<Reply>)
    ensures |r| == |visits|
    decreases |visits|
  {
    if visits == [] then []
    else
      var o := Script(k, visits[0], ttl);
      [o.reply] + Answers(o.keys, visits[1..], ttl)
  }

  function AfterVisits(k: Keys, visits: seq<Visit>, ttl: Option<real>): Keys
    decreases |visits|
  {
    if visits == [] then k else AfterVisits(Script(k, visits[0], ttl).keys, visits[1..], ttl)
  }

  predicate Ordered(visits: seq<Visit>, from: real) {
    && (forall i :: 0 <= i < |visits| ==> 0.0 <= from <= visits[i].call.now)
    && (forall i, j :: 0 <= i < j < |visits| ==> visits[i].call.now <= visits[j].call.now)
  }

  /** `p` holds the largest capacity and the least rate in force. */
  predicate Tuned(c: Call, p: Setting) {
    1 <= c.capacity <= p.capacity && 0.0 <= p.rate <= c.rate
  }

  lemma {:induction false} RateMonotone(elapsed: real, slower: real, faster: real)
    requires 0.0 <= elapsed && slower <= faster
    ensures Gain(elapsed, slower) <= Gain(elapsed, faster)
  {
    MulMonotone(slower, faster, elapsed);
  }

  /** However the readings cut the time to live into pieces, a full bucket drains within it. */
  predicate DrainsHoweverRead(p: Setting, ttl: real) {
    Gain(ttl, p.rate) >= (2 * p.capacity - 1) as real
  }

  /** Two stores that differ only in expiry, with enough time left before the set expires to drain
      it even if every further drain loses almost a whole request. */
  predicate InStep(k: Keys, forever: Keys, now: real, p: Setting, ttl: real) {
    && Usable(k, now, Some(ttl)) && Usable(forever, now, None)
    && k.last.Present? && forever.last.Present? && k.last.value == forever.last.value
    && k.last.expiry.Some? && Gain(k.last.expiry.value - k.last.value, p.rate) >= 1.0
    && |Members(k.zset)| == |Members(forever.zset)| <= p.capacity
    && (k.zset.Present? ==>
          && k.zset.expiry.Some? && k.zset.expiry.value <= k.last.expiry.value
          && k.zset.expiry.value <= now + ttl
          && Gain(k.zset.expiry.value - k.last.value, p.rate) >= (2 * |k.zset.value| - 1) as real)
  }

  /** The draining half of both scripts keeps the two stores in step, expired or not. */
  lemma {:induction false} DrainedInStep(k: Keys, forever: Keys, before: real, c: Call, p: Setting, ttl: real)
    requires 0.0 <= before <= c.now && ttl > 0.0 && Tuned(c, p) && InStep(k, forever, before, p, ttl)
    ensures var l, f := Leak(Found(k, c.now), c.rate, c.now), Leak(Found(forever, c.now), c.rate, c.now);
            && l.last.Present? && f.last.Present? && l.last.value == f.last.value <= c.now
            && Gain(c.now - l.last.value, p.rate) >= 0.0
            && |Members(l.zset)| == |Members(f.zset)| <= p.capacity
            && (l.zset.Present? ==>
                  && l.zset.expiry == k.zset.expiry && k.zset.expiry.Some? && k.last == Found(k, c.now).last
                  && Gain(k.zset.expiry.value - l.last.value, p.rate) >= (2 * |l.zset.value| - 1) as real)
  {
    hide Built, Gain, RemoveByRank, Leak;
    var last, now := k.last.value, c.now;
    GainNonNegative(now - last, p.rate);
    GainNonNegative(now - last, c.rate);
    GainAtZero(p.rate);
    assert Found(forever, now) == forever;
    LeakOfLiving(forever, c, before, None);
    LastInStep(k, before, c, p, ttl);
    if k.zset.Present? && k.zset.expiry.value > now {
      TimeLeft(|k.zset.value|, last, now, k.zset.expiry.value, c.rate, p.rate);
      assert Found(k, now).zset == k.zset && Found(k, now).last == k.last;
      LeakOfLiving(k, c, before, Some(ttl));
    } else {
      NothingToLeak(k, c);
      if k.zset.Present? {
        TimeLeft(|k.zset.value|, last, now, k.zset.expiry.value, c.rate, p.rate);
      }
    }
  }

  /** What a drain leaves of a set that lives with its clock. */
  lemma {:induction false} LeakOfLiving(k: Keys, c: Call, before: real, ttl: Option<real>)
    requires Usable(k, before, ttl) && before <= c.now && k.last.Present? && Found(k, c.now).last == k.last && Found(k, c.now).zset == k.zset
    requires Gain(c.now - k.last.value, c.rate) >= 0.0
    ensures var l, drained := Leak(Found(k, c.now), c.rate, c.now), Gain(c.now - k.last.value, c.rate).Floor;
            && l.last.Present?
            && |Members(l.zset)| == MaxInt(0, |Members(k.zset)| - if c.now > k.last.value then drained else 0)
            && l.last.value == (if c.now > k.last.value && drained > 0 then c.now else k.last.value)
            && (l.zset.Present? ==> k.zset.Present? && l.zset.expiry == k.zset.expiry && l.zset.value != [])
  {
    hide Built, Gain;
  }

  /** An expired set, or none, has nothing to drain. */
  lemma {:induction false} NothingToLeak(k: Keys, c: Call)
    requires At(k.zset, c.now).Absent?
    ensures Leak(Found(k, c.now), c.rate, c.now).zset.Absent?
  {
    hide Gain;
  }

  /** The clock is the same with and without expiry: by the time the key is gone a request has drained. */
  lemma {:induction false} LastInStep(k: Keys, before: real, c: Call, p: Setting, ttl: real)
    requires 0.0 <= before <= c.now && Tuned(c, p) && Usable(k, before, Some(ttl)) && k.last.Present? && k.last.expiry.Some?
    requires Gain(k.last.expiry.value - k.last.value, p.rate) >= 1.0
    ensures var l, drained := Leak(Found(k, c.now), c.rate, c.now), Gain(c.now - k.last.value, c.rate).Floor;
            && l.last.Present? && drained >= 0
            && l.last.value == (if c.now > k.last.value && drained > 0 then c.now else k.last.value)
  {
    hide Built, Gain, RemoveByRank;
    GainNonNegative(c.now - k.last.value, c.rate);
    TimeLeft(1, k.last.value, c.now, k.last.expiry.value, c.rate, p.rate);
  }

  /** If enough time was left to drain n requests however often the drain is cut, then at its end they are
      drained, and before it enough is left for what one drain leaves. */
  lemma {:induction false} TimeLeft(n: nat, last: real, now: real, expiry: real, rate: real, least: real)
    requires n >= 1 && last <= now && 0.0 <= least <= rate && Gain(expiry - last, least) >= (2 * n - 1) as real
    ensures var drained := Gain(now - last, rate).Floor;
            && drained >= 0
            && (expiry <= now ==> drained >= n && now > last)
            && (expiry > now && 1 <= drained < n ==> Gain(expiry - now, least) >= (2 * (n - drained) - 1) as real)
  {
    GainNonNegative(now - last, least);
    RateMonotone(now - last, least, rate);
    GainAtZero(least);
    if expiry <= now {
      GainMonotone(expiry - last, now - last, least);
      if now == last {
        GainMonotone(expiry - last, 0.0, least);
      }
    } else {
      GainAdds(last, now, expiry, least);
    }
  }

  lemma {:induction false} AllowInStep(k: Keys, forever: Keys, before: real, c: Call, p: Setting, ttl: real)
    requires 0.0 <= before <= c.now && ttl > 0.0 && Tuned(c, p) && InStep(k, forever, before, p, ttl)
    requires DrainsHoweverRead(p, ttl)
    ensures var a, b := AllowScript(k, c, Some(ttl)), AllowScript(forever, c, None);
            a.reply == b.reply && InStep(a.keys, b.keys, c.now, p, ttl)
  {
    hide Leak, Found, Built, Enqueue, ExpireAll;
    DrainedInStep(k, forever, before, c, p, ttl);
    DecisionLeaves(k, c, before, Some(ttl));
    DecisionLeaves(forever, c, before, None);
    var last := AllowScript(k, c, Some(ttl)).keys.last.value;
    GainAdds(last, c.now, c.now + ttl, p.rate);
    assert c.now + ttl - c.now == ttl;
  }

  lemma {:induction false} ReadInStep(k: Keys, forever: Keys, before: real, c: Call, p: Setting, ttl: real)
    requires 0.0 <= before <= c.now && ttl > 0.0 && Tuned(c, p) && InStep(k, forever, before, p, ttl)
    requires DrainsHoweverRead(p, ttl)
    ensures var a, b := ReadScript(k, c, Some(ttl)), ReadScript(forever, c, None);
            a.reply == b.reply && InStep(a.keys, b.keys, c.now, p, ttl)
  {
    hide Built;
    DrainedInStep(k, forever, before, c, p, ttl);
    LeakKeepsBuilt(k, c, before, Some(ttl));
    LeakKeepsBuilt(forever, c, before, None);
    assert c.now + ttl - c.now == ttl;
  }

  lemma {:induction false} StartInStep(v: Visit, p: Setting, ttl: real)
    requires 0.0 <= v.call.now && ttl > 0.0 && Tuned(v.call, p) && DrainsHoweverRead(p, ttl)
    ensures var a, b := Script(NO_KEYS, v, Some(ttl)), Script(NO_KEYS, v, None);
            a.reply == b.reply && InStep(a.keys, b.keys, v.call.now, p, ttl)
  {
    if v.op.Allow? {
      StartsAllowing(v.call, p, ttl);
    } else {
      StartsReading(v.call, p, ttl);
    }
  }

  lemma {:induction false} StartsAllowing(c: Call, p: Setting, ttl: real)
    requires 0.0 <= c.now && ttl > 0.0 && Tuned(c, p) && DrainsHoweverRead(p, ttl)
    ensures var a, b := AllowScript(NO_KEYS, c, Some(ttl)), AllowScript(NO_KEYS, c, None);
            a.reply == b.reply && InStep(a.keys, b.keys, c.now, p, ttl)
  {
    hide Built, Enqueue, ExpireAll, Gain;
    DecisionLeaves(NO_KEYS, c, c.now, Some(ttl));
    DecisionLeaves(NO_KEYS, c, c.now, None);
    assert c.now + ttl - c.now == ttl;
  }

  lemma {:induction false} StartsReading(c: Call, p: Setting, ttl: real)
    requires 0.0 <= c.now && ttl > 0.0 && Tuned(c, p) && DrainsHoweverRead(p, ttl)
    ensures var a, b := ReadScript(NO_KEYS, c, Some(ttl)), ReadScript(NO_KEYS, c, None);
            a.reply == b.reply && InStep(a.keys, b.keys, c.now, p, ttl)
  {
    hide Built, Gain;
    assert c.now + ttl - c.now == ttl;
  }

  lemma {:induction false} StayInStep(k: Keys, forever: Keys, visits: seq<Visit>, before: real, p: Setting, ttl: real)
    requires 0.0 <= before && ttl > 0.0 && Ordered(visits, before)
    requires forall i :: 0 <= i < |visits| ==> Tuned(visits[i].call, p)
    requires InStep(k, forever, before, p, ttl) && DrainsHoweverRead(p, ttl)
    ensures Answers(k, visits, Some(ttl)) == Answers(forever, visits, None)
    decreases |visits|
  {
    hide AllowScript, ReadScript, InStep;
    if visits != [] {
      var v := visits[0];
      if v.op.Allow? {
        AllowInStep(k, forever, before, v.call, p, ttl);
      } else {
        ReadInStep(k, forever, before, v.call, p, ttl);
      }
      StayInStep(Script(k, v, Some(ttl)).keys, Script(forever, v, None).keys, visits[1..], v.call.now, p, ttl);
    }
  }

  /** With readings anywhere among the decisions and through every re-tune, expiry still cannot be
      noticed if the time to live, at the least rate in force, drains almost twice the largest
      capacity in force. */
  lemma {:induction false} ExpiryUnnoticedWithReads(visits: seq<Visit>, p: Setting, ttl: real)
    requires ttl > 0.0 && Ordered(visits, 0.0) && DrainsHoweverRead(p, ttl)
    requires forall i :: 0 <= i < |visits| ==> Tuned(visits[i].call, p)
    ensures Answers(NO_KEYS, visits, Some(ttl)) == Answers(NO_KEYS, visits, None)
  {
    if visits != [] {
      var v := visits[0];
      StartInStep(v, p, ttl);
      StayInStep(Script(NO_KEYS, v, Some(ttl)).keys, Script(NO_KEYS, v, None).keys, visits[1..], v.call.now, p, ttl);
    }
  }

  // ----- Readings that waste the time to live

  /** How much to let drain before the next reading, at least one request and less than two. */
  function Pause(n: nat, gain: real): real {
    if gain < (2 * n - 2) as real then 1.0 else (gain - (2 * n) as real + 5.0) / 2.0
  }

  /** Readings between `at` and `end` that drain a set of n entries one by one, each wasting what
      it can, until what is left to drain no longer suffices. */
  function SlowReads(n: nat, at: real, end: real, capacity: int, rate: real): seq<Visit>
    decreases n
  {
    if n == 0 || rate <= 0.0 || Gain(end - at, rate) < n as real then []
    else
      var next := at + Pause(n, Gain(end - at, rate)) / rate;
      [Visit(Read, Call(capacity, rate, next))] + SlowReads(n - 1, next, end, capacity, rate)
  }

  lemma {:induction false} PauseFits(n: nat, at: real, end: real, rate: real)
    requires n >= 1 && rate > 0.0 && n as real <= Gain(end - at, rate) < (2 * n - 1) as real
    ensures n >= 2
    ensures var x := Pause(n, Gain(end - at, rate));
            var next := at + x / rate;
            && 1.0 <= x < 2.0 && Gain(next - at, rate) == x && at < next <= end
            && Gain(end - next, rate) == Gain(end - at, rate) - x < (2 * n - 3) as real
  {
    var gain := Gain(end - at, rate);
    var x := Pause(n, gain);
    var next := at + x / rate;
    GainReaches(x, rate, end - at);
    PositiveWait(x, rate);
    assert next - at == x / rate;
    assert x / rate * rate == x;
    GainAdds(at, next, end, rate);
  }

  lemma {:induction false} SlowReadsOrdered(n: nat, at: real, end: real, capacity: int, rate: real)
    requires 0.0 <= at <= end && n >= 1 && Gain(end - at, rate) < (2 * n - 1) as real
    ensures var slow := SlowReads(n, at, end, capacity, rate);
            && Ordered(slow, at)
            && forall i :: 0 <= i < |slow| ==> slow[i].op == Read && slow[i].call == Call(capacity, rate, slow[i].call.now) && slow[i].call.now <= end
    decreases n
  {
    if rate > 0.0 && Gain(end - at, rate) >= n as real {
      PauseFits(n, at, end, rate);
      SlowReadsOrdered(n - 1, at + Pause(n, Gain(end - at, rate)) / rate, end, capacity, rate);
    }
  }

  lemma {:induction false} ReadKeepsUsable(k: Keys, before: real, now: real, p: Setting, ttl: Option<real>)
    requires 0.0 <= before <= now && Usable(k, before, ttl)
    ensures var r := ReadScript(k, CallAt(p, now), ttl).keys;
            Usable(r, now, ttl) && (r.zset.Present? ==> k.zset.Present? && r.zset.expiry == k.zset.expiry)
  {
    hide Built;
    LeakKeepsBuilt(k, CallAt(p, now), before, ttl);
  }

  /** Readings never renew the set's time to live: at the end of it nothing is queued. */
  lemma {:induction false} ReadsLetItExpire(k: Keys, slow: seq<Visit>, before: real, end: real, p: Setting, ttl: real)
    requires 0.0 <= before <= end && Usable(k, before, Some(ttl)) && Ordered(slow, before)
    requires k.zset.Present? ==> k.zset.expiry == Some(end)
    requires forall i :: 0 <= i < |slow| ==> slow[i].op == Read && slow[i].call == CallAt(p, slow[i].call.now) && slow[i].call.now <= end
    ensures var r := AfterVisits(k, slow, Some(ttl));
            Usable(r, end, Some(ttl)) && Queued(r, CallAt(p, end)) == 0
    decreases |slow|
  {
    hide Built, ReadScript, AllowScript;
    if slow != [] {
      ReadKeepsUsable(k, before, slow[0].call.now, p, Some(ttl));
      ReadsLetItExpire(ReadScript(k, CallAt(p, slow[0].call.now), Some(ttl)).keys, slow[1..], slow[0].call.now, end, p, ttl);
    } else {
      LaterUsable(k, before, end, Some(ttl));
    }
  }

  lemma {:induction false} LaterUsable(k: Keys, before: real, now: real, ttl: Option<real>)
    requires before <= now && Usable(k, before, ttl)
    ensures Usable(k, now, ttl)
  {
  }

  /** Without expiry the wasteful readings leave something queued at the end. */
  lemma {:induction false} ReadsLeaveSome(k: Keys, n: nat, at: real, end: real, p: Setting)
    requires 0.0 <= at <= end && p.rate >= 0.0 && Usable(k, at, None)
    requires k.last.Present? && k.last.value == at && k.zset.Present? && |k.zset.value| == n
    requires Gain(end - at, p.rate) < (2 * n - 1) as real
    ensures var r := AfterVisits(k, SlowReads(n, at, end, p.capacity, p.rate), None);
            Usable(r, end, None) && Queued(r, CallAt(p, end)) >= 1
    decreases n
  {
    hide ReadScript, Built, Queued;
    GainNonNegative(end - at, p.rate);
    if p.rate > 0.0 && Gain(end - at, p.rate) >= n as real {
      PauseFits(n, at, end, p.rate);
      var next := at + Pause(n, Gain(end - at, p.rate)) / p.rate;
      ReadDrainsOne(k, n, at, next, p);
      ReadsLeaveSome(ReadScript(k, CallAt(p, next), None).keys, n - 1, next, end, p);
    } else {
      SomeLeft(k, n, at, end, p);
    }
  }

  lemma {:induction false} ReadDrainsOne(k: Keys, n: nat, at: real, next: real, p: Setting)
    requires 0.0 <= at < next && n >= 2 && Usable(k, at, None) && 1.0 <= Gain(next - at, p.rate) < 2.0
    requires k.last.Present? && k.last.value == at && k.zset.Present? && |k.zset.value| == n
    ensures var r := ReadScript(k, CallAt(p, next), None).keys;
            && Usable(r, next, None) && r.last.Present? && r.last.value == next
            && r.zset.Present? && |r.zset.value| == n - 1
  {
    hide Built;
    ReadKeepsUsable(k, at, next, p, None);
    assert Found(k, next) == k;
  }

  lemma {:induction false} SomeLeft(k: Keys, n: nat, at: real, end: real, p: Setting)
    requires 0.0 <= at <= end && p.rate >= 0.0 && n >= 1 && Usable(k, at, None) && Gain(end - at, p.rate) < n as real
    requires k.last.Present? && k.last.value == at && k.zset.Present? && |k.zset.value| == n
    ensures Usable(k, end, None) && Queued(k, CallAt(p, end)) >= 1
  {
    GainNonNegative(end - at, p.rate);
    assert Found(k, end) == k;
    LaterUsable(k, at, end, None);
  }

  // ----- The exact condition

  function Decisions(n: nat, p: Setting, t: real): (r: seq<Visit>)
    ensures |r| == n && forall i :: 0 <= i < n ==> r[i] == Visit(Allow, CallAt(p, t))
  {
    seq(n, i => Visit(Allow, CallAt(p, t)))
  }

  lemma {:induction false} DecisionsAreBurst(k: Keys, n: nat, t: real, p: Setting, ttl: Option<real>)
    ensures Answers(k, Decisions(n, p, t), ttl) == Replies(k, Burst(n, p.capacity, p.rate, t), ttl)
    ensures AfterVisits(k, Decisions(n, p, t), ttl) == After(k, Burst(n, p.capacity, p.rate, t), ttl)
    decreases n
  {
    hide AllowScript;
    if n > 0 {
      assert Decisions(n, p, t)[1..] == Decisions(n - 1, p, t);
      assert Burst(n, p.capacity, p.rate, t)[1..] == Burst(n - 1, p.capacity, p.rate, t);
      DecisionsAreBurst(AllowScript(k, CallAt(p, t), ttl).keys, n - 1, t, p, ttl);
    }
  }

  lemma {:induction false} AnswersOfConcat(k: Keys, a: seq<Visit>, b: seq<Visit>, ttl: Option<real>)
    ensures Answers(k, a + b, ttl) == Answers(k, a, ttl) + Answers(AfterVisits(k, a, ttl), b, ttl)
    ensures AfterVisits(k, a + b, ttl) == AfterVisits(AfterVisits(k, a, ttl), b, ttl)
    decreases |a|
  {
    hide Script;
    if a == [] {
      assert a + b == b;
    } else {
      assert (a + b)[1..] == a[1..] + b;
      AnswersOfConcat(Script(k, a[0], ttl).keys, a[1..], b, ttl);
    }
  }

  /** Fill the bucket, read wastefully for the time to live, and fill it again. */
  function ReadProbe(p: Setting, ttl: real): seq<Visit>
    requires p.capacity >= 1
  {
    Decisions(p.capacity, p, 0.0) + SlowReads(p.capacity, 0.0, ttl, p.capacity, p.rate) + Decisions(p.capacity, p, ttl)
  }

  lemma {:induction false} ReadProbeOrdered(p: Setting, ttl: real)
    requires p.capacity >= 1 && ttl > 0.0 && !DrainsHoweverRead(p, ttl)
    ensures Ordered(ReadProbe(p, ttl), 0.0) && FixedTo(ReadProbe(p, ttl), p)
  {
    SlowReadsOrdered(p.capacity, 0.0, ttl, p.capacity, p.rate);
    assert ttl - 0.0 == ttl;
    var a, b, c := Decisions(p.capacity, p, 0.0), SlowReads(p.capacity, 0.0, ttl, p.capacity, p.rate), Decisions(p.capacity, p, ttl);
    assert forall i :: 0 <= i < |a| + |b| + |c| ==>
      (a + b + c)[i] == if i < |a| then a[i] else if i < |a| + |b| then b[i - |a|] else c[i - |a| - |b|];
  }

  lemma {:induction false} ReadProbeLastAnswer(p: Setting, ttl: real, lives: Option<real>)
    requires p.capacity >= 1 && p.rate >= 0.0 && ttl > 0.0 && !DrainsHoweverRead(p, ttl)
    requires lives == None || lives == Some(ttl)
    ensures var answers := Answers(NO_KEYS, ReadProbe(p, ttl), lives);
            answers[|answers| - 1].allowed <==> lives == Some(ttl)
  {
    hide AllowScript, ReadScript, Leak;
    var n := p.capacity;
    var filling, slow, again := Decisions(n, p, 0.0), SlowReads(n, 0.0, ttl, n, p.rate), Decisions(n, p, ttl);
    assert ttl - 0.0 == ttl;
    SlowReadsOrdered(n, 0.0, ttl, n, p.rate);
    var filled := AfterVisits(NO_KEYS, filling, lives);
    Filled(p, lives);
    var r := AfterVisits(filled, slow, lives);
    if lives.Some? {
      ReadsLetItExpire(filled, slow, 0.0, ttl, p, ttl);
    } else {
      ReadsLeaveSome(filled, n, 0.0, ttl, p);
    }
    AnswersOfConcat(NO_KEYS, filling, slow, lives);
    AnswersOfConcat(NO_KEYS, filling + slow, again, lives);
    DecisionsAreBurst(r, n, ttl, p, lives);
    LastOfBurst(r, n, n, p.rate, ttl, ttl, lives);
  }

  lemma {:induction false} Filled(p: Setting, lives: Option<real>)
    requires p.capacity >= 1 && (lives.Some? ==> lives.value > 0.0)
    ensures var k := AfterVisits(NO_KEYS, Decisions(p.capacity, p, 0.0), lives);
            Left(k, 0.0, lives) && k.last.value == 0.0 && |k.zset.value| == p.capacity
  {
    DecisionsAreBurst(NO_KEYS, p.capacity, 0.0, p, lives);
    AfterBurst(NO_KEYS, p.capacity, p.capacity, p.rate, 0.0, 0.0, lives);
  }

  predicate FixedTo(visits: seq<Visit>, p: Setting) {
    forall i :: 0 <= i < |visits| ==> visits[i].call == CallAt(p, visits[i].call.now)
  }

  ghost predicate NeverNoticedWithReads(p: Setting, ttl: real) {
    forall visits: seq<Visit> {:trigger Ordered(visits, 0.0)} :: Ordered(visits, 0.0) && FixedTo(visits, p) ==>
      forall i :: 0 <= i < |visits| ==> Answers(NO_KEYS, visits, Some(ttl))[i].allowed == Answers(NO_KEYS, visits, None)[i].allowed
  }

  /** Exact for every setting: with readings allowed, expiry changes no decision on any run if and
      only if the time to live drains almost twice the capacity (2 * capacity - 1). */
  lemma {:induction false} ExpiryUnnoticedWithReadsIff(p: Setting, ttl: real)
    requires p.capacity >= 1 && p.rate >= 0.0 && ttl > 0.0
    ensures NeverNoticedWithReads(p, ttl) <==> DrainsHoweverRead(p, ttl)
  {
    hide Answers, DrainsHoweverRead;
    if DrainsHoweverRead(p, ttl) {
      forall visits: seq<Visit> | Ordered(visits, 0.0) && FixedTo(visits, p)
        ensures Answers(NO_KEYS, visits, Some(ttl)) == Answers(NO_KEYS, visits, None)
      {
        ExpiryUnnoticedWithReads(visits, p, ttl);
      }
    } else {
      var visits := ReadProbe(p, ttl);
      ReadProbeOrdered(p, ttl);
      ReadProbeLastAnswer(p, ttl, Some(ttl));
      ReadProbeLastAnswer(p, ttl, None);
      var i := |visits| - 1;
      assert Answers(NO_KEYS, visits, Some(ttl))[i].allowed != Answers(NO_KEYS, visits, None)[i].allowed;
    }
  }

  /** The time to live the limiter picks for itself is long enough for that only when the limit is
      1: for every larger limit some run of decisions and readings is answered wrongly. */
  lemma {:induction false} BuiltTtlSurvivesReadsIff(c: Config)
    requires c.limit >= 1 && c.window >= 1
    ensures NeverNoticedWithReads(Setting(c.limit, Factory.Rate(c)), DefaultTtl(c.limit, Factory.Rate(c)) as real) <==> c.limit == 1
  {
    Factory.BuiltTtl(c);
    Factory.QuotientOfQuotient(c.limit as real, c.window as real);
    var p := Setting(c.limit, Factory.Rate(c));
    ExpiryUnnoticedWithReadsIff(p, c.window as real);
    assert Gain(c.window as real, p.rate) == c.limit as real;
  }
}
