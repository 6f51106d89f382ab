/** app/algorithms/factory.py: the settings a policy of `limit` requests per `window` seconds
    gives a bucket. */
module Factory {
  import opened Prelude
  import opened Redis
  import RedisTokenBucket
  import RedisLeakyBucket

  /** The refill or leak rate. */
  function Rate(c: Config): real
    requires c.window >= 1
  {
    c.limit as real / c.window as real
  }

  lemma {:induction false} QuotientOfQuotient(a: real, b: real)
    requires a > 0.0 && b > 0.0
    ensures a / b > 0.0 && a / (a / b) == b
  {
    PositiveWait(a, b);
    var q := a / b;
    assert q * b == a;
    var x := a / q;
    assert x * q == a;
    assert (x - b) * q == 0.0;
  }

  /** A Redis bucket built for a policy lives exactly one window after each call. */
  lemma {:induction false} BuiltTtl(c: Config)
    requires c.limit >= 1 && c.window >= 1
    ensures DefaultTtl(c.limit, Rate(c)) == c.window
  {
    QuotientOfQuotient(c.limit as real, c.window as real);
  }

  /** For any bucket it is the whole seconds a full refill or drain takes, but never less than 1, and an hour
      without a rate. */
  lemma {:induction false} TtlIs(capacity: int, rate: real, n: nat)
    requires capacity >= 1
    ensures rate > 0.0 ==> (n <= DefaultTtl(capacity, rate) <==> n <= 1 || Gain(n as real, rate) <= capacity as real)
    ensures rate <= 0.0 ==> DefaultTtl(capacity, rate) == 3600
  {
    if rate > 0.0 {
      PositiveWait(capacity as real, rate);
      WholeUpTo(capacity as real, rate, n);
    }
  }

  lemma {:induction false} RateReaches(limit: real, window: real, wait: real)
    requires limit > 0.0 && window > 0.0
    ensures Gain(wait, limit / window) >= limit <==> wait >= window
  {
    QuotientOfQuotient(limit, window);
    GainReaches(limit, limit / window, wait);
  }

  /** Re-tuning changes capacity and rate but not the time to live chosen when the limiter was built.
      A token bucket that is used under the policy it was built with and then under another never
      shows its expiry if and only if the new window is no longer than the first; for a longer
      window expiry refills it early. */
  lemma {:induction false} RetunedExpiryUnnoticedIff(built: Config, tuned: Config)
    requires built.limit >= 1 && built.window >= 1 && tuned.limit >= 1 && tuned.window >= 1
    ensures var ttl := DefaultTtl(built.limit, Rate(built)) as real;
            RedisTokenBucket.NeverNoticed(RedisTokenBucket.Setting(built.limit, Rate(built)),
                                          RedisTokenBucket.Setting(tuned.limit, Rate(tuned)), ttl)
            <==> tuned.window <= built.window
  {
    hide RedisTokenBucket.NeverNoticed;
    BuiltTtl(built);
    RateReaches(built.limit as real, built.window as real, built.window as real);
    RateReaches(tuned.limit as real, tuned.window as real, built.window as real);
    PositiveWait(built.limit as real, built.window as real);
    PositiveWait(tuned.limit as real, tuned.window as real);
    RedisTokenBucket.RetuneUnnoticedIff(RedisTokenBucket.Setting(built.limit, Rate(built)),
                                        RedisTokenBucket.Setting(tuned.limit, Rate(tuned)), built.window as real);
  }

  /** A leaky bucket never shows its expiry across a re-tune if and only if the new window is no longer
      and the new rate no lower: requests queued under the old policy must drain under the new. */
  lemma {:induction false} RetunedLeakExpiryUnnoticedIff(built: Config, tuned: Config)
    requires built.limit >= 1 && built.window >= 1 && tuned.limit >= 1 && tuned.window >= 1
    ensures var ttl := DefaultTtl(built.limit, Rate(built)) as real;
            RedisLeakyBucket.NeverNoticed(RedisLeakyBucket.Setting(built.limit, Rate(built)),
                                          RedisLeakyBucket.Setting(tuned.limit, Rate(tuned)), ttl)
            <==> tuned.window <= built.window && Rate(built) <= Rate(tuned)
  {
    hide RedisLeakyBucket.NeverNoticed;
    BuiltTtl(built);
    RateReaches(built.limit as real, built.window as real, built.window as real);
    RateReaches(tuned.limit as real, tuned.window as real, built.window as real);
    PositiveWait(built.limit as real, built.window as real);
    PositiveWait(tuned.limit as real, tuned.window as real);
    DrainsAtRate(built, Rate(tuned));
    RedisLeakyBucket.RetuneUnnoticedIff(RedisLeakyBucket.Setting(built.limit, Rate(built)),
                                        RedisLeakyBucket.Setting(tuned.limit, Rate(tuned)), built.window as real);
  }

  /** A window drains the limit of its policy at any rate no lower than the policy's own. */
  lemma {:induction false} DrainsAtRate(c: Config, rate: real)
    requires c.limit >= 1 && c.window >= 1
    ensures Gain(c.window as real, rate) >= c.limit as real <==> rate >= Rate(c)
  {
    var w := c.window as real;
    assert w * Rate(c) == c.limit as real;
    assert w * rate - w * Rate(c) == w * (rate - Rate(c));
  }
}
