/** Small definitions shared by every module: options, the kinds of limiter call,
    and the rounding that Python and Lua apply to a number of seconds. */
module Prelude {

  datatype Option<+T> = None | Some(value: T)

  /** What a caller asks of a limiter: `allow_request`, or one of the two reading
      calls, which bring the stored state up to date but never admit anything. */
  datatype Op = Allow | Read

  /** A resolved policy: `limit` requests per `window` seconds. */
  datatype Config = Config(limit: int, window: int)

  function Min(a: real, b: real): real {
    if a <= b then a else b
  }

  function Max(a: real, b: real): real {
    if a >= b then a else b
  }

  function MinInt(a: int, b: int): int {
    if a <= b then a else b
  }

  function MaxInt(a: int, b: int): int {
    if a >= b then a else b
  }

  /** The last `most` elements: what popping from the front until the bound holds leaves. */
  function Newest<T>(s: seq<T>, most: nat): seq<T> {
    if |s| > most then s[|s| - most..] else s
  }

  /** Python's `int(x)`: rounds toward zero. */
  function Truncate(x: real): (n: int)
    ensures x >= 0.0 ==> n as real <= x < n as real + 1.0
    ensures x <= 0.0 ==> n as real - 1.0 < x <= n as real
  {
    if x >= 0.0 then x.Floor else -((-x).Floor)
  }

  /** Lua's `math.ceil`. */
  function Ceil(x: real): (n: int)
    ensures n as real - 1.0 < x <= n as real
  {
    -((-x).Floor)
  }

  /** A number of seconds the way a memory limiter reports it: `max(0, int(x))`. */
  function WholeSeconds(x: real): (n: int)
    ensures 0 <= n && x < n as real + 1.0
    ensures x >= 0.0 ==> n as real <= x
    ensures x <= 0.0 ==> n == 0
  {
    MaxInt(0, Truncate(x))
  }

  ghost predicate IsWhole(x: real) {
    x.Floor as real == x
  }

  /** What `elapsed` seconds bring at `rate` a second. Named so that proofs about runs can
      reason from the four laws below instead of from products. */
  function Gain(elapsed: real, rate: real): real {
    elapsed * rate
  }

  lemma {:induction false} GainNonNegative(elapsed: real, rate: real)
    requires 0.0 <= elapsed && 0.0 <= rate
    ensures 0.0 <= Gain(elapsed, rate)
  {
  }

  lemma {:induction false} GainMonotone(shorter: real, longer: real, rate: real)
    requires shorter <= longer && 0.0 <= rate
    ensures Gain(shorter, rate) <= Gain(longer, rate)
  {
  }

  lemma {:induction false} GainAdds(from: real, middle: real, to: real, rate: real)
    ensures Gain(middle - from, rate) + Gain(to - middle, rate) == Gain(to - from, rate)
  {
  }

  /** Waiting brings a needed amount exactly when it lasts at least amount/rate. */
  lemma {:induction false} GainReaches(need: real, rate: real, wait: real)
    requires rate > 0.0
    ensures wait >= need / rate <==> Gain(wait, rate) >= need
  {
    var exact := need / rate;
    assert exact * rate == need;
    if wait >= exact {
      GainMonotone(exact, wait, rate);
    } else {
      assert (exact - wait) * rate > 0.0;
      assert (exact - wait) * rate == exact * rate - wait * rate;
    }
  }

  lemma {:induction false} WholeAtMost(x: real, n: nat)
    requires x >= 0.0
    ensures n <= WholeSeconds(x) <==> n as real <= x
  {
    assert n <= WholeSeconds(x) ==> n as real <= WholeSeconds(x) as real;
    assert n > WholeSeconds(x) ==> n as real >= WholeSeconds(x) as real + 1.0;
  }

  lemma {:induction false} GainAtMost(need: real, rate: real, wait: real)
    requires rate > 0.0
    ensures wait <= need / rate <==> Gain(wait, rate) <= need
  {
    var exact := need / rate;
    assert exact * rate == need;
    if wait <= exact {
      GainMonotone(wait, exact, rate);
    } else {
      assert (wait - exact) * rate > 0.0;
      assert (wait - exact) * rate == wait * rate - exact * rate;
    }
  }

  /** Up to the whole seconds of a wait, and no further, no more than the needed amount has come. */
  lemma {:induction false} WholeUpTo(need: real, rate: real, n: nat)
    requires rate > 0.0 && need / rate >= 0.0
    ensures n <= WholeSeconds(need / rate) <==> Gain(n as real, rate) <= need
  {
    hide Gain, WholeSeconds;
    WholeAtMost(need / rate, n);
    GainAtMost(need, rate, n as real);
  }

  lemma {:induction false} PositiveWait(need: real, rate: real)
    requires rate > 0.0 && need > 0.0
    ensures need / rate > 0.0
  {
    var wait := need / rate;
    assert wait * rate == need;
    if wait <= 0.0 {
      MulMonotone(wait, 0.0, rate);
    }
  }

  lemma {:induction false} GainAtZero(rate: real)
    ensures Gain(0.0, rate) == 0.0
  {
  }

  /** Multiplying by a non-negative number keeps an inequality. */
  lemma {:induction false} MulMonotone(a: real, b: real, k: real)
    requires a <= b && 0.0 <= k
    ensures a * k <= b * k
  {
  }
}
