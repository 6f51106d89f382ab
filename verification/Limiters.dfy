/** The memory side of app/algorithms/factory.py: any of the four limiters, as a state value and
    as a reference to the object that holds it. */
module Limiters {
  import opened Prelude
  import Factory
  import FixedWindow
  import SlidingWindow
  import TokenBucket
  import LeakyBucket

  datatype Algorithm = FixedWindows | SlidingWindows | TokenBuckets | LeakyBuckets

  /** A limiter's settings and state. */
  datatype Limiter =
    | Fixed(limit: int, window: real, fixed: FixedWindow.State)
    | Sliding(limit: int, window: real, requests: seq<real>)
    | Token(capacity: int, rate: real, bucket: TokenBucket.State)
    | Leaky(capacity: int, rate: real, leaky: LeakyBucket.State)

  predicate Sensible(c: Config) {
    c.limit >= 1 && c.window >= 1
  }

  /** `create_rate_limiter` without storage; the constructor reads the clock at `built`. */
  function Create(a: Algorithm, c: Config, built: real): Limiter
    requires Sensible(c)
  {
    match a
    case FixedWindows => Fixed(c.limit, c.window as real, FixedWindow.State(0, built))
    case SlidingWindows => Sliding(c.limit, c.window as real, [])
    case TokenBuckets => Token(c.limit, Factory.Rate(c), TokenBucket.State(c.limit as real, built))
    case LeakyBuckets => Leaky(c.limit, Factory.Rate(c), LeakyBucket.State([], built))
  }

  /** `_retune`: new settings, same state. */
  function Retune(l: Limiter, c: Config): Limiter
    requires Sensible(c)
  {
    if l.Fixed? || l.Sliding? then l.(limit := c.limit, window := c.window as real)
    else l.(capacity := c.limit, rate := Factory.Rate(c))
  }

  /** The limiter allows `limit` requests per `window` seconds: as they are, or as a capacity that refills
      or drains at limit/window. */
  predicate SetTo(l: Limiter, limit: int, window: int) {
    window >= 1
    && match l
       case Fixed(n, w, _) => n == limit && w == window as real
       case Sliding(n, w, _) => n == limit && w == window as real
       case Token(n, rate, _) => n == limit && rate == limit as real / window as real
       case Leaky(n, rate, _) => n == limit && rate == limit as real / window as real
  }

  /** What re-tuning and building set, and what re-tuning keeps: everything recorded. */
  lemma {:induction false} RetunedSetTo(l: Limiter, c: Config)
    requires Sensible(c)
    ensures SetTo(Retune(l, c), c.limit, c.window)
    ensures match Retune(l, c)
            case Fixed(_, _, s) => l.Fixed? && l.fixed == s
            case Sliding(_, _, ts) => l.Sliding? && l.requests == ts
            case Token(_, _, s) => l.Token? && l.bucket == s
            case Leaky(_, _, s) => l.Leaky? && l.leaky == s
  {
  }

  lemma {:induction false} CreatedSetTo(a: Algorithm, c: Config, built: real)
    requires Sensible(c)
    ensures var l := Create(a, c, built);
            && SetTo(l, c.limit, c.window)
            && match a
               case FixedWindows => l.Fixed? && l.fixed == FixedWindow.State(0, built)
               case SlidingWindows => l.Sliding? && l.requests == []
               case TokenBuckets => l.Token? && l.bucket == TokenBucket.State(c.limit as real, built)
               case LeakyBuckets => l.Leaky? && l.leaky == LeakyBucket.State([], built)
  {
  }

  /** A call changes what is recorded and no setting. */
  lemma {:induction false} ServedSetTo(l: Limiter, op: Op, now: real, later: real, limit: int, window: int)
    ensures SetTo(Serve(l, op, now, later).limiter, limit, window) <==> SetTo(l, limit, window)
  {
  }

  /** The settings are those of the policy. */
  predicate InTune(l: Limiter, c: Config) {
    Sensible(c) && Retune(l, c) == l
  }

  datatype Outcome = Outcome(limiter: Limiter, allowed: bool)

  /** One call on a limiter; a reading call never admits. */
  function Serve(l: Limiter, op: Op, now: real, later: real): Outcome {
    match l
    case Fixed(limit, window, s) =>
      var c := FixedWindow.Call(op, limit, window, now);
      Outcome(l.(fixed := FixedWindow.Next(s, c)), FixedWindow.Admits(s, c))
    case Sliding(limit, window, ts) =>
      var c := SlidingWindow.Call(op, limit, window, now, later);
      Outcome(l.(requests := SlidingWindow.Next(ts, c)), SlidingWindow.Admits(ts, c))
    case Token(capacity, rate, s) =>
      var c := TokenBucket.Call(op, capacity, rate, now);
      Outcome(l.(bucket := TokenBucket.Next(s, c)), TokenBucket.Admits(s, c))
    case Leaky(capacity, rate, s) =>
      var c := LeakyBucket.Call(op, capacity, rate, now, later);
      Outcome(l.(leaky := LeakyBucket.Next(s, c)), LeakyBucket.Admits(s, c))
  }

  /** What a limiter that has just served a reading call reports as remaining. */
  function RemainingOf(l: Limiter): int {
    match l
    case Fixed(limit, _, s) => FixedWindow.Remaining(s, limit)
    case Sliding(limit, _, ts) => SlidingWindow.Remaining(ts, limit)
    case Token(_, _, s) => Truncate(s.tokens)
    case Leaky(capacity, _, s) => LeakyBucket.Remaining(s, capacity)
  }

  /** And as its reset time, with the second clock reading `later`. */
  function ResetOf(l: Limiter, later: real): int {
    match l
    case Fixed(_, window, s) => FixedWindow.ResetIn(s, window, later)
    case Sliding(_, window, ts) => SlidingWindow.ResetIn(ts, window, later)
    case Token(_, rate, s) => TokenBucket.ResetIn(s, rate)
    case Leaky(capacity, rate, s) => LeakyBucket.ResetIn(s, capacity, rate)
  }

  // ----- Limiter objects

  datatype Handle =
    | FixedRef(f: FixedWindow.FixedWindowRateLimiter)
    | SlidingRef(s: SlidingWindow.SlidingWindowRateLimiter)
    | TokenRef(t: TokenBucket.TokenBucketRateLimiter)
    | LeakyRef(l: LeakyBucket.LeakyBucketRateLimiter)

  function Object(h: Handle): object {
    match h
    case FixedRef(f) => f
    case SlidingRef(s) => s
    case TokenRef(t) => t
    case LeakyRef(l) => l
  }

  ghost function View(h: Handle): Limiter
    reads Object(h)
  {
    match h
    case FixedRef(f) => Fixed(f.limit, f.window, f.View())
    case SlidingRef(s) => Sliding(s.limit, s.window, s.requests)
    case TokenRef(t) => Token(t.capacity, t.rate, t.View())
    case LeakyRef(l) => Leaky(l.capacity, l.rate, l.View())
  }

  function Tuned(h: Handle): Option<Config>
    reads Object(h)
  {
    match h
    case FixedRef(f) => f.tuned
    case SlidingRef(s) => s.tuned
    case TokenRef(t) => t.tuned
    case LeakyRef(l) => l.tuned
  }

  method CreateRateLimiter(a: Algorithm, c: Config, built: real) returns (h: Handle)
    requires Sensible(c)
    ensures fresh(Object(h)) && View(h) == Create(a, c, built)
  {
    match a {
      case FixedWindows =>
        var f := new FixedWindow.FixedWindowRateLimiter(c.limit, c.window as real, built);
        h := FixedRef(f);
      case SlidingWindows =>
        var s := new SlidingWindow.SlidingWindowRateLimiter(c.limit, c.window as real);
        h := SlidingRef(s);
      case TokenBuckets =>
        var t := new TokenBucket.TokenBucketRateLimiter(c.limit, Factory.Rate(c), built);
        h := TokenRef(t);
      case LeakyBuckets =>
        var l := new LeakyBucket.LeakyBucketRateLimiter(c.limit, Factory.Rate(c), built);
        h := LeakyRef(l);
    }
  }

  /** Sets the limiter's attributes in place and remembers the policy applied. */
  method RetuneLimiter(h: Handle, c: Config)
    requires Sensible(c)
    modifies Object(h)
    ensures View(h) == Retune(old(View(h)), c) && Tuned(h) == Some(c)
  {
    match h {
      case FixedRef(f) =>
        f.limit := c.limit;
        f.window := c.window as real;
        f.tuned := Some(c);
      case SlidingRef(s) =>
        s.limit := c.limit;
        s.window := c.window as real;
        s.tuned := Some(c);
      case TokenRef(t) =>
        t.capacity := c.limit;
        t.rate := Factory.Rate(c);
        t.tuned := Some(c);
      case LeakyRef(l) =>
        l.capacity := c.limit;
        l.rate := Factory.Rate(c);
        l.tuned := Some(c);
    }
  }

  /** Only remembers the policy applied. */
  method MarkTuned(h: Handle, c: Config)
    modifies Object(h)
    ensures View(h) == old(View(h)) && Tuned(h) == Some(c)
  {
    match h {
      case FixedRef(f) => f.tuned := Some(c);
      case SlidingRef(s) => s.tuned := Some(c);
      case TokenRef(t) => t.tuned := Some(c);
      case LeakyRef(l) => l.tuned := Some(c);
    }
  }

  method AllowRequest(h: Handle, now: real, later: real) returns (ok: bool)
    requires now <= later
    modifies Object(h)
    ensures var o := Serve(old(View(h)), Allow, now, later);
            View(h) == o.limiter && ok == o.allowed
    ensures Tuned(h) == old(Tuned(h))
  {
    match h {
      case FixedRef(f) => ok := f.AllowRequest(now);
      case SlidingRef(s) => ok := s.AllowRequest(now, later);
      case TokenRef(t) => ok := t.AllowRequest(now);
      case LeakyRef(l) => ok := l.AllowRequest(now, later);
    }
  }

  method RemainingRequests(h: Handle, now: real) returns (n: int)
    modifies Object(h)
    ensures View(h) == Serve(old(View(h)), Read, now, now).limiter
    ensures Tuned(h) == old(Tuned(h))
    ensures n == RemainingOf(View(h))
  {
    match h {
      case FixedRef(f) => n := f.RemainingRequests(now);
      case SlidingRef(s) => n := s.RemainingRequests(now);
      case TokenRef(t) => n := t.RemainingRequests(now);
      case LeakyRef(l) => n := l.RemainingRequests(now);
    }
  }

  method ResetTime(h: Handle, now: real, later: real) returns (n: int)
    requires now <= later
    modifies Object(h)
    ensures View(h) == Serve(old(View(h)), Read, now, later).limiter
    ensures Tuned(h) == old(Tuned(h))
    ensures n == ResetOf(View(h), later)
  {
    match h {
      case FixedRef(f) => n := f.ResetTime(now, later);
      case SlidingRef(s) => n := s.ResetTime(now, later);
      case TokenRef(t) => n := t.ResetTime(now);
      case LeakyRef(l) => n := l.ResetTime(now);
    }
  }
}
