/**
  How long the retry loop waits between attempts (packages/sdk-go/retry.go). Durations are nanoseconds.
  Floating-point results are whatever the platform rounds a product to, and a float that is no duration
  converts to whatever the platform yields; both are functions of the platform.
 */
module Retry {
  import opened GoNumbers
  import opened ErrorMapping

  // ---------------------------------------------------------------- floating point

  datatype Float = Finite(value: real) | Infinite(negative: bool) | NaN

  /** The nearest float to an exact result, and the duration made of a float outside their range. */
  datatype Platform = Platform(round: real -> Float, outOfRange: Float -> int)

  predicate IsNegative(x: Float)
  {
    (x.Finite? && x.value < 0.0) || (x.Infinite? && x.negative)
  }

  predicate AtMostZero(x: Float)
  {
    x == Finite(0.0) || IsNegative(x)
  }

  function Product(x: real, y: real): real
  {
    x * y
  }

  function Times(platform: Platform, x: Float, y: Float): Float
  {
    if x.Finite? && y.Finite? then platform.round(Product(x.value, y.value))
    else if NaN in {x, y} || Finite(0.0) in {x, y} then NaN
    else Infinite(IsNegative(x) != IsNegative(y))
  }

  /** Conversion to an integer drops the fraction. */
  function Truncated(x: real): int
  {
    if x >= 0.0 then x.Floor else -(-x).Floor
  }

  predicate IsDuration(x: Float)
  {
    x.Finite? && -(TWO_63 as real) <= x.value < TWO_63 as real
  }

  /** `time.Duration(x)`. */
  function ToDuration(platform: Platform, x: Float): int
  {
    if IsDuration(x) then Truncated(x.value) else platform.outOfRange(x)
  }

  // ---------------------------------------------------------------- how long to wait

  const MILLISECOND: int := 1_000_000

  datatype RetryConfig = RetryConfig(maxRetries: int, initialDelay: int, maxDelay: int,
                                     backoffMultiplier: Float, disabled: bool)

  const DEFAULT_RETRY: RetryConfig := RetryConfig(3, 200 * MILLISECOND, 10 * SECOND, Finite(2.0), false)

  function InitialDelayOf(cfg: RetryConfig): int
  {
    if cfg.initialDelay <= 0 then DEFAULT_RETRY.initialDelay else cfg.initialDelay
  }

  function MaxDelayOf(cfg: RetryConfig): (most: int)
    ensures most > 0
  {
    if cfg.maxDelay <= 0 then DEFAULT_RETRY.maxDelay else cfg.maxDelay
  }

  function MultiplierOf(multiplier: Float): Float
  {
    if AtMostZero(multiplier) then DEFAULT_RETRY.backoffMultiplier else multiplier
  }

  function FloatPow(platform: Platform, base: Float, n: nat): Float
  {
    if n == 0 then Finite(1.0) else Times(platform, FloatPow(platform, base, n - 1), base)
  }

  /** The backoff before it becomes a duration. */
  function Backoff(cfg: RetryConfig, multiplier: Float, attempt: nat, platform: Platform): Float
  {
    Times(platform, platform.round(InitialDelayOf(cfg) as real),
          FloatPow(platform, MultiplierOf(multiplier), attempt))
  }

  function BackoffCap(cfg: RetryConfig, multiplier: Float, attempt: nat, platform: Platform): int
  {
    var cap := ToDuration(platform, Backoff(cfg, multiplier, attempt, platform));
    if cap > MaxDelayOf(cfg) then MaxDelayOf(cfg) else cap
  }

  /** The sleep before the next attempt: the server's hint if positive, else random below the backoff cap. */
  function Delay(cfg: RetryConfig, multiplier: Float, attempt: nat, retryAfter: int, platform: Platform, random: nat): int
  {
    if retryAfter > 0 then (if retryAfter > MaxDelayOf(cfg) then MaxDelayOf(cfg) else retryAfter)
    else
      var cap := BackoffCap(cfg, multiplier, attempt, platform);
      if cap <= 0 then 0 else random % cap
  }

  method NextDelay(config: RetryConfig, multiplier: Float, attempt: nat, retryAfter: int, platform: Platform, random: nat)
    returns (delay: int)
    ensures delay == Delay(config, multiplier, attempt, retryAfter, platform, random)
  {
    hide FloatPow, ToDuration, Times;
    var cfg, bm := config, multiplier;
    if cfg.initialDelay <= 0 {
      cfg := cfg.(initialDelay := DEFAULT_RETRY.initialDelay);
    }
    if cfg.maxDelay <= 0 {
      cfg := cfg.(maxDelay := DEFAULT_RETRY.maxDelay);
    }
    if AtMostZero(bm) {
      bm := DEFAULT_RETRY.backoffMultiplier;
    }
    if retryAfter > 0 {
      if retryAfter > cfg.maxDelay {
        return cfg.maxDelay;
      }
      return retryAfter;
    }
    var pow := Finite(1.0);
    PowSteps(platform, bm, 0);
    for i := 0 to attempt
      invariant pow == FloatPow(platform, bm, i)
    {
      PowSteps(platform, bm, i);
      pow := Times(platform, pow, bm);
    }
    assert cfg.initialDelay == InitialDelayOf(config) && bm == MultiplierOf(multiplier);
    var cap := ToDuration(platform, Times(platform, platform.round(cfg.initialDelay as real), pow));
    if cap > cfg.maxDelay {
      cap := cfg.maxDelay;
    }
    assert cfg.maxDelay == MaxDelayOf(config);
    assert cap == BackoffCap(config, multiplier, attempt, platform);
    if cap <= 0 {
      return 0;
    }
    delay := random % cap;
  }

  lemma PowSteps(platform: Platform, base: Float, n: nat)
    ensures FloatPow(platform, base, 0) == Finite(1.0)
    ensures FloatPow(platform, base, n + 1) == Times(platform, FloatPow(platform, base, n), base)
  {
  }

  /**
    No sleep is negative or longer than the effective maximum, whatever the platform makes of rounding and
    overflow; a positive hint is followed up to that maximum; without one the sleep is below the backoff, and
    every value below the backoff and the maximum is possible.
   */
  lemma DelayBounds(cfg: RetryConfig, multiplier: Float, attempt: nat, retryAfter: int, platform: Platform, random: nat)
    ensures 0 <= Delay(cfg, multiplier, attempt, retryAfter, platform, random) <= MaxDelayOf(cfg)
    ensures retryAfter <= 0 ==>
              Delay(cfg, multiplier, attempt, retryAfter, platform, random) < MaxDelayOf(cfg)
    ensures 0 < retryAfter <= MaxDelayOf(cfg) ==>
              Delay(cfg, multiplier, attempt, retryAfter, platform, random) == retryAfter
    ensures var backoff := Backoff(cfg, multiplier, attempt, platform);
      retryAfter <= 0 && IsDuration(backoff) && backoff.value >= 0.0 ==>
        && Delay(cfg, multiplier, attempt, retryAfter, platform, random) as real <= backoff.value
        && (random < backoff.value.Floor && random < MaxDelayOf(cfg) ==>
              Delay(cfg, multiplier, attempt, retryAfter, platform, random) == random)
  {
    hide Backoff;
    var cap := BackoffCap(cfg, multiplier, attempt, platform);
    if cap > 0 {
      RemainderBelow(random, cap);
      if random < cap {
        SmallRemainder(random, cap);
      }
    }
  }

  lemma SmallRemainder(n: nat, d: nat)
    requires n < d
    ensures n % d == n
  {
  }

  lemma RemainderBelow(n: nat, d: nat)
    requires d > 0
    ensures 0 <= n % d < d
  {
  }

  function Pow(base: real, n: nat): real
  {
    if n == 0 then 1.0 else Product(Pow(base, n - 1), base)
  }

  ghost predicate Keeps(platform: Platform, x: real)
  {
    platform.round(x) == Finite(x)
  }

  lemma {:induction false} ExactPow(platform: Platform, base: real, n: nat)
    requires forall i :: 0 < i <= n ==> Keeps(platform, Pow(base, i))
    ensures FloatPow(platform, Finite(base), n) == Finite(Pow(base, n))
  {
    hide Product;
    if n > 0 {
      ExactPow(platform, base, n - 1);
      assert Keeps(platform, Pow(base, n));
    }
  }

  /** Where no product needs rounding, the backoff is the documented InitialDelay * multiplier^attempt. */
  lemma BackoffIsExponential(cfg: RetryConfig, base: real, attempt: nat, platform: Platform)
    requires base > 0.0
    requires forall i :: 0 < i <= attempt ==> Keeps(platform, Pow(base, i))
    requires Keeps(platform, InitialDelayOf(cfg) as real)
    requires Keeps(platform, Product(InitialDelayOf(cfg) as real, Pow(base, attempt)))
    ensures Backoff(cfg, Finite(base), attempt, platform) == Finite(Product(InitialDelayOf(cfg) as real, Pow(base, attempt)))
  {
    hide Product, Pow, FloatPow;
    ExactPow(platform, base, attempt);
  }

  /** A setting that is zero or negative stands for 200 milliseconds, 10 seconds or a factor of 2. */
  lemma UnsetMeansDefault(cfg: RetryConfig, multiplier: Float, attempt: nat, retryAfter: int, platform: Platform, random: nat)
    ensures
      var filled := cfg.(initialDelay := if cfg.initialDelay > 0 then cfg.initialDelay else 200_000_000,
                         maxDelay := if cfg.maxDelay > 0 then cfg.maxDelay else 10_000_000_000);
      var factor := if AtMostZero(multiplier) then Finite(2.0) else multiplier;
      && Delay(cfg, multiplier, attempt, retryAfter, platform, random)
         == Delay(filled, factor, attempt, retryAfter, platform, random)
      && InitialDelayOf(filled) == filled.initialDelay && MaxDelayOf(filled) == filled.maxDelay
      && MaxDelayOf(cfg) == filled.maxDelay
  {
    hide FloatPow, ToDuration, Times;
  }

  // ---------------------------------------------------------------- the server's hint

  /** `time.Duration(seconds) * time.Second`, which wraps around. */
  function RetryAfterOf(e: ApiError): int
  {
    if e.RateLimited? && e.retryAfterSeconds > 0 then Wrap64(e.retryAfterSeconds * SECOND) else 0
  }

  /** The sleep a hint asks for. */
  function Hinted(cfg: RetryConfig, seconds: int): int
  {
    if seconds * SECOND <= MaxDelayOf(cfg) then seconds * SECOND else MaxDelayOf(cfg)
  }

  /**
    The server's hint is the sleep, up to the maximum, exactly when the number of seconds fits a duration or
    wraps around to one that is no shorter than the maximum.
   */
  lemma HintIsFollowedIff(cfg: RetryConfig, multiplier: Float, attempt: nat, seconds: int, platform: Platform, random: nat)
    requires 0 < seconds && Int64(seconds) && Int64(cfg.maxDelay)
    ensures Delay(cfg, multiplier, attempt, RetryAfterOf(RateLimited(seconds)), platform, random) == Hinted(cfg, seconds)
            <==> seconds <= 9_223_372_036 || Wrap64(seconds * SECOND) >= MaxDelayOf(cfg)
  {
    hide Backoff, BackoffCap, Delay;
    DelayBounds(cfg, multiplier, attempt, RetryAfterOf(RateLimited(seconds)), platform, random);
    LongHint(cfg, multiplier, attempt, RetryAfterOf(RateLimited(seconds)), platform, random);
    if seconds <= 9_223_372_036 {
      assert Int64(seconds * SECOND);
    } else {
      assert seconds * SECOND >= TWO_63;
    }
  }

  lemma LongHint(cfg: RetryConfig, multiplier: Float, attempt: nat, retryAfter: int, platform: Platform, random: nat)
    ensures retryAfter >= MaxDelayOf(cfg) ==>
              Delay(cfg, multiplier, attempt, retryAfter, platform, random) == MaxDelayOf(cfg)
  {
  }

  /** From the header to the sleep: a rate limit that names `n` seconds is waited out, up to the maximum. */
  lemma HeaderIsWaitedOut(cfg: RetryConfig, multiplier: Float, attempt: nat, fields: map<string, Json>, n: int,
                          platform: Platform, random: nat)
    requires "type" in fields && "title" in fields && "status" in fields
    requires fields["type"] == Text("https://errors.driftstack.dev/rate-limited")
    requires 0 < n <= 9_223_372_036 && Int64(cfg.maxDelay)
    ensures var sleep := Delay(cfg, multiplier, attempt, RetryAfterOf(ErrorFromResponse(Object(fields), FormatInt(n))),
                               platform, random);
      sleep == if n * 1_000_000_000 <= MaxDelayOf(cfg) then n * 1_000_000_000 else MaxDelayOf(cfg)
  {
    hide Delay, ErrorFromResponse, RetryAfterOf, MaxDelayOf;
    RateLimitHint(fields, FormatInt(n), n);
    HintIsFollowedIff(cfg, multiplier, attempt, n, platform, random);
  }

  /** A hint of 9,223,372,037 seconds wraps to a negative duration: the next attempt may follow at once. */
  lemma HintLostExample(platform: Platform)
    ensures Delay(DEFAULT_RETRY, Finite(2.0), 0, RetryAfterOf(RateLimited(9_223_372_037)), platform, 0) == 0
    ensures Hinted(DEFAULT_RETRY, 9_223_372_037) == 10 * SECOND
  {
    hide BackoffCap;
    assert 9_223_372_037 * SECOND + TWO_63 == 18_446_744_073_854_775_808;
    assert RetryAfterOf(RateLimited(9_223_372_037)) < 0;
    var cap := BackoffCap(DEFAULT_RETRY, Finite(2.0), 0, platform);
    if cap > 0 {
      SmallRemainder(0, cap);
    }
  }
}
