/** Retrying with exponential backoff and full jitter (app/infrastructure/retry.py). */
module Retry {
  /** Delays are seconds. */
  datatype Config = Config(maxAttempts: int, baseDelay: real, maxDelay: real, exponentialBase: real, jitter: bool) {
    predicate Sensible() {
      baseDelay >= 0.0 && maxDelay >= 0.0 && exponentialBase >= 0.0
    }
  }

  /** How one call of the function ends: with a value, a retryable exception or another one. */
  datatype Outcome<T> = Returned(value: T) | Retryable(error: string) | Fatal(error: string)

  function Power(b: real, n: nat): (r: real)
    ensures b >= 0.0 ==> r >= 0.0
  {
    if n == 0 then 1.0 else b * Power(b, n - 1)
  }

  /** The delay after attempt `n` before jitter. */
  function CappedDelay(cfg: Config, n: nat): (r: real)
    ensures r <= cfg.maxDelay && r <= cfg.baseDelay * Power(cfg.exponentialBase, n)
    ensures r == cfg.maxDelay || r == cfg.baseDelay * Power(cfg.exponentialBase, n)
    ensures cfg.Sensible() ==> 0.0 <= r
  {
    var d := cfg.baseDelay * Power(cfg.exponentialBase, n);
    if d < cfg.maxDelay then d else cfg.maxDelay
  }

  /** `calculate_delay`; `draw` is the uniform random number. */
  function CalculateDelay(cfg: Config, n: nat, draw: real): (r: real)
    requires 0.0 <= draw <= 1.0
    ensures cfg.Sensible() ==> 0.0 <= r <= CappedDelay(cfg, n)
    ensures !cfg.jitter || draw == 1.0 ==> r == CappedDelay(cfg, n)
    ensures cfg.jitter && draw == 0.0 ==> r == 0.0
  {
    if cfg.jitter then Scaled(CappedDelay(cfg, n), draw) else CappedDelay(cfg, n)
  }

  function Scaled(x: real, draw: real): (r: real)
    requires 0.0 <= draw <= 1.0
    ensures x >= 0.0 ==> 0.0 <= r <= x
    ensures draw == 0.0 ==> r == 0.0
    ensures draw == 1.0 ==> r == x
  {
    ScaledWithin(x, draw);
    x * draw
  }

  lemma ScaledWithin(x: real, draw: real)
    requires 0.0 <= draw <= 1.0
    ensures x >= 0.0 ==> 0.0 <= x * draw <= x
  {
    assert x - x * draw == x * (1.0 - draw);
    if x >= 0.0 {
      assert x * draw >= 0.0 && x * (1.0 - draw) >= 0.0;
    }
  }

  /** Powers multiply, so the delays grow geometrically up to the cap. */
  lemma {:induction false} PowerAdds(b: real, m: nat, n: nat)
    ensures Power(b, m + n) == Times(Power(b, m), Power(b, n))
  {
    if m > 0 {
      PowerAdds(b, m - 1, n);
      PowerStep(b, m - 1 + n);
      PowerStep(b, m - 1);
      TimesAssociates(b, Power(b, m - 1), Power(b, n));
    }
  }

  /** The first powers. */
  lemma PowerStep(b: real, n: nat)
    ensures Power(b, 0) == 1.0 && Power(b, 1) == b
    ensures Power(b, n + 1) == Times(b, Power(b, n))
  {
    assert Power(b, 1) == b * Power(b, 0);
  }

  function Times(x: real, y: real): real {
    x * y
  }

  lemma TimesAssociates(a: real, b: real, c: real)
    ensures Times(a, Times(b, c)) == Times(Times(a, b), c)
  {
  }

  /** The delays that are drawn before attempt `n`. */
  ghost function Slept(cfg: Config, draws: nat -> real, n: nat): real
    requires forall i :: 0.0 <= draws(i) <= 1.0
  {
    if n == 0 then 0.0 else Slept(cfg, draws, n - 1) + CalculateDelay(cfg, n - 1, draws(n - 1))
  }

  /** The longest total sleep before attempt `n`. */
  function SleepBound(cfg: Config, n: nat): (r: real) {
    if n == 0 then 0.0 else SleepBound(cfg, n - 1) + CappedDelay(cfg, n - 1)
  }

  lemma {:induction false} SleepBoundGrows(cfg: Config, m: nat, n: nat)
    requires cfg.Sensible() && m <= n
    ensures 0.0 <= SleepBound(cfg, m) <= SleepBound(cfg, n)
    decreases n
  {
    if m < n {
      SleepBoundGrows(cfg, m, n - 1);
    } else if n > 0 {
      SleepBoundGrows(cfg, n - 1, n - 1);
    }
  }

  /** The draws only shorten the sleep, and without jitter it is the capped geometric sum. */
  lemma {:induction false} SleptWithinBound(cfg: Config, draws: nat -> real, n: nat)
    requires forall i :: 0.0 <= draws(i) <= 1.0
    ensures cfg.Sensible() ==> 0.0 <= Slept(cfg, draws, n) <= SleepBound(cfg, n)
    ensures !cfg.jitter ==> Slept(cfg, draws, n) == SleepBound(cfg, n)
  {
    if n > 0 {
      SleptWithinBound(cfg, draws, n - 1);
    }
  }

  /** The first attempt that is not retryable, or the last attempt allowed. */
  ghost function DecidingAttempt<T>(outcomes: nat -> Outcome<T>, n: nat, maxAttempts: nat): (k: nat)
    requires n < maxAttempts
    ensures n <= k < maxAttempts
    ensures forall i :: n <= i < k ==> outcomes(i).Retryable?
    ensures k < maxAttempts - 1 ==> !outcomes(k).Retryable?
    decreases maxAttempts - n
  {
    if n == maxAttempts - 1 || !outcomes(n).Retryable? then n else DecidingAttempt(outcomes, n + 1, maxAttempts)
  }

  /**
   `retry_sync`: the result is that of the deciding attempt, which is also the last one made; the time
   slept in between is the sum of the delays drawn, one after each attempt but the last.
   */
  method RetrySync<T>(cfg: Config, outcomes: nat -> Outcome<T>, draws: nat -> real)
    returns (r: Outcome<T>, calls: nat, slept: real)
    requires forall i :: 0.0 <= draws(i) <= 1.0
    ensures cfg.maxAttempts <= 0 ==> r.Fatal? && calls == 0 && slept == 0.0
    ensures cfg.maxAttempts > 0 ==>
              var k := DecidingAttempt(outcomes, 0, cfg.maxAttempts);
              r == outcomes(k) && calls == k + 1 <= cfg.maxAttempts && slept == Slept(cfg, draws, k)
    ensures cfg.Sensible() && cfg.maxAttempts > 0 ==> 0.0 <= slept <= SleepBound(cfg, cfg.maxAttempts - 1)
  {
    calls, slept := 0, 0.0;
    var attempt := 0;
    while attempt < cfg.maxAttempts
      invariant attempt == calls && (if cfg.maxAttempts > 0 then attempt < cfg.maxAttempts else attempt == 0)
      invariant cfg.maxAttempts > 0 ==>
                  DecidingAttempt(outcomes, attempt, cfg.maxAttempts) == DecidingAttempt(outcomes, 0, cfg.maxAttempts)
      invariant slept == Slept(cfg, draws, attempt)
    {
      var outcome := outcomes(attempt);
      calls := calls + 1;
      if !outcome.Retryable? || attempt == cfg.maxAttempts - 1 {
        SleptWithinBound(cfg, draws, attempt);
        if cfg.Sensible() {
          SleepBoundGrows(cfg, attempt, cfg.maxAttempts - 1);
        }
        return outcome, calls, slept;
      }
      slept := slept + CalculateDelay(cfg, attempt, draws(attempt));
      attempt := attempt + 1;
    }
    return Fatal("Unexpected retry state"), calls, slept;
  }
}
