/** Retrying a failing action with exponential back-off. The action may change the state `S` of the world. */
module Retry {
  import opened Wrappers

  datatype Config = Config(maxAttempts: int, initialDelayMs: real, backoffFactor: real, maxDelayMs: real)

  // The value or error in the end, the state left behind, the attempt that gave it, and the waits before
  // the later attempts.
  datatype Outcome<S, A, E> = Outcome(result: Result<A, E>, state: S, attempts: nat, waits: seq<real>)

  function Pow(x: real, n: nat): real {
    if n == 0 then 1.0 else x * Pow(x, n - 1)
  }

  function Delay(config: Config, attempt: nat): real
    requires attempt >= 1
  {
    var d := config.initialDelayMs * Pow(config.backoffFactor, attempt - 1);
    if d < config.maxDelayMs then d else config.maxDelayMs
  }

  predicate Stops<A, E>(r: Result<A, E>, isTransient: E -> bool) {
    r.Ok? || !isTransient(r.error)
  }

  function RunFrom<S, A, E>(
    action: (nat, S) -> (Result<A, E>, S), isTransient: E -> bool, config: Config, attempt: nat, s: S): Outcome<S, A, E>
    requires attempt >= 1
    decreases config.maxAttempts - attempt
  {
    var (r, s') := action(attempt, s);
    if Stops(r, isTransient) || attempt >= config.maxAttempts then Outcome(r, s', attempt, [])
    else
      var rest := RunFrom(action, isTransient, config, attempt + 1, s');
      Outcome(rest.result, rest.state, rest.attempts, [Delay(config, attempt)] + rest.waits)
  }

  function RetryWithBackoff<S, A, E>(
    action: (nat, S) -> (Result<A, E>, S), isTransient: E -> bool, config: Config, s: S): Outcome<S, A, E>
  {
    RunFrom(action, isTransient, config, 1, s)
  }

  function MaxRuns(config: Config): nat {
    if config.maxAttempts > 1 then config.maxAttempts else 1
  }

  // The state in which the attempt after the first `n` starts.
  function After<S, A, E>(action: (nat, S) -> (Result<A, E>, S), s: S, n: nat): S {
    if n == 0 then s else action(n, After(action, s, n - 1)).1
  }

  // What attempt `n` answers.
  function Answer<S, A, E>(action: (nat, S) -> (Result<A, E>, S), s: S, n: nat): Result<A, E>
    requires n >= 1
  {
    action(n, After(action, s, n - 1)).0
  }

  // The outcome is that of the first attempt that is not a transient failure, or of the last allowed one;
  // there is one wait before each attempt but the first.
  lemma RetryOutcome<S, A, E>(action: (nat, S) -> (Result<A, E>, S), isTransient: E -> bool, config: Config, s: S)
    ensures var o := RetryWithBackoff(action, isTransient, config, s);
      && 1 <= o.attempts <= MaxRuns(config)
      && o.result == Answer(action, s, o.attempts)
      && o.state == After(action, s, o.attempts)
      && (forall k | 1 <= k < o.attempts :: !Stops(Answer(action, s, k), isTransient))
      && (Stops(o.result, isTransient) || o.attempts == MaxRuns(config))
      && |o.waits| == o.attempts - 1
      && forall k | 0 <= k < |o.waits| :: o.waits[k] == Delay(config, k + 1)
  {
    RunFromOutcome(action, isTransient, config, 1, s);
  }

  lemma {:induction false} RunFromOutcome<S, A, E>(
    action: (nat, S) -> (Result<A, E>, S), isTransient: E -> bool, config: Config, attempt: nat, s: S)
    requires 1 <= attempt <= MaxRuns(config)
    ensures var o := RunFrom(action, isTransient, config, attempt, After(action, s, attempt - 1));
      && attempt <= o.attempts <= MaxRuns(config)
      && o.result == Answer(action, s, o.attempts)
      && o.state == After(action, s, o.attempts)
      && (forall k | attempt <= k < o.attempts :: !Stops(Answer(action, s, k), isTransient))
      && (Stops(o.result, isTransient) || o.attempts == MaxRuns(config))
      && |o.waits| == o.attempts - attempt
      && forall k | 0 <= k < |o.waits| :: o.waits[k] == Delay(config, attempt + k)
    decreases config.maxAttempts - attempt
  {
    hide Delay;
    if !Stops(Answer(action, s, attempt), isTransient) && attempt < config.maxAttempts {
      RunFromOutcome(action, isTransient, config, attempt + 1, s);
    }
  }

  // What every attempt carries from its start to its end, the whole retry carries from its start to its end.
  lemma {:induction false} RetryKeeps<S, A, E>(
    action: (nat, S) -> (Result<A, E>, S), isTransient: E -> bool, config: Config, s: S, inv: (nat, S) -> bool)
    requires inv(0, s)
    requires forall k: nat, x: S | inv(k, x) :: inv(k + 1, action(k + 1, x).1)
    ensures var o := RetryWithBackoff(action, isTransient, config, s);
      && 1 <= o.attempts <= MaxRuns(config)
      && inv(o.attempts - 1, After(action, s, o.attempts - 1)) && inv(o.attempts, o.state)
  {
    RetryOutcome(action, isTransient, config, s);
    var n := RetryWithBackoff(action, isTransient, config, s).attempts;
    AfterKeeps(action, s, inv, n - 1);
    AfterKeeps(action, s, inv, n);
  }

  lemma {:induction false} AfterKeeps<S, A, E>(
    action: (nat, S) -> (Result<A, E>, S), s: S, inv: (nat, S) -> bool, n: nat)
    requires inv(0, s)
    requires forall k: nat, x: S | inv(k, x) :: inv(k + 1, action(k + 1, x).1)
    ensures inv(n, After(action, s, n))
  {
    if n > 0 { AfterKeeps(action, s, inv, n - 1); }
  }

  function Sum(xs: seq<real>): real {
    if xs == [] then 0.0 else Sum(xs[..|xs| - 1]) + xs[|xs| - 1]
  }

  lemma {:induction false} PowGrows(x: real, n: nat)
    requires x >= 1.0
    ensures 1.0 <= Pow(x, n) <= Pow(x, n + 1)
  {
    if n > 0 {
      PowGrows(x, n - 1);
      ProductAtLeast(x, Pow(x, n));
    }
  }

  lemma ProductAtLeast(x: real, y: real)
    requires x >= 1.0 && y >= 1.0
    ensures x * y >= y
  {
    assert (x - 1.0) * y >= 0.0;
  }

  lemma ProductMonotone(d: real, x: real, y: real)
    requires d >= 0.0 && x <= y
    ensures d * x <= d * y
  {
    assert d * (y - x) >= 0.0;
  }

  // No wait is longer than the cap; with a factor of at least one, waits never get shorter.
  lemma DelaysGrow(config: Config, attempt: nat)
    requires attempt >= 1
    ensures Delay(config, attempt) <= config.maxDelayMs
    ensures config.backoffFactor >= 1.0 && config.initialDelayMs >= 0.0 ==>
      Delay(config, attempt) <= Delay(config, attempt + 1)
  {
    if config.backoffFactor >= 1.0 && config.initialDelayMs >= 0.0 {
      PowGrows(config.backoffFactor, attempt - 1);
      var f := config.backoffFactor;
      ProductMonotone(config.initialDelayMs, Pow(f, attempt - 1), Pow(f, attempt));
    }
  }

  // Each wait is the lesser of the cap and of the delay that grows by the factor from the initial one.
  lemma DelayExactly(config: Config, attempt: nat)
    requires attempt >= 1
    ensures var d := config.initialDelayMs * Pow(config.backoffFactor, attempt - 1);
      && Delay(config, attempt) <= d && Delay(config, attempt) <= config.maxDelayMs
      && (Delay(config, attempt) == d || Delay(config, attempt) == config.maxDelayMs)
  {
  }

  // All waits together stay below the cap times their number, and below the geometric sum of the uncapped delays.
  lemma WaitsAreBounded<S, A, E>(action: (nat, S) -> (Result<A, E>, S), isTransient: E -> bool, config: Config, s: S)
    ensures var o := RetryWithBackoff(action, isTransient, config, s);
      && |o.waits| < MaxRuns(config)
      && Sum(o.waits) <= |o.waits| as real * config.maxDelayMs
      && (config.backoffFactor >= 1.0 ==>
          Sum(o.waits) * (config.backoffFactor - 1.0)
          <= config.initialDelayMs * (Pow(config.backoffFactor, |o.waits|) - 1.0))
      && (config.backoffFactor >= 1.0 && config.initialDelayMs >= 0.0 ==>
          forall i, j | 0 <= i <= j < |o.waits| :: o.waits[i] <= o.waits[j])
  {
    hide Delay, Sum, Pow, RetryWithBackoff;
    var o := RetryWithBackoff(action, isTransient, config, s);
    RetryOutcome(action, isTransient, config, s);
    SumCapped(config, o.waits);
    if config.backoffFactor >= 1.0 { SumGeometric(config, o.waits); }
    if config.backoffFactor >= 1.0 && config.initialDelayMs >= 0.0 {
      forall i, j | 0 <= i <= j < |o.waits| ensures o.waits[i] <= o.waits[j] { DelaysOrdered(config, i + 1, j + 1); }
    }
  }

  lemma {:induction false} DelaysOrdered(config: Config, i: nat, j: nat)
    requires 1 <= i <= j && config.backoffFactor >= 1.0 && config.initialDelayMs >= 0.0
    ensures Delay(config, i) <= Delay(config, j)
  {
    hide Delay;
    if i < j {
      DelaysOrdered(config, i, j - 1);
      DelaysGrow(config, j - 1);
    }
  }

  lemma {:induction false} SumCapped(config: Config, waits: seq<real>)
    requires forall k | 0 <= k < |waits| :: waits[k] == Delay(config, k + 1)
    ensures Sum(waits) <= |waits| as real * config.maxDelayMs
  {
    hide Delay;
    var n := |waits|;
    if n > 0 {
      SumCapped(config, waits[..n - 1]);
      DelaysGrow(config, n);
      OneMore(n - 1, config.maxDelayMs);
    }
  }

  lemma OneMore(n: nat, d: real)
    ensures (n + 1) as real * d == n as real * d + d
  {
    assert (n + 1) as real == n as real + 1.0;
  }

  lemma {:induction false} SumGeometric(config: Config, waits: seq<real>)
    requires forall k | 0 <= k < |waits| :: waits[k] == Delay(config, k + 1)
    requires config.backoffFactor >= 1.0
    ensures Sum(waits) * (config.backoffFactor - 1.0)
      <= config.initialDelayMs * (Pow(config.backoffFactor, |waits|) - 1.0)
  {
    hide Delay;
    var n := |waits|;
    if n > 0 {
      SumGeometric(config, waits[..n - 1]);
      assert waits[n - 1] <= config.initialDelayMs * Pow(config.backoffFactor, n - 1) by { DelayUncapped(config, n); }
      var f := config.backoffFactor;
      GeometricStep(config.initialDelayMs, f, Pow(f, n - 1), Sum(waits[..n - 1]), waits[n - 1]);
    }
  }

  lemma DelayUncapped(config: Config, attempt: nat)
    requires attempt >= 1
    ensures Delay(config, attempt) <= config.initialDelayMs * Pow(config.backoffFactor, attempt - 1)
  {
  }

  lemma GeometricStep(d: real, f: real, p: real, sum: real, last: real)
    requires f >= 1.0 && last <= d * p && sum * (f - 1.0) <= d * (p - 1.0)
    ensures (sum + last) * (f - 1.0) <= d * (f * p - 1.0)
  {
    ProductMonotone(f - 1.0, last, d * p);
    assert (f - 1.0) * last <= (f - 1.0) * (d * p);
    assert (sum + last) * (f - 1.0) == sum * (f - 1.0) + (f - 1.0) * last;
    assert (f - 1.0) * (d * p) == d * (f * p) - d * p;
    assert d * (p - 1.0) == d * p - d && d * (f * p - 1.0) == d * (f * p) - d;
  }
}
