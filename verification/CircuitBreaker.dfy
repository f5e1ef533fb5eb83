/**
 The circuit breaker (app/infrastructure/circuit_breaker.py) in sequential use, and over the retried
 Bedrock call (app/services/bedrock_client.py).  Histories have the newest action first.
 */
module CircuitBreaker {
  import opened Wrappers
  import Retry

  datatype CircuitState = Closed | Open | HalfOpen

  datatype Config = Config(failureThreshold: int, resetTimeout: real)

  /** Interrupted: an exception outside `Exception`, which counts neither way. */
  datatype Outcome = Succeeded | Failed | Interrupted

  /** The fields of the breaker. */
  datatype Breaker = Breaker(state: CircuitState, failureCount: nat, lastFailureTime: real)

  const NEW_BREAKER := Breaker(Closed, 0, 0.0)

  /** The `state` property, which lets an open breaker become half-open. */
  function Poll(b: Breaker, cfg: Config, now: real): Breaker {
    if b.state == Open && now - b.lastFailureTime > cfg.resetTimeout then b.(state := HalfOpen) else b
  }

  function Admits(b: Breaker, cfg: Config, now: real): bool {
    Poll(b, cfg, now).state != Open
  }

  function Finish(b: Breaker, cfg: Config, end: real, outcome: Outcome): Breaker {
    match outcome
    case Succeeded => b.(state := Closed, failureCount := 0)
    case Failed =>
      Breaker(if b.failureCount + 1 >= cfg.failureThreshold then Open else b.state, b.failureCount + 1, end)
    case Interrupted => b
  }

  // ---- histories ----

  datatype Action =
    | Call(start: real, end: real, outcome: Outcome)
    | CheckState(start: real)

  function After(cfg: Config, from: Breaker, log: Log<Action>): Breaker {
    if log.Empty? then from
    else
      var b := After(cfg, from, log.rest);
      var polled := Poll(b, cfg, log.head.start);
      if log.head.Call? && polled.state != Open then Finish(polled, cfg, log.head.end, log.head.outcome) else polled
  }

  /** The calls whose function ran. */
  function Executed(cfg: Config, from: Breaker, log: Log<Action>): Log<Action> {
    if log.Empty? then Empty
    else
      var before := Executed(cfg, from, log.rest);
      if log.head.Call? && Admits(After(cfg, from, log.rest), cfg, log.head.start) then Newer(log.head, before)
      else before
  }

  /** The time at which the last action of the history was over. */
  function EndTime(log: Log<Action>, origin: real): real {
    if log.Empty? then origin else if log.head.Call? then log.head.end else log.head.start
  }

  /** One action after the other. */
  ghost predicate Sequential(log: Log<Action>, origin: real) {
    log.Newer? ==>
      && EndTime(log.rest, origin) <= log.head.start
      && (log.head.Call? ==> log.head.start <= log.head.end)
      && Sequential(log.rest, origin)
  }

  /** Failures since the last success. */
  function TrailingFailures(calls: Log<Action>): nat {
    if calls.Empty? || calls.head.CheckState? then 0
    else match calls.head.outcome
      case Failed => 1 + TrailingFailures(calls.rest)
      case Succeeded => 0
      case Interrupted => TrailingFailures(calls.rest)
  }

  function LastFailureTime(calls: Log<Action>): real {
    if calls.Empty? then 0.0
    else if calls.head.Call? && calls.head.outcome == Failed then calls.head.end
    else LastFailureTime(calls.rest)
  }

  ghost predicate Reflects(b: Breaker, cfg: Config, calls: Log<Action>, now: real) {
    && b.failureCount == TrailingFailures(calls)
    && b.lastFailureTime == LastFailureTime(calls)
    && (if b.failureCount < cfg.failureThreshold then b.state == Closed
        else b.state == Open || (b.state == HalfOpen && now - b.lastFailureTime > cfg.resetTimeout))
  }

  lemma {:induction false} RunReflects(cfg: Config, log: Log<Action>, origin: real)
    requires cfg.failureThreshold >= 1
    requires Sequential(log, origin)
    ensures Reflects(After(cfg, NEW_BREAKER, log), cfg, Executed(cfg, NEW_BREAKER, log), EndTime(log, origin))
  {
    if log.Newer? {
      RunReflects(cfg, log.rest, origin);
    }
  }

  /**
   The breaker is a function of its history: after any sequential run, the next call runs the
   function exactly when fewer than `failureThreshold` calls have failed since the last success, or
   the last failure is more than `resetTimeout` ago.
   */
  lemma AdmissionIsHistory(cfg: Config, log: Log<Action>, origin: real, now: real)
    requires cfg.failureThreshold >= 1
    requires Sequential(log, origin) && EndTime(log, origin) <= now
    ensures var calls := Executed(cfg, NEW_BREAKER, log);
            Admits(After(cfg, NEW_BREAKER, log), cfg, now) <==>
            (TrailingFailures(calls) < cfg.failureThreshold || now - LastFailureTime(calls) > cfg.resetTimeout)
  {
    RunReflects(cfg, log, origin);
  }

  // ---- outages ----

  function Count(calls: Log<Action>): nat {
    if calls.Empty? then 0 else 1 + Count(calls.rest)
  }

  ghost predicate AllFail(log: Log<Action>) {
    log.Newer? ==> (log.head.Call? ==> log.head.outcome == Failed) && AllFail(log.rest)
  }

  /** What a breaker in use looks like, whatever its past. */
  ghost predicate Plausible(b: Breaker, cfg: Config, now: real) {
    if b.failureCount < cfg.failureThreshold then b.state == Closed
    else b.state == Open || (b.state == HalfOpen && now - b.lastFailureTime > cfg.resetTimeout)
  }

  /** n times r, as the repeated addition of waiting times. */
  ghost function Times(n: nat, r: real): real {
    if n == 0 then 0.0 else Times(n - 1, r) + r
  }

  /** Past the threshold, each further execution moves the last failure by more than the timeout. */
  lemma {:induction false} OutagePace(cfg: Config, from: Breaker, log: Log<Action>, began: real)
    requires cfg.failureThreshold >= 1 && cfg.resetTimeout >= 0.0
    requires Plausible(from, cfg, began) && Sequential(log, began) && AllFail(log)
    ensures var b := After(cfg, from, log);
            var n := Count(Executed(cfg, from, log));
            && Plausible(b, cfg, EndTime(log, began))
            && began <= EndTime(log, began)
            && b.failureCount == from.failureCount + n
            && (n >= 1 ==> began <= b.lastFailureTime <= EndTime(log, began))
            && (n > cfg.failureThreshold ==>
                  b.lastFailureTime >= began + Times(n - cfg.failureThreshold, cfg.resetTimeout))
  {
    if log.Newer? {
      OutagePace(cfg, from, log.rest, began);
    }
  }

  lemma {:induction false} TimesIsProduct(n: nat, r: real)
    ensures Times(n, r) == n as real * r
  {
    if n > 0 {
      TimesIsProduct(n - 1, r);
    }
  }

  /**
   While the service is down, whatever state the breaker was in when the outage began, at most
   threshold + T / resetTimeout calls reach it in a time of T.
   */
  lemma OutageBound(cfg: Config, from: Breaker, log: Log<Action>, began: real)
    requires cfg.failureThreshold >= 1 && cfg.resetTimeout > 0.0
    requires Plausible(from, cfg, began) && Sequential(log, began) && AllFail(log)
    ensures Count(Executed(cfg, from, log)) as real
            <= cfg.failureThreshold as real + (EndTime(log, began) - began) / cfg.resetTimeout
  {
    OutagePace(cfg, from, log, began);
    PaceBound(Count(Executed(cfg, from, log)), cfg.failureThreshold, cfg.resetTimeout, EndTime(log, began) - began);
  }

  lemma PaceBound(n: nat, threshold: nat, r: real, elapsed: real)
    requires r > 0.0 && elapsed >= 0.0
    requires n > threshold ==> Times(n - threshold, r) <= elapsed
    ensures n as real <= threshold as real + elapsed / r
  {
    if n > threshold {
      TimesIsProduct(n - threshold, r);
      DivideBound((n - threshold) as real, r, elapsed);
    } else {
      DivideBound(0.0, r, elapsed);
    }
  }

  lemma DivideBound(k: real, r: real, t: real)
    requires r > 0.0 && k * r <= t
    ensures k <= t / r
  {
    assert (t / r) * r == t;
    if k > t / r {
      Increasing(t / r, k, r);
    }
  }

  lemma Increasing(a: real, b: real, r: real)
    requires a < b && r > 0.0
    ensures a * r < b * r
  {
    assert (b - a) * r > 0.0;
  }

  // ---- the class ----

  class Circuit {
    const cfg: Config
    var b: Breaker
    ghost var log: Log<Action>
    ghost const origin: real

    /** The fields are those that the recorded history leads to. */
    ghost predicate Valid()
      reads this
    {
      b == After(cfg, NEW_BREAKER, log) && Sequential(log, origin)
    }

    constructor (cfg: Config, ghost origin: real)
      ensures Valid() && this.cfg == cfg && this.origin == origin && log == Empty
    {
      this.cfg := cfg;
      this.b := NEW_BREAKER;
      this.log := Empty;
      this.origin := origin;
    }

    /** The `state` property. */
    method State(now: real) returns (s: CircuitState)
      requires Valid() && EndTime(log, origin) <= now
      modifies this
      ensures Valid() && log == Newer(CheckState(now), old(log))
      ensures s == b.state
    {
      if b.state == Open && now - b.lastFailureTime > cfg.resetTimeout {
        b := b.(state := HalfOpen);
      }
      log := Newer(CheckState(now), log);
      return b.state;
    }

    /** `execute` of a function that would run from `start` to `end`; false is the fast failure. */
    method Execute(start: real, end: real, outcome: Outcome) returns (ran: bool)
      requires Valid() && EndTime(log, origin) <= start <= end
      modifies this
      ensures Valid()
      ensures log == Newer(Call(start, end, outcome), old(log))
      ensures Executed(cfg, NEW_BREAKER, log) ==
              (if ran then Newer(Call(start, end, outcome), Executed(cfg, NEW_BREAKER, old(log)))
               else Executed(cfg, NEW_BREAKER, old(log)))
      ensures ran == Admits(old(b), cfg, start)
      ensures cfg.failureThreshold >= 1 ==>
                var calls := Executed(cfg, NEW_BREAKER, old(log));
                ran <==> TrailingFailures(calls) < cfg.failureThreshold
                         || start - LastFailureTime(calls) > cfg.resetTimeout
    {
      if cfg.failureThreshold >= 1 {
        AdmissionIsHistory(cfg, log, origin, start);
      }
      log := Newer(Call(start, end, outcome), log);
      if b.state == Open && start - b.lastFailureTime > cfg.resetTimeout {
        b := b.(state := HalfOpen);
      }
      if b.state == Open {
        return false;
      }
      match outcome {
        case Succeeded =>
          b := b.(failureCount := 0, state := Closed);
        case Failed =>
          b := b.(failureCount := b.failureCount + 1, lastFailureTime := end);
          if b.failureCount >= cfg.failureThreshold {
            b := b.(state := Open);
          }
        case Interrupted =>
      }
      return true;
    }
  }

  /** How the breaker classifies the end of a retried call. */
  function Classify<T>(r: Retry.Outcome<T>): Outcome {
    if r.Returned? then Succeeded else Failed
  }

  function MaxRequests(retry: Retry.Config): nat {
    if retry.maxAttempts > 0 then retry.maxAttempts else 0
  }

  /** One more failing call. */
  function AfterFailedCall(b: Breaker, cfg: Config, start: real, end: real): Breaker {
    var polled := Poll(b, cfg, start);
    if polled.state != Open then Finish(polled, cfg, end, Failed) else polled
  }

  /** The call has an attempt to decide it, and that one returns a value. */
  ghost predicate Returns<T>(outcomes: nat -> Retry.Outcome<T>, maxAttempts: int) {
    maxAttempts > 0 && outcomes(Retry.DecidingAttempt(outcomes, 0, maxAttempts)).Returned?
  }

  /**
   The breaker around the retried Bedrock call: a rejected call makes no request at all; one that runs
   ends as its deciding attempt does, resets the breaker if that returned a value and counts as a
   failure if not.
   */
  method CallBedrock<T>(circuit: Circuit, start: real, end: real, retry: Retry.Config,
                        outcomes: nat -> Retry.Outcome<T>, draws: nat -> real)
    returns (ran: bool, requests: nat, result: Option<Retry.Outcome<T>>)
    requires circuit.Valid() && EndTime(circuit.log, circuit.origin) <= start <= end
    requires forall i :: 0.0 <= draws(i) <= 1.0
    modifies circuit
    ensures circuit.Valid()
    ensures ran == Admits(old(circuit.b), circuit.cfg, start)
    ensures !ran ==> requests == 0 && result == None && circuit.b == old(circuit.b)
    ensures ran && retry.maxAttempts > 0 ==>
              && requests == Retry.DecidingAttempt(outcomes, 0, retry.maxAttempts) + 1 <= retry.maxAttempts
              && result == Some(outcomes(requests - 1))
    ensures ran && Returns(outcomes, retry.maxAttempts) ==>
              && circuit.b.state == Closed && circuit.b.failureCount == 0
              && circuit.log == Newer(Call(start, end, Succeeded), old(circuit.log))
    ensures ran && !Returns(outcomes, retry.maxAttempts) ==>
              && circuit.b.failureCount == old(circuit.b.failureCount) + 1 && circuit.b.lastFailureTime == end
              && circuit.log == Newer(Call(start, end, Failed), old(circuit.log))
    ensures requests <= if ran then MaxRequests(retry) else 0
    ensures (forall i :: !outcomes(i).Returned?) ==>
              && circuit.log == Newer(Call(start, end, Failed), old(circuit.log))
              && circuit.b == AfterFailedCall(old(circuit.b), circuit.cfg, start, end)
  {
    if circuit.b.state == Open && !(start - circuit.b.lastFailureTime > circuit.cfg.resetTimeout) {
      ran := circuit.Execute(start, end, Failed);
      return ran, 0, None;
    }
    var r, calls, _ := Retry.RetrySync(retry, outcomes, draws);
    ran := circuit.Execute(start, end, Classify(r));
    return ran, calls, Some(r);
  }

  // ---- requests of an outage ----

  /** A Bedrock call that begins at `start` and, if it runs, ends at `end` with these outcomes of its attempts. */
  datatype BedrockCall<T> = BedrockCall(start: real, end: real, outcomes: nat -> Retry.Outcome<T>, draws: nat -> real)

  /** The calls follow each other from `began` on. */
  ghost predicate InTurn<T(!new)>(calls: seq<BedrockCall<T>>, began: real) {
    forall i :: 0 <= i < |calls| ==> calls[i].start <= calls[i].end && EndOf(calls, i, began) <= calls[i].start
  }

  function EndOf<T>(calls: seq<BedrockCall<T>>, n: nat, began: real): real
    requires n <= |calls|
  {
    if n == 0 then began else calls[n - 1].end
  }

  /** Bedrock is down: no attempt of any call returns a value. */
  ghost predicate Down<T(!new)>(calls: seq<BedrockCall<T>>) {
    forall i, k :: 0 <= i < |calls| ==> !calls[i].outcomes(k).Returned?
  }

  /** Every call has a deciding attempt that returns a value. */
  ghost predicate Up<T(!new)>(calls: seq<BedrockCall<T>>, retry: Retry.Config) {
    forall i :: 0 <= i < |calls| ==> Returns(calls[i].outcomes, retry.maxAttempts)
  }

  /** A call that returns, through a closed breaker. */
  method CallOnceUp<T>(circuit: Circuit, ghost now: real, call: BedrockCall<T>, retry: Retry.Config) returns (ran: bool)
    requires circuit.Valid() && EndTime(circuit.log, circuit.origin) <= now <= call.start <= call.end
    requires circuit.b.state == Closed && Returns(call.outcomes, retry.maxAttempts)
    requires forall k :: 0.0 <= call.draws(k) <= 1.0
    modifies circuit
    ensures circuit.Valid() && EndTime(circuit.log, circuit.origin) <= call.end
    ensures ran && circuit.b.state == Closed && circuit.b.failureCount == 0
  {
    assert Admits(circuit.b, circuit.cfg, call.start);
    var runs, _, _ := CallBedrock(circuit, call.start, call.end, retry, call.outcomes, call.draws);
    return runs;
  }

  /** As long as the calls of a closed breaker return, none is rejected, however many attempts they take. */
  method CallWhileUp<T(!new)>(circuit: Circuit, began: real, calls: seq<BedrockCall<T>>, retry: Retry.Config)
    returns (served: nat)
    requires circuit.Valid() && EndTime(circuit.log, circuit.origin) <= began
    requires circuit.b.state == Closed && InTurn(calls, began) && Up(calls, retry)
    requires forall i, k :: 0 <= i < |calls| ==> 0.0 <= calls[i].draws(k) <= 1.0
    modifies circuit
    ensures circuit.Valid() && served == |calls| && circuit.b.state == Closed
    ensures calls != [] ==> circuit.b.failureCount == 0
  {
    served := 0;
    ghost var now := began;
    var i := 0;
    while i < |calls|
      invariant i <= |calls| && now == EndOf(calls, i, began)
      invariant circuit.Valid() && EndTime(circuit.log, circuit.origin) <= now
      invariant served == i && circuit.b.state == Closed
      invariant i > 0 ==> circuit.b.failureCount == 0
    {
      var call := calls[i];
      assert Returns(call.outcomes, retry.maxAttempts);
      var ran := CallOnceUp(circuit, now, call, retry);
      if ran {
        served := served + 1;
      }
      now := call.end;
      i := i + 1;
    }
  }

  lemma UsedBreakerIsPlausible(cfg: Config, log: Log<Action>, origin: real, began: real)
    requires cfg.failureThreshold >= 1 && Sequential(log, origin) && EndTime(log, origin) <= began
    ensures Plausible(After(cfg, NEW_BREAKER, log), cfg, began)
  {
    RunReflects(cfg, log, origin);
  }

  ghost function RequestLimit(cfg: Config, elapsed: real, most: nat): real
    requires cfg.resetTimeout > 0.0
  {
    (cfg.failureThreshold as real + elapsed / cfg.resetTimeout) * most as real
  }

  lemma ProductGrows(a: real, b: real, c: real)
    requires a <= b && c >= 0.0
    ensures a * c <= b * c
  {
    assert (b - a) * c >= 0.0;
  }

  lemma OutageAllowance(cfg: Config, from: Breaker, log: Log<Action>, began: real, most: nat)
    requires cfg.failureThreshold >= 1 && cfg.resetTimeout > 0.0
    requires Plausible(from, cfg, began) && Sequential(log, began) && AllFail(log)
    ensures Times(Count(Executed(cfg, from, log)), most as real)
            <= RequestLimit(cfg, EndTime(log, began) - began, most)
  {
    OutageBound(cfg, from, log, began);
    TimesWithin(Count(Executed(cfg, from, log)), most as real,
                cfg.failureThreshold as real + (EndTime(log, began) - began) / cfg.resetTimeout);
  }

  lemma TimesWithin(n: nat, r: real, bound: real)
    requires n as real <= bound && r >= 0.0
    ensures Times(n, r) <= bound * r
  {
    var k := n as real;
    calc {
      Times(n, r);
    == { TimesIsProduct(n, r); }
      k * r;
    <= { ProductGrows(k, bound, r); }
      bound * r;
    }
  }

  lemma FailingCallStep(cfg: Config, from: Breaker, log: Log<Action>, start: real, end: real, began: real)
    requires Sequential(log, began) && AllFail(log) && EndTime(log, began) <= start <= end
    ensures var log' := Newer(Call(start, end, Failed), log);
            && Sequential(log', began) && AllFail(log') && EndTime(log', began) == end
            && After(cfg, from, log') == AfterFailedCall(After(cfg, from, log), cfg, start, end)
            && Count(Executed(cfg, from, log')) ==
               Count(Executed(cfg, from, log)) + if Admits(After(cfg, from, log), cfg, start) then 1 else 0
  {
  }

  /** A call of an outage: one more failure if it runs, after at least one request and at most as many as allowed. */
  method CallOnceDown<T>(circuit: Circuit, ghost now: real, call: BedrockCall<T>, retry: Retry.Config)
    returns (ran: bool, requests: nat)
    requires circuit.Valid() && EndTime(circuit.log, circuit.origin) <= now <= call.start <= call.end
    requires (forall k :: !call.outcomes(k).Returned?) && forall k :: 0.0 <= call.draws(k) <= 1.0
    modifies circuit
    ensures circuit.Valid() && EndTime(circuit.log, circuit.origin) <= call.end
    ensures ran == Admits(old(circuit.b), circuit.cfg, call.start)
    ensures circuit.b == AfterFailedCall(old(circuit.b), circuit.cfg, call.start, call.end)
    ensures requests <= (if ran then MaxRequests(retry) else 0) && (ran && retry.maxAttempts > 0 ==> requests >= 1)
  {
    var runs, made, _ := CallBedrock(circuit, call.start, call.end, retry, call.outcomes, call.draws);
    return runs, made;
  }

  /** The calls of an outage as a history of failing calls, whose executions allow for the requests made. */
  method CallWhileDown<T(!new)>(circuit: Circuit, began: real, calls: seq<BedrockCall<T>>, retry: Retry.Config)
    returns (requests: nat, ghost outage: Log<Action>)
    requires circuit.Valid() && EndTime(circuit.log, circuit.origin) <= began
    requires InTurn(calls, began) && Down(calls)
    requires forall i, k :: 0 <= i < |calls| ==> 0.0 <= calls[i].draws(k) <= 1.0
    modifies circuit
    ensures circuit.Valid() && circuit.b == After(circuit.cfg, old(circuit.b), outage)
    ensures Sequential(outage, began) && AllFail(outage) && EndTime(outage, began) == EndOf(calls, |calls|, began)
    ensures requests as real <= Times(Count(Executed(circuit.cfg, old(circuit.b), outage)), MaxRequests(retry) as real)
    ensures retry.maxAttempts > 0 ==> Count(Executed(circuit.cfg, old(circuit.b), outage)) <= requests
  {
    requests := 0;
    outage := Empty;
    ghost var ran := 0;
    ghost var now := began;
    var i := 0;
    while i < |calls|
      invariant i <= |calls| && circuit.Valid() && now == EndOf(calls, i, began)
      invariant EndTime(circuit.log, circuit.origin) <= now
      invariant circuit.b == After(circuit.cfg, old(circuit.b), outage)
      invariant Sequential(outage, began) && AllFail(outage) && EndTime(outage, began) == now
      invariant ran == Count(Executed(circuit.cfg, old(circuit.b), outage))
      invariant requests as real <= Times(ran, MaxRequests(retry) as real)
      invariant retry.maxAttempts > 0 ==> ran <= requests
    {
      var call := calls[i];
      assert forall k :: !call.outcomes(k).Returned?;
      FailingCallStep(circuit.cfg, old(circuit.b), outage, call.start, call.end, began);
      var runs, made := CallOnceDown(circuit, now, call, retry);
      now := call.end;
      outage := Newer(Call(call.start, call.end, Failed), outage);
      ran := if runs then ran + 1 else ran;
      requests := requests + made;
      i := i + 1;
    }
  }

  /**
   Bedrock calls made one after the other during an outage, from whatever state the circuit was in: in a
   time of T they make at most (threshold + T / resetTimeout) times `max_attempts` requests.
   */
  method CallDuringOutage<T(!new)>(circuit: Circuit, began: real, calls: seq<BedrockCall<T>>, retry: Retry.Config)
    returns (requests: nat)
    requires circuit.cfg.failureThreshold >= 1 && circuit.cfg.resetTimeout > 0.0
    requires circuit.Valid() && EndTime(circuit.log, circuit.origin) <= began
    requires InTurn(calls, began) && Down(calls)
    requires forall i, k :: 0 <= i < |calls| ==> 0.0 <= calls[i].draws(k) <= 1.0
    modifies circuit
    ensures circuit.Valid()
    ensures requests as real <= RequestLimit(circuit.cfg, EndOf(calls, |calls|, began) - began, MaxRequests(retry))
  {
    UsedBreakerIsPlausible(circuit.cfg, circuit.log, circuit.origin, began);
    ghost var before := circuit.b;
    ghost var outage;
    requests, outage := CallWhileDown(circuit, began, calls, retry);
    OutageAllowance(circuit.cfg, before, outage, began, MaxRequests(retry));
  }
}
