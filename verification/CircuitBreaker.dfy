/**
 * CircuitBreaker: acquisitions, and outcomes of in-flight calls that arrive late and in any order.
 * `Step` is one synchronous method call; the class below performs it on its fields.
 */
module CircuitBreakers {
  import opened Prelude

  datatype CircuitState = Closed | Open | HalfOpen

  datatype Config = Config(failureThreshold: int, resetTimeoutMs: int, successThreshold: int)

  /** The values the constructor falls back to. */
  const DEFAULTS := Config(5, 30000, 2)

  /** One call of the onStateChange handler. */
  datatype Change = Change(from: CircuitState, to: CircuitState)

  datatype Breaker = Breaker(state: CircuitState, failureCount: int, successCount: int, lastFailureTime: int,
                             changes: seq<Change>)

  datatype Event = Acquire(now: int) | Success | Failure(now: int) | Reset

  const FRESH := Breaker(Closed, 0, 0, 0, [])

  /** tryAcquire and the gate of execute let a request through. */
  predicate Admits(c: Config, b: Breaker, now: int) {
    b.state.Open? ==> c.resetTimeoutMs <= now - b.lastFailureTime
  }

  function Move(b: Breaker, to: CircuitState): Breaker {
    b.(state := to, changes := b.changes + [Change(b.state, to)])
  }

  function Step(c: Config, b: Breaker, e: Event): Breaker {
    match e
    case Acquire(now) =>
      if b.state.Open? && Admits(c, b, now) then Move(b, HalfOpen).(successCount := 0) else b
    case Success =>
      if !b.state.HalfOpen? then b.(failureCount := 0)
      else if c.successThreshold <= b.successCount + 1 then Move(b, Closed).(failureCount := 0, successCount := 0)
      else b.(successCount := b.successCount + 1)
    case Failure(now) =>
      var counted := b.(failureCount := b.failureCount + 1, lastFailureTime := now);
      if b.state.HalfOpen? || c.failureThreshold <= counted.failureCount then Move(counted, Open) else counted
    case Reset =>
      var closed := if b.state.Closed? then b else Move(b, Closed);
      closed.(failureCount := 0, successCount := 0, lastFailureTime := 0)
  }

  class CircuitBreaker {
    const config: Config
    var state: CircuitState
    var failureCount: int
    var successCount: int
    var lastFailureTime: int
    /** What onStateChange has been told, in order. */
    var changes: seq<Change>

    constructor (failureThreshold: Option<int>, resetTimeoutMs: Option<int>, successThreshold: Option<int>)
      ensures Model() == FRESH
      ensures config == Config(
        if failureThreshold.Some? then failureThreshold.value else 5,
        if resetTimeoutMs.Some? then resetTimeoutMs.value else 30000,
        if successThreshold.Some? then successThreshold.value else 2)
    {
      config := Config(
        if failureThreshold.Some? then failureThreshold.value else DEFAULTS.failureThreshold,
        if resetTimeoutMs.Some? then resetTimeoutMs.value else DEFAULTS.resetTimeoutMs,
        if successThreshold.Some? then successThreshold.value else DEFAULTS.successThreshold);
      state, failureCount, successCount, lastFailureTime, changes := Closed, 0, 0, 0, [];
    }

    function Model(): Breaker
      reads this
    {
      Breaker(state, failureCount, successCount, lastFailureTime, changes)
    }

    method ResetBreaker()
      modifies this
      ensures Model() == Step(config, old(Model()), Reset)
    {
      var previous := state;
      state := Closed;
      failureCount := 0;
      successCount := 0;
      lastFailureTime := 0;
      if previous != Closed {
        changes := changes + [Change(previous, Closed)];
      }
    }

    /** The gate at the head of execute: false stands for the error it throws. */
    method ExecuteGate(now: int) returns (admitted: bool)
      modifies this
      ensures admitted == Admits(config, old(Model()), now)
      ensures Model() == Step(config, old(Model()), Acquire(now))
    {
      if state == Open {
        if now - lastFailureTime >= config.resetTimeoutMs {
          var previous := state;
          state := HalfOpen;
          successCount := 0;
          changes := changes + [Change(previous, HalfOpen)];
        } else {
          return false;
        }
      }
      admitted := true;
    }

    method TryAcquire(now: int) returns (admitted: bool)
      modifies this
      ensures admitted == Admits(config, old(Model()), now)
      ensures Model() == Step(config, old(Model()), Acquire(now))
    {
      if state == Open {
        if now - lastFailureTime >= config.resetTimeoutMs {
          var previous := state;
          state := HalfOpen;
          successCount := 0;
          changes := changes + [Change(previous, HalfOpen)];
          return true;
        }
        return false;
      }
      admitted := true;
    }

    method RecordSuccess()
      modifies this
      ensures Model() == Step(config, old(Model()), Success)
    {
      if state == HalfOpen {
        successCount := successCount + 1;
        if successCount >= config.successThreshold {
          var previous := state;
          state := Closed;
          failureCount := 0;
          successCount := 0;
          changes := changes + [Change(previous, Closed)];
        }
      } else {
        failureCount := 0;
      }
    }

    method RecordFailure(now: int)
      modifies this
      ensures Model() == Step(config, old(Model()), Failure(now))
    {
      failureCount := failureCount + 1;
      lastFailureTime := now;
      var previous := state;
      if state == HalfOpen {
        state := Open;
        changes := changes + [Change(previous, Open)];
      } else if failureCount >= config.failureThreshold {
        state := Open;
        changes := changes + [Change(previous, Open)];
      }
    }
  }
}
