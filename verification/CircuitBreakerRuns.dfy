/** The breaker over whole histories: every interleaving of acquisitions, late outcomes and resets. */
module CircuitBreakerRuns {
  import opened Prelude
  import opened CircuitBreakers

  /** The breaker after a history, from construction. */
  function After(c: Config, h: seq<Event>): Breaker {
    if h == [] then FRESH else Step(c, After(c, h[..|h| - 1]), h[|h| - 1])
  }

  // ---------------------------------------------------------------- what the history alone says

  /** Failures at the end of the history, since the last success or reset. Acquisitions do not interrupt them. */
  function TrailingFailures(h: seq<Event>): nat {
    if h == [] then 0
    else
      var before := h[..|h| - 1];
      match h[|h| - 1]
      case Failure(_) => TrailingFailures(before) + 1
      case Acquire(_) => TrailingFailures(before)
      case Success => 0
      case Reset => 0
  }

  /** When the latest failure since the last reset was recorded, 0 if there is none. */
  function LatestFailure(h: seq<Event>): int {
    if h == [] then 0
    else
      match h[|h| - 1]
      case Failure(now) => now
      case Reset => 0
      case _ => LatestFailure(h[..|h| - 1])
  }

  /** The state, told from the history without the breaker's counters. */
  function StateBy(c: Config, h: seq<Event>): CircuitState
    decreases |h|, 1
  {
    if h == [] then Closed
    else
      var before := h[..|h| - 1];
      var was := StateBy(c, before);
      match h[|h| - 1]
      case Acquire(now) => if was.Open? && c.resetTimeoutMs <= now - LatestFailure(before) then HalfOpen else was
      case Success =>
        if was.HalfOpen? && Max(1, c.successThreshold) <= ProbeSuccesses(c, before) + 1 then Closed else was
      case Failure(_) => if was.Closed? && TrailingFailures(h) < c.failureThreshold then Closed else Open
      case Reset => Closed
  }

  /** Successes recorded since the latest entry into HALF_OPEN, while it lasts. */
  function ProbeSuccesses(c: Config, h: seq<Event>): nat
    decreases |h|, 2
  {
    if h == [] || !StateBy(c, h).HalfOpen? then 0
    else ProbeSuccesses(c, h[..|h| - 1]) + if h[|h| - 1].Success? then 1 else 0
  }

  /**
   * Failures since the count was last cleared: by a reset, a recovery, or any success outside HALF_OPEN, a
   * late one while OPEN included. Successes that probe in HALF_OPEN leave it.
   */
  function FailuresSinceCleared(c: Config, h: seq<Event>): nat {
    if h == [] then 0
    else
      var before := h[..|h| - 1];
      match h[|h| - 1]
      case Failure(_) => FailuresSinceCleared(c, before) + 1
      case Acquire(_) => FailuresSinceCleared(c, before)
      case Success =>
        if StateBy(c, before).HalfOpen? && StateBy(c, h).HalfOpen? then FailuresSinceCleared(c, before) else 0
      case Reset => 0
  }

  // ---------------------------------------------------------------- counters against history

  /** The breaker's state and counters are what the history says, at every point of every history. */
  lemma {:induction false} HistoryDetermines(c: Config, h: seq<Event>)
    ensures var b := After(c, h);
      && b.state == StateBy(c, h)
      && b.lastFailureTime == LatestFailure(h)
      && b.failureCount == FailuresSinceCleared(c, h)
      && (b.state.Closed? ==> b.failureCount == TrailingFailures(h) < Max(1, c.failureThreshold))
      && (b.state.HalfOpen? ==> b.successCount == ProbeSuccesses(c, h) < Max(1, c.successThreshold))
      && (b.state.Closed? ==> b.successCount == 0)
  {
    if h != [] {
      HistoryDetermines(c, h[..|h| - 1]);
    }
  }

  /** A CLOSED breaker opens on a failure exactly when that is the threshold-th failure in a row. */
  lemma OpensOnThreshold(c: Config, h: seq<Event>, now: int)
    requires After(c, h).state.Closed?
    ensures After(c, h + [Failure(now)]).state.Open?
            <==> TrailingFailures(h + [Failure(now)]) == Max(1, c.failureThreshold)
    ensures !After(c, h + [Failure(now)]).state.Open? ==> After(c, h + [Failure(now)]).state.Closed?
  {
    var h' := h + [Failure(now)];
    assert h'[..|h'| - 1] == h;
    HistoryDetermines(c, h);
    HistoryDetermines(c, h');
  }

  /** `entry` is the acquisition that moved the breaker into the HALF_OPEN it is in after h. */
  ghost predicate EntersHalfOpen(c: Config, h: seq<Event>, entry: nat) {
    && entry < |h| && h[entry].Acquire?
    && After(c, h[..entry]).state.Open?
    && forall j | entry < j <= |h| :: After(c, h[..j]).state.HalfOpen?
  }

  function Successes(h: seq<Event>): nat {
    if h == [] then 0 else Successes(h[..|h| - 1]) + if h[|h| - 1].Success? then 1 else 0
  }

  lemma ProbesBelowThreshold(c: Config, h: seq<Event>)
    requires After(c, h).state.HalfOpen?
    ensures After(c, h).successCount < Max(1, c.successThreshold)
  {
  }

  /** While HALF_OPEN there was an entry, no failure or reset since, and fewer successes than the threshold. */
  lemma {:induction false} HalfOpenSinceEntry(c: Config, h: seq<Event>) returns (entry: nat)
    requires After(c, h).state.HalfOpen?
    ensures EntersHalfOpen(c, h, entry)
    ensures forall j | entry < j < |h| :: !h[j].Failure? && !h[j].Reset?
    ensures Successes(h[entry + 1..]) == After(c, h).successCount < Max(1, c.successThreshold)
  {
    ProbesBelowThreshold(c, h);
    var n := |h| - 1;
    var before := h[..n];
    if After(c, before).state.HalfOpen? {
      entry := HalfOpenSinceEntry(c, before);
      assert forall j | 0 <= j <= n :: before[..j] == h[..j];
      assert h[..|h|] == h;
      assert h[entry + 1..][..n - entry - 1] == before[entry + 1..];
    } else {
      entry := n;
      assert h[..n + 1] == h;
      assert h[n + 1..] == [];
    }
  }

  /** Recovery: HALF_OPEN turns CLOSED on exactly a reset or the successThreshold-th success since entry. */
  lemma {:induction false} ClosesAfterProbes(c: Config, h: seq<Event>, e: Event) returns (entry: nat)
    requires After(c, h).state.HalfOpen?
    ensures EntersHalfOpen(c, h, entry)
    ensures forall j | entry < j < |h| :: !h[j].Failure? && !h[j].Reset?
    ensures After(c, h + [e]).state.Closed?
            <==> e.Reset? || (e.Success? && Successes(h[entry + 1..]) + 1 == Max(1, c.successThreshold))
  {
    entry := HalfOpenSinceEntry(c, h);
    assert (h + [e])[..|h|] == h;
  }

  // ---------------------------------------------------------------- fail fast

  /** The clock never goes back; outcomes carry no time of their own but a failure's. */
  ghost predicate Ordered(h: seq<Event>) {
    forall i, j | 0 <= i < j < |h| && Timed(h[i]) && Timed(h[j]) :: h[i].now <= h[j].now
  }

  predicate Timed(e: Event) { e.Acquire? || e.Failure? }

  /** An acquisition is refused exactly while OPEN and less than the cooldown after the latest failure. */
  lemma RefusedExactly(c: Config, h: seq<Event>, now: int)
    ensures !Admits(c, After(c, h), now) <==> StateBy(c, h).Open? && now - LatestFailure(h) < c.resetTimeoutMs
  {
    HistoryDetermines(c, h);
  }

  /**
   * Fail-fast: once the failure at position i leaves the breaker OPEN, an acquisition less than the
   * cooldown later is refused, whatever outcomes arrive in between, unless a reset does.
   */
  lemma {:induction false} FailsFast(c: Config, h: seq<Event>, i: nat, now: int)
    requires i < |h| && h[i].Failure? && After(c, h[..i + 1]).state.Open?
    requires Ordered(h) && forall j | 0 <= j < |h| && Timed(h[j]) :: h[j].now <= now
    requires now < h[i].now + c.resetTimeoutMs
    requires forall j | i < j < |h| :: !h[j].Reset?
    ensures After(c, h).state.Open? && !Admits(c, After(c, h), now)
    ensures h[i].now <= After(c, h).lastFailureTime
  {
    if |h| == i + 1 {
      assert h[..i + 1] == h;
    } else {
      var before, e := h[..|h| - 1], h[|h| - 1];
      assert before[..i + 1] == h[..i + 1];
      FailsFast(c, before, i, now);
      assert Timed(e) ==> e.now <= now;
    }
  }

  // ---------------------------------------------------------------- events

  ghost predicate Path(changes: seq<Change>, from: CircuitState, to: CircuitState) {
    if changes == [] then from == to
    else changes[|changes| - 1].to == to && Path(changes[..|changes| - 1], from, changes[|changes| - 1].from)
  }

  /** The changes that can be reported. CLOSED to HALF_OPEN is not one; OPEN to OPEN is. */
  predicate Possible(ch: Change) {
    || ch == Change(Closed, Open)
    || (ch.from == Open)
    || (ch.from == HalfOpen && ch.to != HalfOpen)
  }

  /** The gauge exported for the latest state change; absent until the first. */
  function Gauge(changes: seq<Change>): Option<int> {
    if changes == [] then None else Some(Code(changes[|changes| - 1].to))
  }

  function Code(s: CircuitState): int {
    match s case Closed => 0 case Open => 1 case HalfOpen => 2
  }

  /** The reported changes form one path from CLOSED to the current state, over possible edges only. */
  lemma {:induction false} ChangesFormPath(c: Config, h: seq<Event>)
    ensures Path(After(c, h).changes, Closed, After(c, h).state)
    ensures forall ch | ch in After(c, h).changes :: Possible(ch)
  {
    if h != [] {
      ChangesFormPath(c, h[..|h| - 1]);
      var b, b' := After(c, h[..|h| - 1]), After(c, h);
      if b'.changes != b.changes {
        var n := |b.changes|;
        assert b'.changes[..n] == b.changes && b'.changes[n] == Change(b.state, b'.state);
      }
    }
  }

  /** The exported gauge code is that of the current state from the first change on; before it the state is CLOSED. */
  lemma GaugeTracksState(c: Config, h: seq<Event>)
    ensures Gauge(After(c, h).changes) == Some(Code(After(c, h).state))
            || (Gauge(After(c, h).changes) == None && After(c, h).state.Closed?)
  {
  }

  /**
   * An OPEN to OPEN change is reported exactly when a failure arrives while OPEN and, with those since the
   * count was last cleared, makes the threshold. So a late success puts it off by a whole threshold.
   */
  lemma ReopensWhileOpen(c: Config, h: seq<Event>, e: Event)
    requires StateBy(c, h).Open?
    ensures After(c, h + [e]).changes == After(c, h).changes + [Change(Open, Open)]
            <==> e.Failure? && c.failureThreshold <= FailuresSinceCleared(c, h) + 1
    ensures After(c, h + [Success]).state.Open? && FailuresSinceCleared(c, h + [Success]) == 0
  {
    HistoryDetermines(c, h);
    HistoryDetermines(c, h + [Success]);
    assert (h + [e])[..|h|] == h && (h + [Success])[..|h|] == h;
    var changes, one := After(c, h).changes, [Change(Open, Open)];
    if After(c, h + [e]).changes == changes + one {
      assert (changes + one)[|changes|] == Change(Open, Open);
    }
  }

  /** HALF_OPEN is no single-request probe: any number of acquisitions in a row is admitted. */
  lemma {:induction false} HalfOpenAdmitsAnyNumber(c: Config, h: seq<Event>, times: seq<int>)
    requires After(c, h).state.HalfOpen?
    ensures After(c, h + Acquires(times)) == After(c, h)
    ensures forall now :: Admits(c, After(c, h + Acquires(times)), now)
  {
    if times != [] {
      var n := |times| - 1;
      HalfOpenAdmitsAnyNumber(c, h, times[..n]);
      assert (h + Acquires(times))[..|h| + n] == h + Acquires(times[..n]);
    } else {
      assert h + Acquires(times) == h;
    }
  }

  function Acquires(times: seq<int>): seq<Event> {
    seq(|times|, i requires 0 <= i < |times| => Acquire(times[i]))
  }
}
