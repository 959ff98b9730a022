/**
 * Any number of calls, on any number of containers, interleaving single Redis commands on one
 * throttle key. A container that stops is a call that takes no further step.
 */
module ThrottlerRuns {
  import opened Prelude
  import opened Redis
  import opened Throttler
  import opened Windows

  /** A call in flight or finished. `life` and `incrAt` record which lifetime of the hits key its INCR hit, and when. */
  datatype Call = Call(phase: Phase, counted: bool, hits: int, life: nat, incrAt: int)

  /** `starts[i]` is the instant of the INCR that created the i-th lifetime of the hits key. */
  datatype System = System(now: int, keys: Keys, calls: map<nat, Call>, starts: seq<int>)

  datatype Event = Tick(ms: nat) | Arrive(id: nat) | Command(id: nat)

  function Start(now: int): System {
    System(now, Keys(None, None), map[], [])
  }

  function Step(s: System, p: Params, e: Event): System {
    match e
    case Tick(ms) => s.(now := s.now + ms)
    case Arrive(id) =>
      if id in s.calls then s else s.(calls := s.calls[id := Call(CheckBlock, false, 0, 0, 0)])
    case Command(id) =>
      if id !in s.calls then s
      else
        var call := s.calls[id];
        var next := Advance(call.phase, s.keys, p, s.now);
        var starts := if call.phase.IncrHits? && !Live(s.keys.hits, s.now) then s.starts + [s.now] else s.starts;
        var call' :=
          if call.phase.IncrHits? then
            Call(next.0, true, next.1.hits.value.count, if |starts| > 0 then |starts| - 1 else 0, s.now)
          else call.(phase := next.0);
        System(s.now, next.1, s.calls[id := call'], starts)
  }

  function Run(now: int, p: Params, events: seq<Event>): System {
    if events == [] then Start(now)
    else Step(Run(now, p, events[..|events| - 1]), p, events[|events| - 1])
  }

  /** The call returned isBlocked = false. */
  predicate Admitted(c: Call) {
    c.phase.Done? && !c.phase.record.isBlocked
  }

  /** The calls admitted so far, with the time of their INCR, the lifetime it hit and the count it returned. */
  function AdmissionLog(s: System): map<nat, Admission> {
    map id | id in s.calls && Admitted(s.calls[id]) :: Admission(s.calls[id].incrAt, s.calls[id].life, s.calls[id].hits)
  }

  // ---------------------------------------------------------------- invariant

  /** What a call knows of itself at each phase. */
  ghost predicate CallConsistent(c: Call, p: Params) {
    match c.phase
    case CheckBlock => !c.counted
    case IncrHits => !c.counted
    case ExpireHits(h) => c.counted && c.hits == h == 1
    case ReadTtl(h) => c.counted && c.hits == h
    case SetBlock(h, _) => c.counted && c.hits == h && p.limit < h && 0 < p.blockDuration
    case Done(r) =>
      if c.counted then r.totalHits == c.hits && r.isBlocked == (p.limit < c.hits && 0 < p.blockDuration)
      else r.isBlocked && r.totalHits == p.limit + 1
  }

  /** Every counted call has a number of its own in its lifetime, at most the counter while the key exists. */
  ghost predicate Numbered(s: System) {
    && (forall id | id in s.calls && s.calls[id].counted :: s.calls[id].life < |s.starts| && 1 <= s.calls[id].hits)
    && (forall i, j | i in s.calls && j in s.calls && i != j && s.calls[i].counted && s.calls[j].counted
                      && s.calls[i].life == s.calls[j].life ::
          s.calls[i].hits != s.calls[j].hits)
    && (s.keys.hits.Some? ==> 0 < |s.starts| && 1 <= s.keys.hits.value.count)
    && (s.keys.hits.Some? ==> forall id | id in s.calls && s.calls[id].counted && s.calls[id].life == |s.starts| - 1 ::
          s.calls[id].hits <= s.keys.hits.value.count)
  }

  /** While the EXPIRE of a lifetime's creator is still to come the key has no expiry, so that lifetime lasts. */
  ghost predicate CreatorPending(s: System) {
    forall id | id in s.calls && s.calls[id].phase.ExpireHits? ::
      && s.keys.hits.Some? && s.keys.hits.value.expiry.None?
      && s.calls[id].counted && s.calls[id].hits == 1 && s.calls[id].life == |s.starts| - 1
  }

  ghost predicate Inv(s: System, p: Params) {
    && (forall id | id in s.calls :: CallConsistent(s.calls[id], p))
    && Numbered(s)
    && CreatorPending(s)
  }

  /** How long a window lasts, in milliseconds: `ttl` rounded up to whole seconds. */
  function Width(p: Params): int {
    1000 * CeilSeconds(p.ttl)
  }

  /** The lifetimes start at least `width` apart, and the current one has as much to go. */
  ghost predicate StartsSpaced(s: System, width: int) {
    && (forall w | 0 <= w < |s.starts| :: s.starts[w] <= s.now)
    && (forall v, w | 0 <= v < w < |s.starts| && w == v + 1 :: s.starts[v] + width <= s.starts[w])
    && (0 < |s.starts| ==> s.keys.hits.Some?)
    && (0 < |s.starts| && s.keys.hits.value.expiry.Some? ==>
          s.starts[|s.starts| - 1] + width <= s.keys.hits.value.expiry.value)
  }

  /** Every counted call counted within its lifetime. */
  ghost predicate CountedInLife(s: System) {
    && (forall id | id in s.calls && s.calls[id].counted && s.calls[id].life < |s.starts| ::
          s.starts[s.calls[id].life] <= s.calls[id].incrAt <= s.now)
    && (forall id | id in s.calls && s.calls[id].counted && s.calls[id].life + 1 < |s.starts| ::
          s.calls[id].incrAt <= s.starts[s.calls[id].life + 1])
  }

  lemma StepKeepsConsistent(s: System, p: Params, e: Event, id: nat)
    requires Inv(s, p) && id in Step(s, p, e).calls
    ensures CallConsistent(Step(s, p, e).calls[id], p)
  {
  }

  lemma StepKeepsNumbered(s: System, p: Params, e: Event)
    requires Inv(s, p)
    ensures Numbered(Step(s, p, e))
  {
    if e.Command? && e.id in s.calls {
      if s.calls[e.id].phase.IncrHits? {
        IncrKeepsNumbered(s, p, e.id);
      } else {
        OtherKeepsNumbered(s, p, e.id);
      }
    }
  }

  lemma IncrKeepsNumbered(s: System, p: Params, id: nat)
    requires Inv(s, p) && id in s.calls && s.calls[id].phase.IncrHits?
    ensures Numbered(Step(s, p, Command(id)))
  {
    var s' := Step(s, p, Command(id));
    var c' := s'.calls[id];
    assert s'.calls == s.calls[id := c'];
    assert c'.life == |s'.starts| - 1 && c'.hits == s'.keys.hits.value.count;
    if Live(s.keys.hits, s.now) {
      assert s'.starts == s.starts && c'.hits == s.keys.hits.value.count + 1;
    } else {
      assert |s'.starts| == |s.starts| + 1 && c'.hits == 1;
    }
  }

  lemma OtherKeepsNumbered(s: System, p: Params, id: nat)
    requires Inv(s, p) && id in s.calls && !s.calls[id].phase.IncrHits?
    ensures Numbered(Step(s, p, Command(id)))
  {
  }

  lemma StepKeepsCreatorPending(s: System, p: Params, e: Event)
    requires Inv(s, p)
    ensures CreatorPending(Step(s, p, e))
  {
  }

  lemma {:induction false} StepKeepsInv(s: System, p: Params, e: Event)
    requires Inv(s, p)
    ensures Inv(Step(s, p, e), p)
  {
    forall id | id in Step(s, p, e).calls ensures CallConsistent(Step(s, p, e).calls[id], p) {
      StepKeepsConsistent(s, p, e, id);
    }
    StepKeepsNumbered(s, p, e);
    StepKeepsCreatorPending(s, p, e);
  }

  lemma StepKeepsSpaced(s: System, p: Params, e: Event, width: int)
    requires 0 < p.ttl && width == Width(p) && Inv(s, p) && StartsSpaced(s, width)
    ensures StartsSpaced(Step(s, p, e), width)
  {
    if e.Command? && e.id in s.calls {
      var s' := Step(s, p, e);
      match s.calls[e.id].phase {
        case IncrHits => assert s'.starts == if Live(s.keys.hits, s.now) then s.starts else s.starts + [s.now];
        case ExpireHits(_) =>
          assert s'.starts == s.starts;
          assert s'.keys.hits.value.expiry == Some(s.now + width);
        case _ =>
          assert s'.starts == s.starts;
          assert s'.keys.hits == s.keys.hits;
      }
    }
  }

  lemma StepKeepsCountedInLife(s: System, p: Params, e: Event)
    requires Inv(s, p) && CountedInLife(s) && (forall w | 0 <= w < |s.starts| :: s.starts[w] <= s.now)
    ensures CountedInLife(Step(s, p, e))
  {
    if e.Command? && e.id in s.calls {
      if s.calls[e.id].phase.IncrHits? {
        IncrKeepsCountedInLife(s, p, e.id);
      } else {
        OtherKeepsCountedInLife(s, p, e.id);
      }
    }
  }

  lemma IncrKeepsCountedInLife(s: System, p: Params, id: nat)
    requires Inv(s, p) && CountedInLife(s) && (forall w | 0 <= w < |s.starts| :: s.starts[w] <= s.now)
    requires id in s.calls && s.calls[id].phase.IncrHits?
    ensures CountedInLife(Step(s, p, Command(id)))
  {
    var s' := Step(s, p, Command(id));
    var c' := s'.calls[id];
    assert s'.now == s.now && s'.calls == s.calls[id := c'];
    assert c'.life == |s'.starts| - 1 && c'.incrAt == s.now;
    assert s'.starts == if Live(s.keys.hits, s.now) then s.starts else s.starts + [s.now];
  }

  lemma OtherKeepsCountedInLife(s: System, p: Params, id: nat)
    requires CountedInLife(s) && id in s.calls && !s.calls[id].phase.IncrHits?
    ensures CountedInLife(Step(s, p, Command(id)))
  {
  }

  lemma {:induction false} RunKeepsInv(now: int, p: Params, events: seq<Event>)
    ensures Inv(Run(now, p, events), p)
  {
    if events != [] {
      var before := events[..|events| - 1];
      RunKeepsInv(now, p, before);
      StepKeepsInv(Run(now, p, before), p, events[|events| - 1]);
    }
  }

  lemma {:induction false} RunKeepsTimes(now: int, p: Params, events: seq<Event>)
    requires 0 < p.ttl
    ensures StartsSpaced(Run(now, p, events), Width(p)) && CountedInLife(Run(now, p, events))
  {
    if events != [] {
      var before, e := events[..|events| - 1], events[|events| - 1];
      RunKeepsTimes(now, p, before);
      RunKeepsInv(now, p, before);
      StepKeepsSpaced(Run(now, p, before), p, e, Width(p));
      StepKeepsCountedInLife(Run(now, p, before), p, e);
    }
  }

  // ---------------------------------------------------------------- theorems

  lemma LogIsGrouped(s: System, p: Params)
    requires Inv(s, p) && 0 < p.blockDuration
    ensures Grouped(AdmissionLog(s), s.starts, Max(0, p.limit))
  {
  }

  /** At most `limit` calls are admitted in one lifetime of the hits key, in every interleaving. */
  lemma AdmittedPerLifetime(now: int, p: Params, events: seq<Event>, life: nat)
    requires 0 < p.blockDuration
    ensures |InWindow(AdmissionLog(Run(now, p, events)), life)| <= Max(0, p.limit)
  {
    var s := Run(now, p, events);
    RunKeepsInv(now, p, events);
    LogIsGrouped(s, p);
    QuotaPerWindow(AdmissionLog(s), s.starts, Max(0, p.limit), life);
  }

  /**
   * A finished call was admitted exactly when it counted and its number in its lifetime is within the
   * limit, or blocking is off.
   */
  lemma AdmittedExactlyWithinLimit(now: int, p: Params, events: seq<Event>, id: nat)
    requires id in Run(now, p, events).calls && Run(now, p, events).calls[id].phase.Done?
    ensures var c := Run(now, p, events).calls[id];
            Admitted(c) <==> c.counted && (c.hits <= p.limit || p.blockDuration <= 0)
  {
    RunKeepsInv(now, p, events);
  }

  lemma LogIsSpaced(s: System, p: Params, width: int)
    requires Inv(s, p) && 0 < p.blockDuration && StartsSpaced(s, width) && CountedInLife(s)
    ensures Spaced(AdmissionLog(s), s.starts, width)
  {
    var log := AdmissionLog(s);
    forall id | id in log
      ensures s.calls[id].counted && log[id].window == s.calls[id].life && log[id].time == s.calls[id].incrAt
    {
      assert CallConsistent(s.calls[id], p);
    }
  }

  lemma {:induction false} BoundFromInv(s: System, p: Params, width: int, from: int, k: nat)
    requires Inv(s, p) && 0 < p.blockDuration && 0 < width && StartsSpaced(s, width) && CountedInLife(s)
    ensures |InInterval(AdmissionLog(s), from, from + k * width)| <= (k + 1) * Max(0, p.limit)
  {
    LogIsGrouped(s, p);
    LogIsSpaced(s, p, width);
    IntervalBound(AdmissionLog(s), s.starts, width, Max(0, p.limit), from, k);
  }

  /** The fixed-window bound over the shared keys, for every interleaving and every interval of k windows. */
  lemma AdmittedPerInterval(now: int, p: Params, events: seq<Event>, width: int, from: int, k: nat)
    requires 0 < p.blockDuration && 0 < p.ttl && width == Width(p)
    ensures |InInterval(AdmissionLog(Run(now, p, events)), from, from + k * width)| <= (k + 1) * Max(0, p.limit)
  {
    var s := Run(now, p, events);
    assert Inv(s, p) by {
      RunKeepsInv(now, p, events);
    }
    assert StartsSpaced(s, Width(p)) && CountedInLife(s) by {
      RunKeepsTimes(now, p, events);
    }
    BoundFromInv(s, p, width, from, k);
  }

  // ---------------------------------------------------------------- a call that runs alone

  function Repeat(id: nat, n: nat): seq<Event> {
    seq(n, _ => Command(id))
  }

  function StepAll(s: System, p: Params, events: seq<Event>): System
    decreases |events|
  {
    if events == [] then s else StepAll(Step(s, p, events[0]), p, events[1..])
  }

  /** Uninterrupted commands of one call leave its keys and its reply as RunAlone says. */
  lemma {:induction false} UninterruptedCall(s: System, p: Params, id: nat, n: nat)
    requires id in s.calls && s.calls[id].phase.CommandsLeft() <= n
    ensures var s' := StepAll(s, p, Repeat(id, n)); var alone := RunAlone(s.calls[id].phase, s.keys, p, s.now);
            && s'.keys == alone.1
            && id in s'.calls && s'.calls[id].phase == Done(alone.0)
    decreases n
  {
    if n > 0 {
      assert Repeat(id, n)[1..] == Repeat(id, n - 1);
      UninterruptedCall(Step(s, p, Command(id)), p, id, n - 1);
    }
  }

  // ---------------------------------------------------------------- what a block holds off

  /** The call has not yet been told that there is no block. */
  predicate NotPastCheck(s: System, id: nat) {
    id in s.calls ==> s.calls[id].phase.CheckBlock?
  }

  /** The block key lasts to `end` at least. */
  predicate BlockedTo(s: System, end: int) {
    s.keys.block.Some? && s.keys.block.value.expiry.Some? && end <= s.keys.block.value.expiry.value
  }

  /** The call is not past its check, or was refused by it. */
  predicate HeldOff(s: System, id: nat) {
    id in s.calls ==>
      || s.calls[id].phase.CheckBlock?
      || (s.calls[id].phase.Done? && s.calls[id].phase.record.isBlocked)
  }

  lemma StepKeepsBlocked(s: System, p: Params, e: Event, end: int)
    requires BlockedTo(s, end) && end <= s.now + 1000 * CeilSeconds(p.blockDuration)
    ensures BlockedTo(Step(s, p, e), end)
  {
  }

  lemma StepHoldsOff(s: System, p: Params, e: Event, id: nat, end: int)
    requires BlockedTo(s, end) && HeldOff(s, id) && s.now <= end - 500
    ensures HeldOff(Step(s, p, e), id)
  {
  }

  lemma {:induction false} TimeAdvances(s: System, p: Params, events: seq<Event>)
    ensures s.now <= StepAll(s, p, events).now
    decreases |events|
  {
    if events != [] {
      TimeAdvances(Step(s, p, events[0]), p, events[1..]);
    }
  }

  /**
   * What a block holds off: after a SETEX at time t, a call that was not past its check by then is not
   * admitted within the block, up to the half second that TTL rounds away. So a call admitted meanwhile
   * was past its check when the block was set.
   */
  lemma {:induction false} BlockHoldsOff(s: System, p: Params, setter: nat, events: seq<Event>, id: nat)
    requires setter in s.calls && s.calls[setter].phase.SetBlock? && id != setter && NotPastCheck(s, id)
    requires StepAll(s, p, [Command(setter)] + events).now <= s.now + 1000 * CeilSeconds(p.blockDuration) - 500
    ensures HeldOff(StepAll(s, p, [Command(setter)] + events), id)
  {
    var s1 := Step(s, p, Command(setter));
    assert ([Command(setter)] + events)[1..] == events;
    StaysHeldOff(s1, p, events, id, s.now + 1000 * CeilSeconds(p.blockDuration));
  }

  lemma {:induction false} StaysHeldOff(s: System, p: Params, events: seq<Event>, id: nat, end: int)
    requires BlockedTo(s, end) && end <= s.now + 1000 * CeilSeconds(p.blockDuration) && HeldOff(s, id)
    requires StepAll(s, p, events).now <= end - 500
    ensures HeldOff(StepAll(s, p, events), id)
    decreases |events|
  {
    if events != [] {
      TimeAdvances(s, p, events);
      StepKeepsBlocked(s, p, events[0], end);
      StepHoldsOff(s, p, events[0], id, end);
      StaysHeldOff(Step(s, p, events[0]), p, events[1..], id, end);
    }
  }

  /** A call past its check that runs alone: it is admitted by its number, or else sets a block. */
  lemma AloneFromIncr(k: Keys, p: Params, now: int)
    ensures var count := Incr(k.hits, now).count; var alone := RunAlone(IncrHits, k, p, now);
      && (!alone.0.isBlocked <==> count <= p.limit || p.blockDuration <= 0)
      && alone.1.block ==
           if alone.0.isBlocked then Some(Cell(1, Some(now + 1000 * CeilSeconds(p.blockDuration)))) else k.block
  {
    var next := Advance(IncrHits, k, p, now);
    var (counted, k1) := next;
    var (reading, k2) := if counted.ExpireHits? then Advance(counted, k1, p, now) else next;
    assert RunAlone(IncrHits, k, p, now) == RunAlone(counted, k1, p, now) == RunAlone(reading, k2, p, now);
    var (last, k3) := Advance(reading, k2, p, now);
    assert RunAlone(reading, k2, p, now) == RunAlone(last, k3, p, now);
    assert reading == ReadTtl(Incr(k.hits, now).count);
    if last.SetBlock? {
      var (done, k4) := Advance(last, k3, p, now);
      assert RunAlone(last, k3, p, now) == RunAlone(done, k4, p, now) == (done.record, k4);
    }
  }

  /**
   * A call that is past its check is not held off: left alone it is admitted, block or no block, exactly
   * when its number in the lifetime it counts in is within the limit, or blocking is off; else it sets a block.
   */
  lemma PastCheckIgnoresBlock(s: System, p: Params, id: nat)
    requires id in s.calls && s.calls[id].phase.IncrHits?
    ensures var s' := StepAll(s, p, Repeat(id, 4));
      && id in s'.calls && s'.calls[id].phase.Done?
      && (Admitted(s'.calls[id]) <==> Incr(s.keys.hits, s.now).count <= p.limit || p.blockDuration <= 0)
      && s'.keys.block ==
           if Admitted(s'.calls[id]) then s.keys.block
           else Some(Cell(1, Some(s.now + 1000 * CeilSeconds(p.blockDuration))))
  {
    UninterruptedCall(s, p, id, 4);
    AloneFromIncr(s.keys, p, s.now);
  }
}
