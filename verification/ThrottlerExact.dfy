/**
 * When blocks and windows begin and end, to the millisecond and in every interleaving: the Redis keys
 * told from the commands that have been executed.
 */
module ThrottlerExact {
  import opened Prelude
  import opened Redis
  import opened Throttler
  import opened Windows
  import opened ThrottlerRuns

  lemma LastStep(now: int, p: Params, events: seq<Event>, e: Event)
    ensures Run(now, p, events + [e]) == Step(Run(now, p, events), p, e)
  {
    assert (events + [e])[..|events|] == events;
  }

  // ---------------------------------------------------------------- blocks

  /** How long a block lasts, in milliseconds: `blockDuration` rounded up to whole seconds. */
  function BlockWidth(p: Params): int {
    1000 * CeilSeconds(p.blockDuration)
  }

  /** The event executes a SETEX. */
  predicate SetsBlock(s: System, e: Event) {
    e.Command? && e.id in s.calls && s.calls[e.id].phase.SetBlock?
  }

  /** When the block key was last set. */
  function LatestSetex(now: int, p: Params, events: seq<Event>): Option<int> {
    if events == [] then None
    else
      var before, e := events[..|events| - 1], events[|events| - 1];
      if SetsBlock(Run(now, p, before), e) then Some(Run(now, p, before).now) else LatestSetex(now, p, before)
  }

  lemma BlockStep(s: System, p: Params, e: Event)
    ensures Step(s, p, e).keys.block ==
      if SetsBlock(s, e) then Some(Cell(1, Some(s.now + BlockWidth(p)))) else s.keys.block
  {
  }

  /** The block key is that of the latest SETEX. */
  lemma {:induction false} BlockKeyIs(now: int, p: Params, events: seq<Event>)
    ensures Run(now, p, events).keys.block ==
      match LatestSetex(now, p, events) case None => None case Some(t) => Some(Cell(1, Some(t + BlockWidth(p))))
  {
    if events != [] {
      BlockKeyIs(now, p, events[..|events| - 1]);
      BlockStep(Run(now, p, events[..|events| - 1]), p, events[|events| - 1]);
    }
  }

  /**
   * The check refuses a call exactly when the block key expires half a second ahead or more; it then replies
   * with the rest of the block to the nearest second. Otherwise the call goes on, and neither touches a key.
   */
  lemma CheckExactly(k: Keys, p: Params, now: int)
    ensures var (ph, k') := Advance(CheckBlock, k, p, now);
      && k' == k
      && (ph.Done? <==> k.block.Some? && k.block.value.expiry.Some? && now + 500 <= k.block.value.expiry.value)
      && (!ph.Done? ==> ph == IncrHits)
      && (ph.Done? ==>
            && ph.record.isBlocked && ph.record.totalHits == p.limit + 1
            && ph.record.timeToExpire == ph.record.timeToBlockExpire
            && ph.record.timeToExpire % 1000 == 0
            && -500 < ph.record.timeToExpire - (k.block.value.expiry.value - now) <= 500)
  {
  }

  /**
   * Refusals over runs: in every interleaving a call is refused at its check exactly when the latest SETEX
   * lies no longer behind than its block less half a second.
   */
  lemma RefusedAtCheckExactly(now: int, p: Params, events: seq<Event>, id: nat)
    requires id in Run(now, p, events).calls && Run(now, p, events).calls[id].phase.CheckBlock?
    ensures var s, s' := Run(now, p, events), Run(now, p, events + [Command(id)]);
      var latest := LatestSetex(now, p, events);
      && id in s'.calls
      && (s'.calls[id].phase.Done? <==> latest.Some? && s.now - latest.value <= BlockWidth(p) - 500)
      && (s'.calls[id].phase.Done? ==> s'.calls[id].phase.record.isBlocked)
      && (!s'.calls[id].phase.Done? ==> s'.calls[id].phase.IncrHits?)
  {
    LastStep(now, p, events, Command(id));
    BlockKeyIs(now, p, events);
    CheckExactly(Run(now, p, events).keys, p, Run(now, p, events).now);
  }

  /** A finished call that was refused by its number has set the block, at or after its INCR. */
  ghost predicate BlockersBlocked(s: System, latest: Option<int>) {
    && (latest.Some? ==> latest.value <= s.now)
    && forall id | id in s.calls && s.calls[id].counted ::
         && s.calls[id].incrAt <= s.now
         && (s.calls[id].phase.Done? && s.calls[id].phase.record.isBlocked ==>
               latest.Some? && s.calls[id].incrAt <= latest.value)
  }

  lemma {:induction false} BlockersStep(s: System, p: Params, e: Event, latest: Option<int>)
    requires Inv(s, p) && BlockersBlocked(s, latest)
    ensures BlockersBlocked(Step(s, p, e), if SetsBlock(s, e) then Some(s.now) else latest)
  {
    if e.Command? && e.id in s.calls {
      var s' := Step(s, p, e);
      assert s'.now == s.now && s'.calls == s.calls[e.id := s'.calls[e.id]];
    }
  }

  /** In every interleaving the call that exceeds the limit sets the block before it replies. */
  lemma {:induction false} OverLimitSetsBlock(now: int, p: Params, events: seq<Event>)
    ensures BlockersBlocked(Run(now, p, events), LatestSetex(now, p, events))
  {
    if events != [] {
      var before := events[..|events| - 1];
      OverLimitSetsBlock(now, p, before);
      RunKeepsInv(now, p, before);
      BlockersStep(Run(now, p, before), p, events[|events| - 1], LatestSetex(now, p, before));
    }
  }

  // ---------------------------------------------------------------- windows

  /** The event executes an INCR, or the EXPIRE that follows the first one. */
  predicate Counts(s: System, e: Event) {
    e.Command? && e.id in s.calls && s.calls[e.id].phase.IncrHits?
  }

  predicate Expires(s: System, e: Event) {
    e.Command? && e.id in s.calls && s.calls[e.id].phase.ExpireHits?
  }

  /** When the EXPIRE of the current lifetime was executed, if it has been. */
  function ExpireOfLife(now: int, p: Params, events: seq<Event>): Option<int> {
    if events == [] then None
    else
      var before, e := events[..|events| - 1], events[|events| - 1];
      var s := Run(now, p, before);
      if Counts(s, e) && |s.starts| < |Step(s, p, e).starts| then None
      else if Expires(s, e) then Some(s.now)
      else ExpireOfLife(now, p, before)
  }

  /** The hits key, given when its lifetime's EXPIRE was executed. */
  ghost predicate HitsKeyFrom(s: System, p: Params, sent: Option<int>) {
    && (s.starts == [] ==> s.keys.hits.None? && sent.None?)
    && (sent.Some? ==> sent.value <= s.now)
    && (s.starts != [] && sent.None? ==> s.keys.hits.Some? && s.keys.hits.value.expiry.None?)
    && (sent.Some? ==>
          if 0 < Width(p) then s.keys.hits.Some? && s.keys.hits.value.expiry == Some(sent.value + Width(p))
          else s.keys.hits.None?)
  }

  lemma {:induction false} HitsKeyStep(s: System, p: Params, e: Event, sent: Option<int>)
    requires Inv(s, p) && HitsKeyFrom(s, p, sent)
    ensures var s' := Step(s, p, e);
      HitsKeyFrom(s', p,
        if Counts(s, e) && |s.starts| < |s'.starts| then None else if Expires(s, e) then Some(s.now) else sent)
  {
    if e.Command? && e.id in s.calls {
      var s' := Step(s, p, e);
      match s.calls[e.id].phase {
        case IncrHits => assert s'.starts == if Live(s.keys.hits, s.now) then s.starts else s.starts + [s.now];
        case ExpireHits(_) =>
          assert s'.starts == s.starts && s.keys.hits.Some? && s.keys.hits.value.expiry.None?;
        case _ => assert s'.starts == s.starts && s'.keys.hits == s.keys.hits;
      }
    }
  }

  lemma {:induction false} HitsKeyIs(now: int, p: Params, events: seq<Event>)
    ensures HitsKeyFrom(Run(now, p, events), p, ExpireOfLife(now, p, events))
  {
    if events != [] {
      var before := events[..|events| - 1];
      HitsKeyIs(now, p, before);
      RunKeepsInv(now, p, before);
      HitsKeyStep(Run(now, p, before), p, events[|events| - 1], ExpireOfLife(now, p, before));
    }
  }

  /** The calls that counted in one lifetime of the hits key. */
  function CountedIn(s: System, life: nat): set<nat> {
    set id | id in s.calls && s.calls[id].counted && s.calls[id].life == life
  }

  /**
   * Windows over runs: an INCR opens a new lifetime exactly when there was none or its EXPIRE lies a whole
   * window behind; otherwise it takes the next number of the current one.
   */
  lemma {:induction false} OpensWindowExactly(now: int, p: Params, events: seq<Event>, id: nat)
    requires id in Run(now, p, events).calls && Run(now, p, events).calls[id].phase.IncrHits?
    ensures var s, s' := Run(now, p, events), Run(now, p, events + [Command(id)]);
      var sent := ExpireOfLife(now, p, events);
      && id in s'.calls && s'.calls[id].counted && s'.calls[id].incrAt == s.now
      && if s.starts == [] || (sent.Some? && sent.value + Width(p) <= s.now) then
           s'.starts == s.starts + [s.now] && s'.calls[id].life == |s.starts| && s'.calls[id].hits == 1
         else
           && s'.starts == s.starts && s'.calls[id].life == |s.starts| - 1
           && s'.calls[id].hits == |CountedIn(s, |s.starts| - 1)| + 1
  {
    LastStep(now, p, events, Command(id));
    HitsKeyIs(now, p, events);
    NumbersAreTight(now, p, events);
  }

  // ---------------------------------------------------------------- numbers

  /** The counter is the number of calls that counted in its lifetime, and no number exceeds that. */
  ghost predicate Tight(s: System) {
    && (s.keys.hits.Some? && s.starts != [] ==> s.keys.hits.value.count == |CountedIn(s, |s.starts| - 1)|)
    && forall id | id in s.calls && s.calls[id].counted :: s.calls[id].hits <= |CountedIn(s, s.calls[id].life)|
  }

  lemma IncrReads(s: System, p: Params, id: nat)
    requires s.keys.hits.Some? ==> s.starts != []
    requires id in s.calls && s.calls[id].phase.IncrHits?
    ensures var s' := Step(s, p, Command(id));
      && id in s'.calls && s'.calls == s.calls[id := s'.calls[id]] && s'.keys.hits.Some?
      && s'.starts != [] && s'.calls[id].counted && s'.calls[id].life == |s'.starts| - 1
      && s'.calls[id].hits == s'.keys.hits.value.count
      && if Live(s.keys.hits, s.now) then s'.starts == s.starts && s'.calls[id].hits == s.keys.hits.value.count + 1
         else s'.starts == s.starts + [s.now] && s'.calls[id].hits == 1
  {
  }

  /** An INCR adds its call to the last lifetime and leaves the others. */
  lemma CountedAfterIncr(s: System, p: Params, id: nat, life: nat)
    requires Inv(s, p) && id in s.calls && s.calls[id].phase.IncrHits?
    ensures var s' := Step(s, p, Command(id));
      && id !in CountedIn(s, life)
      && CountedIn(s', life) == CountedIn(s, life) + (if life == |s'.starts| - 1 then {id} else {})
      && (life == |s.starts| ==> CountedIn(s, life) == {})
  {
    IncrReads(s, p, id);
    assert CallConsistent(s.calls[id], p);
  }

  /** The call takes the next number of its lifetime, and so does the counter. */
  lemma NextNumber(s: System, p: Params, id: nat)
    requires Inv(s, p) && Tight(s) && id in s.calls && s.calls[id].phase.IncrHits?
    ensures var s' := Step(s, p, Command(id));
      && id in s'.calls && s'.starts != [] && s'.keys.hits.Some?
      && s'.calls[id].hits == s'.keys.hits.value.count == |CountedIn(s, |s'.starts| - 1)| + 1
      && |CountedIn(s', |s'.starts| - 1)| == |CountedIn(s, |s'.starts| - 1)| + 1
  {
    IncrReads(s, p, id);
    CountedAfterIncr(s, p, id, |Step(s, p, Command(id)).starts| - 1);
  }

  lemma OthersStayTight(s: System, p: Params, id: nat, j: nat)
    requires Inv(s, p) && Tight(s) && id in s.calls && s.calls[id].phase.IncrHits?
    requires j != id && j in s.calls && s.calls[j].counted
    ensures var s' := Step(s, p, Command(id));
      j in s'.calls && s'.calls[j] == s.calls[j] && s.calls[j].hits <= |CountedIn(s', s.calls[j].life)|
  {
    IncrReads(s, p, id);
    CountedAfterIncr(s, p, id, s.calls[j].life);
  }

  lemma TightAfterIncr(s: System, p: Params, id: nat)
    requires Inv(s, p) && Tight(s) && id in s.calls && s.calls[id].phase.IncrHits?
    ensures Tight(Step(s, p, Command(id)))
  {
    var s' := Step(s, p, Command(id));
    IncrReads(s, p, id);
    NextNumber(s, p, id);
    forall j | j in s'.calls && s'.calls[j].counted ensures s'.calls[j].hits <= |CountedIn(s', s'.calls[j].life)| {
      if j != id {
        OthersStayTight(s, p, id, j);
      }
    }
  }

  lemma OtherCounts(s: System, p: Params, e: Event, life: nat)
    requires Inv(s, p) && !Counts(s, e)
    ensures CountedIn(Step(s, p, e), life) == CountedIn(s, life)
  {
  }

  lemma OtherKeepsNumbers(s: System, p: Params, e: Event)
    requires !Counts(s, e)
    ensures var s' := Step(s, p, e);
      && s'.starts == s.starts
      && (s'.keys.hits.Some? ==> s.keys.hits.Some? && s'.keys.hits.value.count == s.keys.hits.value.count)
      && forall id | id in s'.calls && s'.calls[id].counted ::
           id in s.calls && s.calls[id].counted && s'.calls[id].hits == s.calls[id].hits
           && s'.calls[id].life == s.calls[id].life
  {
  }

  lemma TightOtherwise(s: System, p: Params, e: Event)
    requires Inv(s, p) && Tight(s) && !Counts(s, e)
    ensures Tight(Step(s, p, e))
  {
    OtherKeepsNumbers(s, p, e);
    forall life: nat ensures CountedIn(Step(s, p, e), life) == CountedIn(s, life) {
      OtherCounts(s, p, e, life);
    }
  }

  /** In every interleaving the calls of a lifetime are numbered without gaps. */
  lemma {:induction false} NumbersAreTight(now: int, p: Params, events: seq<Event>)
    ensures Tight(Run(now, p, events))
  {
    if events != [] {
      var before, e := events[..|events| - 1], events[|events| - 1];
      NumbersAreTight(now, p, before);
      RunKeepsInv(now, p, before);
      if Counts(Run(now, p, before), e) {
        TightAfterIncr(Run(now, p, before), p, e.id);
      } else {
        TightOtherwise(Run(now, p, before), p, e);
      }
    }
  }

  function Min(a: int, b: int): int { if a < b then a else b }

  /** Of n members numbered differently with numbers in 1..n, as many as possible are numbered up to m. */
  lemma LowNumbers(s: set<nat>, number: map<nat, int>, n: nat, m: nat, low: set<nat>)
    requires |s| == n && forall x | x in s :: x in number && 1 <= number[x] <= n
    requires forall x, y | x in s && y in s && number[x] == number[y] :: x == y
    requires low <= s && forall x | x in s :: x in low <==> number[x] <= m
    ensures |low| == Min(m, n)
  {
    NumberedSetBound(low, number, m);
    SubsetSize(low, s);
    if m < n {
      var shifted := map x | x in number :: number[x] - m;
      NumberedSetBound(s - low, shifted, n - m);
      assert s == low + (s - low);
    } else {
      assert low == s;
    }
  }

  /**
   * The quota is used up: with blocking on, once the calls that counted in a lifetime have finished,
   * exactly `limit` of them were admitted, or all if they are fewer.
   */
  lemma {:induction false} QuotaIsUsed(now: int, p: Params, events: seq<Event>, life: nat)
    requires 0 < p.blockDuration
    requires forall id | id in CountedIn(Run(now, p, events), life) :: Run(now, p, events).calls[id].phase.Done?
    ensures var s := Run(now, p, events);
            |InWindow(AdmissionLog(s), life)| == Min(Max(0, p.limit), |CountedIn(s, life)|)
  {
    var s := Run(now, p, events);
    RunKeepsInv(now, p, events);
    NumbersAreTight(now, p, events);
    var counted, low := CountedIn(s, life), InWindow(AdmissionLog(s), life);
    var number := map id | id in s.calls :: s.calls[id].hits;
    forall id | id in s.calls && Admitted(s.calls[id]) ensures s.calls[id].counted {
      assert CallConsistent(s.calls[id], p);
    }
    forall id | id in counted ensures id in low <==> number[id] <= Max(0, p.limit) {
      assert CallConsistent(s.calls[id], p);
    }
    LowNumbers(counted, number, |counted|, Max(0, p.limit), low);
  }

  // ---------------------------------------------------------------- replies

  /** The rest of a key's life, in milliseconds, to the nearest second. */
  ghost predicate Rest(ms: int, c: Option<Cell>, now: int) {
    Live(c, now) && c.value.expiry.Some? ==>
      ms % 1000 == 0 && -500 < ms - (c.value.expiry.value - now) <= 500
  }

  /** What the reply to a counted call says: its number, the rest of its window, and its block if it has one. */
  lemma {:induction false} ReplyTells(k: Keys, p: Params, now: int, hits: int, remaining: int)
    ensures var ph := Advance(ReadTtl(hits), k, p, now).0;
      if hits <= p.limit || p.blockDuration <= 0 then
        && ph.Done? && ph.record == Record(hits, ph.record.timeToExpire, false, 0)
        && Rest(ph.record.timeToExpire, k.hits, now)
      else ph.SetBlock? && ph.hits == hits && Rest(1000 * ph.remaining, k.hits, now)
    ensures var ph := Advance(SetBlock(hits, remaining), k, p, now).0;
      ph == Done(Record(hits, 1000 * remaining, true, p.blockDuration))
  {
  }
}
