/**
 * The in-memory path over whole runs of calls on one key: it keeps the same fixed-window bound,
 * and it answers as Redis does except where it forgets a block.
 */
module ThrottlerFallback {
  import opened Prelude
  import opened Redis
  import opened Throttler
  import opened Windows

  ghost predicate Monotone(times: seq<int>) {
    forall i, j | 0 <= i < j < |times| :: times[i] <= times[j]
  }

  // ---------------------------------------------------------------- fixed-window bound

  /** The entry after a run, the windows it opened and the calls it admitted, numbered by their position. */
  datatype History = History(entry: Option<MemoryEntry>, starts: seq<int>, log: map<nat, Admission>)

  predicate OpensWindow(e: Option<MemoryEntry>, now: int) {
    e.None? || (e.value.expiresAt <= now && e.value.blockedUntil <= now)
  }

  /** The n-th call of a run. */
  function Call(h: History, p: Params, n: nat, now: int): History {
    var next := MemoryStep(h.entry, p, now);
    var starts := if OpensWindow(h.entry, now) then h.starts + [now] else h.starts;
    History(next.1, starts,
      if next.0.isBlocked || |starts| == 0 then h.log
      else h.log[n := Admission(now, |starts| - 1, next.0.totalHits)])
  }

  function Run(p: Params, times: seq<int>): History {
    if times == [] then History(None, [], map[])
    else var n := |times| - 1; Call(Run(p, times[..n]), p, n, times[n])
  }

  /** Everything counted so far is numbered within its window. */
  ghost predicate Numbered(h: History, p: Params, n: nat) {
    && (forall i | i in h.log :: i < n)
    && Grouped(h.log, h.starts, Max(0, p.limit))
    && (h.entry.Some? ==>
          && 0 < |h.starts| && 1 <= h.entry.value.hits
          && forall i | i in h.log && h.log[i].window == |h.starts| - 1 :: h.log[i].ordinal <= h.entry.value.hits)
  }

  /** Windows start `ttl` apart, and the current one has not ended before that. */
  ghost predicate Timed(h: History, p: Params, now: int) {
    && Spaced(h.log, h.starts, p.ttl)
    && (forall i | i in h.log :: h.log[i].time <= now)
    && (forall w | 0 <= w < |h.starts| :: h.starts[w] <= now)
    && (0 < |h.starts| ==> h.starts[|h.starts| - 1] + p.ttl <= if h.entry.Some? then h.entry.value.expiresAt else now)
  }

  lemma CallKeepsNumbered(h: History, p: Params, n: nat, now: int)
    requires 0 < p.blockDuration && Numbered(h, p, n)
    ensures Numbered(Call(h, p, n, now), p, n + 1)
  {
    var h' := Call(h, p, n, now);
    assert forall i | i in h'.log && i != n :: i in h.log && h'.log[i] == h.log[i];
    if OpensWindow(h.entry, now) {
      assert |h'.starts| == |h.starts| + 1;
      assert h'.entry.value.hits == 1;
    } else {
      assert h'.starts == h.starts;
    }
  }

  lemma CallKeepsTimed(h: History, p: Params, n: nat, last: int, now: int)
    requires 0 < p.ttl && last <= now && Numbered(h, p, n) && Timed(h, p, last)
    ensures Timed(Call(h, p, n, now), p, now)
  {
    var ordinal := CallLogs(h, p, n, now);
    WindowLasts(h, p, n, last, now);
    TimedAfter(h, Call(h, p, n, now), p, n, last, now, ordinal);
  }

  /** h' is h with perhaps a window opened and perhaps an admission logged. */
  lemma TimedAfter(h: History, h': History, p: Params, n: nat, last: int, now: int, ordinal: int)
    requires 0 < p.ttl && last <= now && Numbered(h, p, n) && Timed(h, p, last)
    requires h'.starts == h.starts || (OpensWindow(h.entry, now) && h'.starts == h.starts + [now])
    requires h'.starts != [] && (h'.log == h.log || h'.log == h.log[n := Admission(now, |h'.starts| - 1, ordinal)])
    requires h'.starts[|h'.starts| - 1] + p.ttl <= if h'.entry.Some? then h'.entry.value.expiresAt else now
    requires forall w | 0 <= w < |h'.starts| :: h'.starts[w] <= now
    ensures Timed(h', p, now)
  {
    if h'.starts != h.starts {
      WindowKeepsSpaced(h, p, n, last, now);
    }
    AdmissionKeepsSpaced(h.log, h'.log, h'.starts, p.ttl, n, now, ordinal);
  }

  lemma CallLogs(h: History, p: Params, n: nat, now: int) returns (ordinal: int)
    requires Numbered(h, p, n)
    ensures var h' := Call(h, p, n, now);
      && (h'.starts == h.starts || (OpensWindow(h.entry, now) && h'.starts == h.starts + [now]))
      && h'.starts != []
      && (h'.log == h.log || h'.log == h.log[n := Admission(now, |h'.starts| - 1, ordinal)])
  {
    ordinal := MemoryStep(h.entry, p, now).0.totalHits;
  }

  /** The current window has not ended before `ttl` is over. */
  lemma WindowLasts(h: History, p: Params, n: nat, last: int, now: int)
    requires 0 < p.ttl && last <= now && Numbered(h, p, n) && Timed(h, p, last)
    ensures var h' := Call(h, p, n, now);
      && h'.starts[|h'.starts| - 1] + p.ttl <= (if h'.entry.Some? then h'.entry.value.expiresAt else now)
      && forall w | 0 <= w < |h'.starts| :: h'.starts[w] <= now
  {
  }

  lemma WindowKeepsSpaced(h: History, p: Params, n: nat, last: int, now: int)
    requires last <= now && Numbered(h, p, n) && Timed(h, p, last) && OpensWindow(h.entry, now)
    ensures Spaced(h.log, h.starts + [now], p.ttl)
    ensures forall w | 0 <= w <= |h.starts| :: (h.starts + [now])[w] <= now
  {
  }

  lemma AdmissionKeepsSpaced(log: map<nat, Admission>, log': map<nat, Admission>, starts: seq<int>, ttl: int,
                             n: nat, now: int, ordinal: int)
    requires starts != [] && Spaced(log, starts, ttl) && starts[|starts| - 1] <= now
    requires forall i | i in log :: log[i].time <= now
    requires log' == log || log' == log[n := Admission(now, |starts| - 1, ordinal)]
    ensures Spaced(log', starts, ttl) && forall i | i in log' :: log'[i].time <= now
  {
  }

  lemma {:induction false} RunKeepsInv(p: Params, times: seq<int>, now: int)
    requires 0 < p.ttl && 0 < p.blockDuration && Monotone(times)
    requires times != [] ==> times[|times| - 1] <= now
    ensures Numbered(Run(p, times), p, |times|) && Timed(Run(p, times), p, now)
  {
    if times != [] {
      var n := |times| - 1;
      RunKeepsInv(p, times[..n], times[n]);
      CallKeepsNumbered(Run(p, times[..n]), p, n, times[n]);
      CallKeepsTimed(Run(p, times[..n]), p, n, times[n], times[n]);
    }
  }

  /** The fallback admits at most (k + 1) * limit calls in any interval of k windows. */
  lemma AdmittedPerInterval(p: Params, times: seq<int>, from: int, k: nat)
    requires 0 < p.ttl && 0 < p.blockDuration && Monotone(times)
    ensures |InInterval(Run(p, times).log, from, from + k * p.ttl)| <= (k + 1) * Max(0, p.limit)
  {
    var h := Run(p, times);
    RunKeepsInv(p, times, if times == [] then 0 else times[|times| - 1]);
    IntervalBound(h.log, h.starts, p.ttl, Max(0, p.limit), from, k);
  }

  // ---------------------------------------------------------------- the limiter without rounding

  /** How long a key lasts from now. */
  function Left(c: Option<Cell>, now: int): int {
    if c.Some? && c.value.expiry.Some? then c.value.expiry.value - now else 0
  }

  /**
   * The limiter that both paths stand for, on the same two keys but exact to the millisecond: a live block
   * refuses; otherwise the call is counted in a window of `ttl`, and one over the limit sets a block.
   */
  function ExactCall(k: Keys, p: Params, now: int): (Record, Keys) {
    if Live(k.block, now) then
      (Record(p.limit + 1, Left(k.block, now), true, Left(k.block, now)), k)
    else
      var c := if Live(k.hits, now) then k.hits.value.(count := k.hits.value.count + 1) else Cell(1, Some(now + p.ttl));
      var over := p.limit < c.count && 0 < p.blockDuration;
      (Record(c.count, Left(Some(c), now), over, if over then p.blockDuration else 0),
       Keys(Some(c), if over then Some(Cell(1, Some(now + p.blockDuration))) else k.block))
  }

  /** The replies to a run of serial calls. */
  function ExactReplies(k: Keys, p: Params, times: seq<int>): seq<Record>
    decreases |times|
  {
    if times == [] then []
    else var next := ExactCall(k, p, times[0]); [next.0] + ExactReplies(next.1, p, times[1..])
  }

  function RedisReplies(k: Keys, p: Params, times: seq<int>): seq<Record>
    decreases |times|
  {
    if times == [] then []
    else var next := SerialCall(k, p, times[0]); [next.0] + RedisReplies(next.1, p, times[1..])
  }

  function MemoryReplies(e: Option<MemoryEntry>, p: Params, times: seq<int>): seq<Record>
    decreases |times|
  {
    if times == [] then []
    else var next := MemoryStep(e, p, times[0]); [next.0] + MemoryReplies(next.1, p, times[1..])
  }

  /** A call at `now` finds the block key but no hits key: the window is over, its block is not. */
  predicate InGap(k: Keys, now: int) {
    Live(k.block, now) && !Live(k.hits, now)
  }

  /** Two calls in a row find the keys in a gap; `previous` says whether the call before the run did. */
  predicate GapTwice(k: Keys, p: Params, times: seq<int>, previous: bool)
    decreases |times|
  {
    times != [] &&
    ((previous && InGap(k, times[0])) || GapTwice(ExactCall(k, p, times[0]).1, p, times[1..], InGap(k, times[0])))
  }

  // ---------------------------------------------------------------- the fallback, at all times

  /** Both stores hold the same thing at `last`, the time of the latest call; or the keys alone still hold a block. */
  ghost predicate Agree(k: Keys, e: Option<MemoryEntry>, last: int) {
    && (e.Some? ==>
          && k.hits == Some(Cell(e.value.hits, Some(e.value.expiresAt)))
          && 1 <= e.value.hits
          && (|| k.block == Some(Cell(1, Some(e.value.blockedUntil)))
              || (e.value.blockedUntil <= last && !Live(k.block, last))))
    && (e.None? ==> !Live(k.hits, last))
    && (Live(k.block, last) ==> k.block.value.expiry.Some?)
  }

  /** How the last call left things: with an entry, or without one as it fell in a gap or there was none. */
  ghost predicate Linked(k: Keys, e: Option<MemoryEntry>, p: Params, last: int, previous: bool) {
    && Agree(k, e, last)
    && (e.None? && Live(k.block, last) ==> previous && k.block.value.expiry.value - last < p.blockDuration)
    && (previous ==> e.None?)
    && (e.Some? && last < e.value.blockedUntil ==>
          e.value.blockedUntil <= last + p.blockDuration && last < e.value.expiresAt)
  }

  /** One call: the replies agree unless this is a second gap call in a row, and then they differ. */
  lemma OneCallReplies(k: Keys, e: Option<MemoryEntry>, p: Params, last: int, previous: bool, now: int)
    requires 0 < p.ttl && 0 <= last <= now
    requires Linked(k, e, p, last, previous)
    ensures (previous && InGap(k, now)) <==> ExactCall(k, p, now).0 != MemoryStep(e, p, now).0
  {
  }

  lemma CallKeepsLinked(k: Keys, e: Option<MemoryEntry>, p: Params, last: int, previous: bool, now: int)
    requires 0 < p.ttl && 0 <= last <= now
    requires Linked(k, e, p, last, previous) && !(previous && InGap(k, now))
    ensures Linked(ExactCall(k, p, now).1, MemoryStep(e, p, now).1, p, now, InGap(k, now))
  {
  }

  /** From linked stores, the replies of a whole run agree exactly when no two calls in a row fall in a gap. */
  lemma {:induction false} RunsAgree(k: Keys, e: Option<MemoryEntry>, p: Params, last: int, previous: bool,
                                     times: seq<int>)
    decreases |times|
    requires 0 < p.ttl && Monotone(times) && 0 <= last
    requires forall i | 0 <= i < |times| :: last <= times[i]
    requires Linked(k, e, p, last, previous)
    ensures ExactReplies(k, p, times) == MemoryReplies(e, p, times) <==> !GapTwice(k, p, times, previous)
  {
    if times != [] {
      var now, rest := times[0], times[1..];
      var (r, k') := ExactCall(k, p, now);
      var (m, e') := MemoryStep(e, p, now);
      OneCallReplies(k, e, p, last, previous, now);
      var rs, ms := ExactReplies(k', p, rest), MemoryReplies(e', p, rest);
      assert ([r] + rs)[0] == r && ([m] + ms)[0] == m;
      assert ([r] + rs)[1..] == rs && ([m] + ms)[1..] == ms;
      if r == m {
        CallKeepsLinked(k, e, p, last, previous, now);
        RunsAgree(k', e', p, now, InGap(k, now), rest);
      }
    }
  }

  /**
   * The fallback is the exact limiter: over every run of calls, at whatever times and durations, it gives
   * the exact reply to every call if and only if no two calls in a row fall between the end of a window and
   * the end of its block.
   */
  lemma {:induction false} FallbackIsExact(p: Params, times: seq<int>)
    requires 0 < p.ttl && Monotone(times) && forall i | 0 <= i < |times| :: 0 <= times[i]
    ensures ExactReplies(Keys(None, None), p, times) == MemoryReplies(None, p, times)
            <==> !GapTwice(Keys(None, None), p, times, false)
  {
    RunsAgree(Keys(None, None), None, p, 0, false, times);
  }

  // ---------------------------------------------------------------- the Redis path, at whole seconds

  predicate WholeSecond(t: int) { t % 1000 == 0 }

  ghost predicate WholeSeconds(p: Params) {
    0 < p.ttl && WholeSecond(p.ttl) && WholeSecond(p.blockDuration)
  }

  /** Live keys that expire, at a whole second. */
  ghost predicate WholeKeys(k: Keys, now: int) {
    && (Live(k.hits, now) ==>
          k.hits.value.expiry.Some? && WholeSecond(k.hits.value.expiry.value) && 1 <= k.hits.value.count)
    && (Live(k.block, now) ==> k.block.value.expiry.Some? && WholeSecond(k.block.value.expiry.value))
  }

  /** SerialCall is exact at whole seconds. */
  lemma SerialCallIs(k: Keys, p: Params, now: int)
    requires WholeSeconds(p) && WholeSecond(now) && WholeKeys(k, now)
    ensures SerialCall(k, p, now) == ExactCall(k, p, now)
  {
    if !Live(k.block, now) {
      var c := Incr(k.hits, now);
      var k1 := k.(hits := Some(c));
      assert SerialCall(k, p, now) == RunAlone(IncrHits, k, p, now);
      if c.count == 1 {
        var k2 := k.(hits := Some(Cell(1, Some(now + p.ttl))));
        assert 1000 * CeilSeconds(p.ttl) == p.ttl;
        assert RunAlone(IncrHits, k, p, now) == RunAlone(ExpireHits(1), k1, p, now) == RunAlone(ReadTtl(1), k2, p, now);
        FromReadTtl(1, k2, p, now);
      } else {
        assert RunAlone(IncrHits, k, p, now) == RunAlone(ReadTtl(c.count), k1, p, now);
        FromReadTtl(c.count, k1, p, now);
      }
    } else {
      var wait := k.block.value.expiry.value - now;
      assert (wait + 500) / 1000 * 1000 == wait;
    }
  }

  lemma FromReadTtl(h: int, k: Keys, p: Params, now: int)
    requires WholeSecond(p.blockDuration) && WholeSecond(now)
    requires Live(k.hits, now) && k.hits.value.expiry.Some? && WholeSecond(k.hits.value.expiry.value)
    ensures var over := p.limit < h && 0 < p.blockDuration;
      RunAlone(ReadTtl(h), k, p, now) ==
        (Record(h, k.hits.value.expiry.value - now, over, if over then p.blockDuration else 0),
         if over then k.(block := Some(Cell(1, Some(now + p.blockDuration)))) else k)
  {
    var remaining := Ttl(k.hits, now);
    assert remaining * 1000 == k.hits.value.expiry.value - now;
    if p.limit < h && 0 < p.blockDuration {
      var k' := k.(block := Some(Cell(1, Some(now + p.blockDuration))));
      var r := Record(h, remaining * 1000, true, p.blockDuration);
      assert 1000 * CeilSeconds(p.blockDuration) == p.blockDuration;
      assert RunAlone(ReadTtl(h), k, p, now) == RunAlone(SetBlock(h, remaining), k, p, now);
      assert Advance(SetBlock(h, remaining), k, p, now) == (Done(r), k');
      assert RunAlone(Done(r), k', p, now) == (r, k');
    }
  }

  /** A key that is dead stays dead. */
  lemma WholeKeysLater(k: Keys, p: Params, now: int, later: int)
    requires WholeSeconds(p) && WholeSecond(now) && WholeKeys(k, now) && now <= later
    ensures WholeKeys(ExactCall(k, p, now).1, later)
  {
  }

  /** Over every run of serial calls at whole seconds the Redis path gives the exact replies. */
  lemma {:induction false} RedisIsExact(k: Keys, p: Params, last: int, times: seq<int>)
    requires WholeSeconds(p) && Monotone(times) && WholeKeys(k, last)
    requires forall i | 0 <= i < |times| :: last <= times[i] && WholeSecond(times[i])
    ensures RedisReplies(k, p, times) == ExactReplies(k, p, times)
    decreases |times|
  {
    if times != [] {
      var now := times[0];
      SerialCallIs(k, p, now);
      WholeKeysLater(k, p, now, now);
      RedisIsExact(ExactCall(k, p, now).1, p, now, times[1..]);
    }
  }

  /**
   * The fallback refines the Redis path: over every run of serial calls at whole seconds, both give
   * the same reply to every call if and only if no two calls in a row fall between the end of a
   * window and the end of its block.
   */
  lemma {:induction false} FallbackRefinesRedis(p: Params, times: seq<int>)
    requires WholeSeconds(p) && Monotone(times)
    requires forall i | 0 <= i < |times| :: 0 <= times[i] && WholeSecond(times[i])
    ensures RedisReplies(Keys(None, None), p, times) == MemoryReplies(None, p, times)
            <==> !GapTwice(Keys(None, None), p, times, false)
  {
    RedisIsExact(Keys(None, None), p, 0, times);
    FallbackIsExact(p, times);
  }

  /** The run on which they part: a third call is let through by the fallback while Redis still blocks it. */
  lemma BlockForgotten()
    ensures var p := Params(1000, 1, 5000);
            RedisReplies(Keys(None, None), p, [0, 0, 2000, 3000])[3].isBlocked
            && !MemoryReplies(None, p, [0, 0, 2000, 3000])[3].isBlocked
  {
    var p := Params(1000, 1, 5000);
    var k0 := Keys(None, None);
    var t := [0, 0, 2000, 3000];
    RedisIsExact(k0, p, 0, t);
    var k1 := ExactCall(k0, p, 0).1;
    var k2 := ExactCall(k1, p, 0).1;
    assert t[1..] == [0, 2000, 3000] && t[1..][1..] == [2000, 3000] && t[1..][1..][1..] == [3000];
    assert ExactReplies(k2, p, [3000])[0].isBlocked;
    assert ExactReplies(k2, p, [2000, 3000])[1].isBlocked;
    assert ExactReplies(k1, p, [0, 2000, 3000])[2].isBlocked;
    var e1 := Some(MemoryEntry(1, 1000, 0));
    var e2 := Some(MemoryEntry(2, 1000, 5000));
    assert !MemoryReplies(None, p, [3000])[0].isBlocked;
    assert !MemoryReplies(e2, p, [2000, 3000])[1].isBlocked;
    assert !MemoryReplies(e1, p, [0, 2000, 3000])[2].isBlocked;
  }
}
