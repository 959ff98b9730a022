/**
 * RedisThrottlerStorage: the rate limiter shared by all containers, and the in-memory path it
 * falls back to. `Advance` is one Redis command of one call; `MemoryStep` is one whole call of
 * the fallback, which never awaits.
 */
module Throttler {
  import opened Prelude
  import opened Redis

  datatype Params = Params(ttl: int, limit: int, blockDuration: int)

  datatype Record = Record(totalHits: int, timeToExpire: int, isBlocked: bool, timeToBlockExpire: int)

  /** The two keys of one throttle key. */
  datatype Keys = Keys(hits: Option<Cell>, block: Option<Cell>)

  /** The next command of a call, with the local variables it still needs. */
  datatype Phase =
    | CheckBlock
    | IncrHits
    | ExpireHits(hits: int)
    | ReadTtl(hits: int)
    | SetBlock(hits: int, remaining: int)
    | Done(record: Record)
  {
    function CommandsLeft(): nat {
      match this
      case CheckBlock => 5
      case IncrHits => 4
      case ExpireHits(_) => 3
      case ReadTtl(_) => 2
      case SetBlock(_, _) => 1
      case Done(_) => 0
    }
  }

  /** One Redis command of redisIncrement, executed at `now`. */
  function Advance(ph: Phase, k: Keys, p: Params, now: int): (Phase, Keys) {
    match ph
    case CheckBlock =>
      var t := Ttl(k.block, now);
      if t > 0 then (Done(Record(p.limit + 1, t * 1000, true, t * 1000)), k) else (IncrHits, k)
    case IncrHits =>
      var c := Incr(k.hits, now);
      (if c.count == 1 then ExpireHits(1) else ReadTtl(c.count), k.(hits := Some(c)))
    case ExpireHits(h) =>
      (ReadTtl(h), k.(hits := Expire(k.hits, CeilSeconds(p.ttl), now)))
    case ReadTtl(h) =>
      var remaining := Ttl(k.hits, now);
      if h > p.limit && p.blockDuration > 0 then (SetBlock(h, remaining), k)
      else (Done(Record(h, remaining * 1000, false, 0)), k)
    case SetBlock(h, remaining) =>
      (Done(Record(h, remaining * 1000, true, p.blockDuration)),
       k.(block := Some(Setex(CeilSeconds(p.blockDuration), now))))
    case Done(_) => (ph, k)
  }

  /** A call that runs alone, all its commands at one instant. */
  function RunAlone(ph: Phase, k: Keys, p: Params, now: int): (Record, Keys)
    decreases ph.CommandsLeft()
  {
    if ph.Done? then (ph.record, k)
    else
      var next := Advance(ph, k, p, now);
      RunAlone(next.0, next.1, p, now)
  }

  /** One command of a call that runs alone. */
  lemma AloneStep(ph: Phase, k: Keys, p: Params, now: int)
    requires !ph.Done?
    ensures var next := Advance(ph, k, p, now); RunAlone(ph, k, p, now) == RunAlone(next.0, next.1, p, now)
  {
  }

  function SerialCall(k: Keys, p: Params, now: int): (Record, Keys) {
    RunAlone(CheckBlock, k, p, now)
  }

  // ---------------------------------------------------------------- in-memory fallback

  datatype MemoryEntry = MemoryEntry(hits: int, expiresAt: int, blockedUntil: int)

  /** memoryIncrement on the entry of its key. */
  function MemoryStep(e: Option<MemoryEntry>, p: Params, now: int): (Record, Option<MemoryEntry>) {
    var kept := if e.Some? && e.value.expiresAt <= now then None else e;
    if e.Some? && now < e.value.blockedUntil then
      var wait := e.value.blockedUntil - now;
      (Record(p.limit + 1, wait, true, wait), kept)
    else
      var entry := if kept.Some? then kept.value else MemoryEntry(0, now + p.ttl, 0);
      var counted := entry.(hits := entry.hits + 1);
      var rest := entry.expiresAt - now;
      if counted.hits > p.limit && p.blockDuration > 0 then
        (Record(counted.hits, rest, true, p.blockDuration), Some(counted.(blockedUntil := now + p.blockDuration)))
      else
        (Record(counted.hits, rest, false, 0), Some(counted))
  }

  // ---------------------------------------------------------------- key names

  function HitsKey(key: string): string { "throttle:" + key + ":hits" }

  function BlockKey(key: string): string { "throttle:" + key + ":block" }

  /** The two keys of a throttle key are never a key of another one, nor each other. */
  lemma KeysApart(a: string, b: string)
    ensures HitsKey(a) != BlockKey(b)
    ensures HitsKey(a) == HitsKey(b) ==> a == b
    ensures BlockKey(a) == BlockKey(b) ==> a == b
  {
    var x, y := HitsKey(a), BlockKey(b);
    assert x[|x| - 1] == 's' && y[|y| - 1] == 'k';
    assert HitsKey(a)[9..|HitsKey(a)| - 5] == a && HitsKey(b)[9..|HitsKey(b)| - 5] == b;
    assert BlockKey(a)[9..|BlockKey(a)| - 6] == a && BlockKey(b)[9..|BlockKey(b)| - 6] == b;
  }

  // ---------------------------------------------------------------- the service

  class RedisThrottlerStorage {
    const redis: Server?
    var memoryStore: map<string, MemoryEntry>

    /** `redis` is null when connecting failed at start-up. */
    constructor (redis: Server?)
      ensures this.redis == redis && memoryStore == map[]
    {
      this.redis := redis;
      memoryStore := map[];
    }

    function EntryOf(key: string): Option<MemoryEntry>
      reads this
    {
      if key in memoryStore then Some(memoryStore[key]) else None
    }

    function KeysOf(key: string): Keys
      requires redis != null
      reads this, redis
    {
      Keys(redis.Lookup(HitsKey(key)), redis.Lookup(BlockKey(key)))
    }

    /** A call whose commands meet no other call's: its reply and both keys are those of SerialCall. */
    method RedisIncrement(key: string, p: Params, now: int) returns (r: Record)
      requires redis != null
      modifies redis
      ensures (r, KeysOf(key)) == SerialCall(old(KeysOf(key)), p, now)
      ensures forall k | k != HitsKey(key) && k != BlockKey(key) :: redis.Lookup(k) == old(redis.Lookup(k))
    {
      KeysApart(key, key);
      var hitsKey, blockKey := HitsKey(key), BlockKey(key);
      ghost var k0 := KeysOf(key);
      AloneStep(CheckBlock, k0, p, now);
      var blockTtl := redis.TtlOf(blockKey, now);
      if blockTtl > 0 {
        r := Record(p.limit + 1, blockTtl * 1000, true, blockTtl * 1000);
        assert Advance(CheckBlock, k0, p, now) == (Done(r), k0);
        return;
      }
      AloneStep(IncrHits, k0, p, now);
      var hits := redis.IncrKey(hitsKey, now);
      ghost var k1 := KeysOf(key);
      assert k1 == k0.(hits := Some(Incr(k0.hits, now)));
      assert SerialCall(k0, p, now) == RunAlone(if hits == 1 then ExpireHits(1) else ReadTtl(hits), k1, p, now);
      if hits == 1 {
        AloneStep(ExpireHits(1), k1, p, now);
        redis.ExpireKey(hitsKey, CeilSeconds(p.ttl), now);
        assert KeysOf(key) == k1.(hits := Expire(k1.hits, CeilSeconds(p.ttl), now));
      }
      ghost var k2 := KeysOf(key);
      assert SerialCall(k0, p, now) == RunAlone(ReadTtl(hits), k2, p, now);
      AloneStep(ReadTtl(hits), k2, p, now);
      var remainingTtl := redis.TtlOf(hitsKey, now);
      if hits > p.limit && p.blockDuration > 0 {
        assert SerialCall(k0, p, now) == RunAlone(SetBlock(hits, remainingTtl), k2, p, now);
        AloneStep(SetBlock(hits, remainingTtl), k2, p, now);
        redis.SetexKey(blockKey, CeilSeconds(p.blockDuration), now);
        ghost var k3 := k2.(block := Some(Setex(CeilSeconds(p.blockDuration), now)));
        assert KeysOf(key) == k3;
        r := Record(hits, remainingTtl * 1000, true, p.blockDuration);
        assert Advance(SetBlock(hits, remainingTtl), k2, p, now) == (Done(r), k3);
        return;
      }
      r := Record(hits, remainingTtl * 1000, false, 0);
      assert Advance(ReadTtl(hits), k2, p, now) == (Done(r), k2);
    }

    method MemoryIncrement(key: string, p: Params, now: int) returns (r: Record)
      modifies this
      ensures (r, EntryOf(key)) == MemoryStep(old(EntryOf(key)), p, now)
      ensures forall k | k != key :: EntryOf(k) == old(EntryOf(k))
    {
      var existing := EntryOf(key);
      if existing.Some? && existing.value.expiresAt <= now {
        memoryStore := memoryStore - {key};
      }
      if existing.Some? && existing.value.blockedUntil > now {
        var wait := existing.value.blockedUntil - now;
        return Record(p.limit + 1, wait, true, wait);
      }
      var entry := if key in memoryStore then memoryStore[key] else MemoryEntry(0, now + p.ttl, 0);
      entry := entry.(hits := entry.hits + 1);
      if entry.hits > p.limit && p.blockDuration > 0 {
        entry := entry.(blockedUntil := now + p.blockDuration);
        memoryStore := memoryStore[key := entry];
        return Record(entry.hits, entry.expiresAt - now, true, p.blockDuration);
      }
      memoryStore := memoryStore[key := entry];
      r := Record(entry.hits, entry.expiresAt - now, false, 0);
    }

    /** Redis when it was reachable at start-up, the fallback otherwise. */
    method Increment(key: string, p: Params, now: int) returns (r: Record)
      modifies this, if redis != null then {redis} else {}
      ensures redis != null ==>
        && (r, KeysOf(key)) == SerialCall(old(KeysOf(key)), p, now)
        && memoryStore == old(memoryStore)
        && forall k | k != HitsKey(key) && k != BlockKey(key) :: redis.Lookup(k) == old(redis.Lookup(k))
      ensures redis == null ==>
        && (r, EntryOf(key)) == MemoryStep(old(EntryOf(key)), p, now)
        && forall k | k != key :: EntryOf(k) == old(EntryOf(k))
    {
      if redis != null {
        r := RedisIncrement(key, p, now);
      } else {
        r := MemoryIncrement(key, p, now);
      }
    }
  }
}
