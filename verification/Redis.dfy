/**
 * The Redis commands the gateway issues, on one key at one instant of a millisecond clock.
 * A key whose expiry is e answers as present before e and as absent from e on.
 */
module Redis {
  import opened Prelude

  /** An integer-valued string key and the instant at which it expires, if it has one. */
  datatype Cell = Cell(count: int, expiry: Option<int>)

  predicate Live(c: Option<Cell>, now: int) {
    c.Some? && (c.value.expiry.Some? ==> now < c.value.expiry.value)
  }

  /** TTL: -2 for an absent key, -1 for a key without expiry, else the rest of its life to the nearest second. */
  function Ttl(c: Option<Cell>, now: int): int {
    if !Live(c, now) then -2
    else if c.value.expiry.None? then -1
    else (c.value.expiry.value - now + 500) / 1000
  }

  /** INCR: creates the key without expiry, or adds one and keeps the expiry. */
  function Incr(c: Option<Cell>, now: int): Cell {
    if Live(c, now) then c.value.(count := c.value.count + 1) else Cell(1, None)
  }

  /** EXPIRE: a time to live that is not positive deletes the key. */
  function Expire(c: Option<Cell>, seconds: int, now: int): Option<Cell> {
    if !Live(c, now) || seconds <= 0 then None
    else Some(c.value.(expiry := Some(now + 1000 * seconds)))
  }

  /** SETEX. */
  function Setex(seconds: int, now: int): Cell {
    Cell(1, Some(now + 1000 * seconds))
  }

  /** Math.ceil(ms / 1000). */
  function CeilSeconds(ms: int): (s: int)
    ensures 1000 * (s - 1) < ms <= 1000 * s
  {
    (ms + 999) / 1000
  }

  /** A Redis server, shared by the containers. */
  class Server {
    var cells: map<string, Cell>

    constructor ()
      ensures cells == map[]
    {
      cells := map[];
    }

    function Lookup(key: string): Option<Cell>
      reads this
    {
      if key in cells then Some(cells[key]) else None
    }

    method TtlOf(key: string, now: int) returns (seconds: int)
      ensures seconds == Ttl(Lookup(key), now)
    {
      if key !in cells {
        return -2;
      }
      var expiry := cells[key].expiry;
      match expiry {
        case None => seconds := -1;
        case Some(e) => seconds := if e <= now then -2 else (e - now + 500) / 1000;
      }
    }

    method IncrKey(key: string, now: int) returns (count: int)
      modifies this
      ensures Lookup(key) == Some(Incr(old(Lookup(key)), now))
      ensures count == Lookup(key).value.count
      ensures forall k | k != key :: Lookup(k) == old(Lookup(k))
    {
      count := 1;
      var expiry := None;
      if key in cells && (cells[key].expiry == None || now < cells[key].expiry.value) {
        count := cells[key].count + 1;
        expiry := cells[key].expiry;
      }
      cells := cells[key := Cell(count, expiry)];
    }

    method ExpireKey(key: string, seconds: int, now: int)
      modifies this
      ensures Lookup(key) == Expire(old(Lookup(key)), seconds, now)
      ensures forall k | k != key :: Lookup(k) == old(Lookup(k))
    {
      var rest := TtlOf(key, now);
      if rest == -2 || seconds <= 0 {
        cells := cells - {key};
      } else {
        cells := cells[key := Cell(cells[key].count, Some(now + 1000 * seconds))];
      }
    }

    method SetexKey(key: string, seconds: int, now: int)
      requires 0 < seconds
      modifies this
      ensures Lookup(key) == Some(Setex(seconds, now))
      ensures forall k | k != key :: Lookup(k) == old(Lookup(k))
    {
      cells := cells[key := Cell(1, Some(now + 1000 * seconds))];
    }
  }
}
