/**
 * TokenStoreService: refresh tokens under their own expiring keys, and per subject an expiring set of
 * the ids to revoke together. Times are whole seconds. The operations of the model are atomic, except
 * that revokeAllForSubject is also given as its two commands, SMEMBERS and the deleting pipeline.
 */
module TokenStore {
  import opened Prelude

  datatype Record = Record(jti: string, sub: string, tribeId: string, issuedAt: int, expiresAt: int,
                           scopes: seq<string>, permissions: seq<string>)

  datatype Token = Token(record: Record, expiry: int)

  datatype Session = Session(members: set<string>, expiry: Option<int>)

  datatype Store = Store(tokens: map<string, Token>, sessions: map<string, Session>)

  datatype Config = Config(tokenTtl: int, sessionTtl: int)

  predicate LiveToken(s: Store, jti: string, now: int) {
    jti in s.tokens && now < s.tokens[jti].expiry
  }

  predicate LiveSession(s: Store, sub: string, now: int) {
    sub in s.sessions && (s.sessions[sub].expiry.Some? ==> now < s.sessions[sub].expiry.value)
  }

  /** SMEMBERS. */
  function Members(s: Store, sub: string, now: int): set<string> {
    if LiveSession(s, sub, now) then s.sessions[sub].members else {}
  }

  /** The session after SADD of a new token, its expiry raised to cover that token. */
  function Extended(s: Store, sub: string, jti: string, c: Config, now: int): Session {
    var expiry := if LiveSession(s, sub, now) then s.sessions[sub].expiry else None;
    var ttl := if expiry.Some? then expiry.value - now else -1;
    Session(Members(s, sub, now) + {jti},
      if ttl < c.tokenTtl then Some(now + Max(c.sessionTtl, c.tokenTtl)) else expiry)
  }

  /** store: a token ttl that is not positive makes SETEX fail before the session is touched. */
  function Put(s: Store, r: Record, c: Config, now: int): Store {
    if c.tokenTtl <= 0 then s
    else Store(s.tokens[r.jti := Token(r, now + c.tokenTtl)],
               s.sessions[r.sub := Extended(s, r.sub, r.jti, c, now)])
  }

  /** SREM, which deletes a set it empties. */
  function Without(s: Store, sub: string, jti: string, now: int): map<string, Session> {
    var left := Members(s, sub, now) - {jti};
    if !LiveSession(s, sub, now) || left == {} then s.sessions - {sub}
    else s.sessions[sub := s.sessions[sub].(members := left)]
  }

  function Revoke(s: Store, jti: string, now: int): (bool, Store) {
    if !LiveToken(s, jti, now) then (false, s.(tokens := s.tokens - {jti}))
    else (true, Store(s.tokens - {jti}, Without(s, s.tokens[jti].record.sub, jti, now)))
  }

  /** The pipeline of revokeAllForSubject, for the members it read. */
  function DeleteAll(s: Store, sub: string, members: set<string>): Store {
    if members == {} then s else Store(s.tokens - members, s.sessions - {sub})
  }

  function RevokeAll(s: Store, sub: string, now: int): (nat, Store) {
    var members := Members(s, sub, now);
    (|members|, DeleteAll(s, sub, members))
  }

  // ---------------------------------------------------------------- the service

  class TokenStoreService {
    /** Redis was reachable at start-up. */
    const connected: bool
    const config: Config
    var tokens: map<string, Token>
    var sessions: map<string, Session>

    constructor (connected: bool, config: Config)
      ensures this.connected == connected && this.config == config && Model() == Store(map[], map[])
    {
      this.connected, this.config := connected, config;
      tokens, sessions := map[], map[];
    }

    function Model(): Store
      reads this
    {
      Store(tokens, sessions)
    }

    method StoreRecord(record: Record, now: int) returns (failed: bool)
      modifies this
      ensures Model() == if connected then Put(old(Model()), record, config, now) else old(Model())
      ensures failed <==> connected && config.tokenTtl <= 0
    {
      if !connected {
        return false;
      }
      var ttlSeconds := config.tokenTtl;
      if ttlSeconds <= 0 {
        return true;
      }
      tokens := tokens[record.jti := Token(record, now + ttlSeconds)];
      AddToSession(record.sub, record.jti, ttlSeconds, now);
      failed := false;
    }

    method AddToSession(sub: string, jti: string, tokenTtlSeconds: int, now: int)
      requires tokenTtlSeconds == config.tokenTtl && 0 < tokenTtlSeconds
      modifies this`sessions
      ensures sessions == old(sessions)[sub := Extended(old(Model()), sub, jti, config, now)]
    {
      var live := sub in sessions && (sessions[sub].expiry == None || now < sessions[sub].expiry.value);
      var session := if live then sessions[sub].(members := sessions[sub].members + {jti}) else Session({jti}, None);
      var currentTtl := match session.expiry case Some(e) => e - now case None => -1;
      if currentTtl < tokenTtlSeconds {
        var sessionTtl := config.sessionTtl;
        session := session.(expiry := Some(now + if tokenTtlSeconds < sessionTtl then sessionTtl else tokenTtlSeconds));
      }
      assert session.members == Members(Model(), sub, now) + {jti};
      sessions := sessions[sub := session];
    }

    method Get(jti: string, now: int) returns (r: Option<Record>)
      ensures r == if connected && LiveToken(Model(), jti, now) then Some(tokens[jti].record) else None
    {
      if connected && jti in tokens && now < tokens[jti].expiry {
        return Some(tokens[jti].record);
      }
      r := None;
    }

    /** Without Redis every id passes. */
    method IsValid(jti: string, now: int) returns (valid: bool)
      ensures valid <==> !connected || LiveToken(Model(), jti, now)
    {
      if !connected {
        return true;
      }
      valid := jti in tokens && tokens[jti].expiry > now;
    }

    method RevokeToken(jti: string, now: int) returns (revoked: bool)
      modifies this
      ensures (revoked, Model()) == if connected then Revoke(old(Model()), jti, now) else (false, old(Model()))
    {
      if !connected {
        return false;
      }
      var record := Get(jti, now);
      ghost var was := Model();
      tokens := tokens - {jti};
      if record.Some? {
        RemoveFromSession(record.value.sub, jti, now);
        assert Without(was, record.value.sub, jti, now) == sessions;
        return true;
      }
      revoked := false;
    }

    method RemoveFromSession(sub: string, jti: string, now: int)
      modifies this`sessions
      ensures sessions == Without(old(Model()), sub, jti, now)
    {
      if sub !in sessions {
        assert sessions - {sub} == sessions;
        return;
      }
      var session := sessions[sub];
      var expired := session.expiry.Some? && session.expiry.value <= now;
      if expired || session.members - {jti} == {} {
        sessions := sessions - {sub};
      } else {
        sessions := sessions[sub := session.(members := session.members - {jti})];
      }
    }

    method RevokeAllForSubject(sub: string, now: int) returns (count: nat)
      modifies this
      ensures (count, Model()) == if connected then RevokeAll(old(Model()), sub, now) else (0, old(Model()))
    {
      if !connected {
        return 0;
      }
      var live := sub in sessions && (sessions[sub].expiry == None || now < sessions[sub].expiry.value);
      var jtiList := if live then sessions[sub].members else {};
      assert jtiList == Members(old(Model()), sub, now);
      if |jtiList| == 0 {
        return 0;
      }
      var pipeline: seq<string> := [];
      var left := jtiList;
      while left != {}
        invariant left <= jtiList
        invariant forall k :: k in pipeline <==> k in jtiList && k !in left
        decreases left
      {
        var jti :| jti in left;
        pipeline := pipeline + [jti];
        left := left - {jti};
      }
      for i := 0 to |pipeline|
        invariant tokens == old(tokens) - (set k | k in pipeline[..i])
        invariant sessions == old(sessions)
      {
        tokens := tokens - {pipeline[i]};
        assert pipeline[..i + 1] == pipeline[..i] + [pipeline[i]];
      }
      assert (set k | k in pipeline[..|pipeline|]) == jtiList;
      sessions := sessions - {sub};
      count := |jtiList|;
    }
  }
}
