/** The session index over whole runs of stores and revocations, and the one race that escapes it. */
module TokenStoreRuns {
  import opened Prelude
  import opened TokenStore

  datatype Event = Stores(record: Record, now: int) | Revokes(jti: string, now: int) | RevokesAll(sub: string, now: int)

  function Step(s: Store, c: Config, e: Event): Store {
    match e
    case Stores(r, now) => Put(s, r, c, now)
    case Revokes(jti, now) => Revoke(s, jti, now).1
    case RevokesAll(sub, now) => RevokeAll(s, sub, now).1
  }

  function Run(c: Config, events: seq<Event>): Store {
    if events == [] then Store(map[], map[]) else Step(Run(c, events[..|events| - 1]), c, events[|events| - 1])
  }

  /** The clock never goes back, and `now` is not before the latest event. */
  ghost predicate Ordered(events: seq<Event>, now: int) {
    && (forall i, j | 0 <= i < j < |events| :: events[i].now <= events[j].now)
    && (forall i | 0 <= i < |events| :: events[i].now <= now)
  }

  // ---------------------------------------------------------------- the index covers every live token

  predicate CoveredToken(s: Store, jti: string, now: int)
    requires jti in s.tokens
  {
    var sub := s.tokens[jti].record.sub;
    && s.tokens[jti].record.jti == jti
    && LiveSession(s, sub, now)
    && jti in s.sessions[sub].members
    && s.sessions[sub].expiry.Some? && s.tokens[jti].expiry <= s.sessions[sub].expiry.value
  }

  /** Every live token is in its subject's session, which lasts at least as long as the token. */
  ghost predicate Covered(s: Store, now: int) {
    forall jti | LiveToken(s, jti, now) :: CoveredToken(s, jti, now)
  }

  lemma TimeKeepsCovered(s: Store, before: int, now: int)
    requires before <= now && Covered(s, before)
    ensures Covered(s, now)
  {
    forall jti | LiveToken(s, jti, now) ensures CoveredToken(s, jti, now) {
      assert LiveToken(s, jti, before);
    }
  }

  lemma StoreKeepsCovered(s: Store, c: Config, r: Record, now: int)
    requires Covered(s, now)
    ensures Covered(Put(s, r, c, now), now)
  {
    var s' := Put(s, r, c, now);
    forall jti | LiveToken(s', jti, now) ensures CoveredToken(s', jti, now) {
      if jti != r.jti {
        assert LiveToken(s, jti, now);
      }
    }
  }

  lemma RevokeKeepsCovered(s: Store, jti: string, now: int)
    requires Covered(s, now)
    ensures Covered(Revoke(s, jti, now).1, now)
  {
    var s' := Revoke(s, jti, now).1;
    forall j | LiveToken(s', j, now) ensures CoveredToken(s', j, now) {
      assert LiveToken(s, j, now) && j != jti;
      assert j in Members(s, s.tokens[j].record.sub, now) - {jti};
    }
  }

  lemma StepKeepsCovered(s: Store, c: Config, e: Event)
    requires Covered(s, e.now)
    ensures Covered(Step(s, c, e), e.now)
  {
    match e {
      case Stores(r, now) => StoreKeepsCovered(s, c, r, now);
      case Revokes(jti, now) => RevokeKeepsCovered(s, jti, now);
      case RevokesAll(sub, now) => DeletingKeepsCovered(s, sub, Members(s, sub, now), now);
    }
  }

  /**
   * The deleting pipeline keeps the index covering exactly when the members it was given include every
   * live token of the subject, or it was given none and did nothing.
   */
  lemma DeletingKeepsCovered(s: Store, sub: string, members: set<string>, now: int)
    requires Covered(s, now)
    ensures Covered(DeleteAll(s, sub, members), now)
            <==> || members == {}
                 || forall jti | LiveToken(s, jti, now) && s.tokens[jti].record.sub == sub :: jti in members
  {
    var s' := DeleteAll(s, sub, members);
    if members != {} {
      forall jti | LiveToken(s', jti, now)
        ensures LiveToken(s, jti, now) && jti !in members
        ensures CoveredToken(s', jti, now) <==> s.tokens[jti].record.sub != sub
      {
        assert LiveToken(s, jti, now);
      }
      forall jti | LiveToken(s, jti, now) && jti !in members ensures LiveToken(s', jti, now) {
      }
    }
  }

  /** In every run every live token is covered by its subject's session. */
  lemma {:induction false} IndexCoversLiveTokens(c: Config, events: seq<Event>, now: int)
    requires Ordered(events, now)
    ensures Covered(Run(c, events), now)
  {
    if events != [] {
      var before, e := events[..|events| - 1], events[|events| - 1];
      IndexCoversLiveTokens(c, before, e.now);
      StepKeepsCovered(Run(c, before), c, e);
      TimeKeepsCovered(Run(c, events), e.now, now);
    }
  }

  /** The live tokens of a subject. */
  function LiveOf(s: Store, sub: string, now: int): set<string> {
    set jti | jti in s.tokens && LiveToken(s, jti, now) && s.tokens[jti].record.sub == sub
  }

  /** After any run, revokeAllForSubject leaves the subject no live token, and reports at least what it removed. */
  lemma RevokeAllLeavesNone(c: Config, events: seq<Event>, sub: string, now: int)
    requires Ordered(events, now)
    ensures var s := Run(c, events); var (count, s') := RevokeAll(s, sub, now);
            LiveOf(s', sub, now) == {} && |LiveOf(s, sub, now)| <= count == |Members(s, sub, now)|
  {
    var s := Run(c, events);
    IndexCoversLiveTokens(c, events, now);
    assert LiveOf(s, sub, now) <= Members(s, sub, now);
    SubsetSize(LiveOf(s, sub, now), Members(s, sub, now));
  }

  // ---------------------------------------------------------------- and reaches no other subject

  /** No id is stored twice. */
  ghost predicate FreshIds(events: seq<Event>) {
    forall i, j | 0 <= i < j < |events| && events[i].Stores? && events[j].Stores? ::
      events[i].record.jti != events[j].record.jti
  }

  function StoredIds(events: seq<Event>): set<string> {
    set i | 0 <= i < |events| && events[i].Stores? :: events[i].record.jti
  }

  /** An id listed for a subject, if still a token at all, is a token of that subject. */
  ghost predicate OwnMembersOnly(s: Store, ids: set<string>) {
    && (forall jti | jti in s.tokens :: jti in ids)
    && (forall sub, jti | sub in s.sessions && jti in s.sessions[sub].members :: jti in ids)
    && (forall sub, jti | sub in s.sessions && jti in s.sessions[sub].members && jti in s.tokens ::
          s.tokens[jti].record.sub == sub)
  }

  lemma StepKeepsOwnMembers(s: Store, c: Config, e: Event, ids: set<string>)
    requires OwnMembersOnly(s, ids) && (e.Stores? ==> e.record.jti !in ids)
    ensures OwnMembersOnly(Step(s, c, e), ids + if e.Stores? then {e.record.jti} else {})
  {
  }

  lemma {:induction false} RunKeepsOwnMembers(c: Config, events: seq<Event>)
    requires FreshIds(events)
    ensures OwnMembersOnly(Run(c, events), StoredIds(events))
  {
    if events != [] {
      var before, e := events[..|events| - 1], events[|events| - 1];
      RunKeepsOwnMembers(c, before);
      assert StoredIds(events) == StoredIds(before) + if e.Stores? then {e.record.jti} else {} by {
        assert events == before + [e];
        forall jti | jti in StoredIds(before) + (if e.Stores? then {e.record.jti} else {})
          ensures jti in StoredIds(events)
        {
          if jti in StoredIds(before) {
            var i :| 0 <= i < |before| && before[i].Stores? && before[i].record.jti == jti;
            assert events[i] == before[i];
          } else {
            assert events[|before|] == e;
          }
        }
      }
      StepKeepsOwnMembers(Run(c, before), c, e, StoredIds(before));
    }
  }

  /** With fresh ids revokeAllForSubject removes the live tokens of its subject and of nobody else. */
  lemma RevokeAllRemovesExactlyItsOwn(c: Config, events: seq<Event>, sub: string, now: int, jti: string)
    requires Ordered(events, now) && FreshIds(events)
    ensures var s := Run(c, events); var s' := RevokeAll(s, sub, now).1;
            LiveToken(s', jti, now) <==> LiveToken(s, jti, now) && s.tokens[jti].record.sub != sub
  {
    IndexCoversLiveTokens(c, events, now);
    RunKeepsOwnMembers(c, events);
    RevokeAllLeavesNone(c, events, sub, now);
  }

  // ---------------------------------------------------------------- the life of a token

  /** Revoking is reported exactly for a live token; it takes that one away, and from its own subject's session. */
  lemma RevokeTakesExactlyOne(s: Store, jti: string, now: int)
    ensures var (revoked, s') := Revoke(s, jti, now);
      && (revoked <==> LiveToken(s, jti, now))
      && s'.tokens == s.tokens - {jti} && !LiveToken(s', jti, now)
      && (!revoked ==> s'.sessions == s.sessions)
      && forall sub ::
           Members(s', sub, now) ==
             if revoked && sub == s.tokens[jti].record.sub then Members(s, sub, now) - {jti} else Members(s, sub, now)
  {
  }

  /** An event concerns the subject whose token or tokens it stores or revokes; nobody else's session moves. */
  lemma OtherSessionsKept(s: Store, c: Config, e: Event, sub: string)
    requires match e
      case Stores(r, _) => sub != r.sub
      case Revokes(jti, now) => LiveToken(s, jti, now) ==> sub != s.tokens[jti].record.sub
      case RevokesAll(other, _) => sub != other
    ensures (sub in Step(s, c, e).sessions <==> sub in s.sessions)
    ensures sub in s.sessions ==> Step(s, c, e).sessions[sub] == s.sessions[sub]
  {
  }

  /** The store of `jti` that still stands after the events: not followed by a revocation of it or of its subject. */
  function Standing(c: Config, events: seq<Event>, jti: string): Option<Event>
    ensures Standing(c, events, jti).Some? ==> Standing(c, events, jti).value.Stores?
  {
    if events == [] then None
    else
      var before, e := events[..|events| - 1], events[|events| - 1];
      var standing := Standing(c, before, jti);
      match e
      case Stores(r, _) => if r.jti == jti && 0 < c.tokenTtl then Some(e) else standing
      case Revokes(j, _) => if j == jti then None else standing
      case RevokesAll(sub, _) => if standing.Some? && standing.value.record.sub == sub then None else standing
  }

  lemma FreshIdsOneMore(events: seq<Event>)
    requires events != [] && FreshIds(events)
    ensures var before, e := events[..|events| - 1], events[|events| - 1];
            FreshIds(before) && (e.Stores? ==> e.record.jti !in StoredIds(before))
  {
  }

  /**
   * The life of a token: in every run with fresh ids a token is live exactly from its store until its ttl
   * is over, or until it or its subject is revoked, and it is the record that was stored.
   */
  lemma {:induction false} TokenLivesExactly(c: Config, events: seq<Event>, now: int, jti: string)
    requires Ordered(events, now) && FreshIds(events)
    ensures var standing := Standing(c, events, jti);
      && (LiveToken(Run(c, events), jti, now) <==> standing.Some? && now < standing.value.now + c.tokenTtl)
      && (LiveToken(Run(c, events), jti, now) ==> Run(c, events).tokens[jti].record == standing.value.record)
  {
    if events != [] {
      var before, e := events[..|events| - 1], events[|events| - 1];
      FreshIdsOneMore(events);
      TokenLivesExactly(c, before, now, jti);
      if e.RevokesAll? {
        RevokesAllOwn(c, before, e, now, jti);
      }
    }
  }

  /** Of the tokens live at `now`, a revocation of a whole subject before takes exactly the subject's. */
  lemma RevokesAllOwn(c: Config, before: seq<Event>, e: Event, now: int, jti: string)
    requires Ordered(before, e.now) && FreshIds(before) && e.RevokesAll? && e.now <= now
    ensures var s := Run(c, before); var s' := Step(s, c, e);
      && (LiveToken(s', jti, now) <==> LiveToken(s, jti, now) && s.tokens[jti].record.sub != e.sub)
      && (LiveToken(s', jti, now) ==> s'.tokens[jti] == s.tokens[jti])
  {
    var s := Run(c, before);
    IndexCoversLiveTokens(c, before, e.now);
    RunKeepsOwnMembers(c, before);
    if LiveToken(s, jti, now) {
      assert LiveToken(s, jti, e.now);
      assert CoveredToken(s, jti, e.now);
    }
  }

  lemma OnlyStoringBrings(s: Store, c: Config, e: Event, jti: string)
    requires jti !in s.tokens && (e.Stores? ==> e.record.jti != jti)
    ensures jti !in Step(s, c, e).tokens
  {
  }

  /** A revoked token that is not stored again is never live again, whatever else may follow. */
  lemma {:induction false} RevokedForGood(c: Config, events: seq<Event>, i: nat, jti: string)
    requires i < |events| && events[i].Revokes? && events[i].jti == jti
    requires forall k | i < k < |events| && events[k].Stores? :: events[k].record.jti != jti
    ensures jti !in Run(c, events).tokens
  {
    var n := |events| - 1;
    if i < n {
      assert events[..n][i] == events[i];
      RevokedForGood(c, events[..n], i, jti);
      OnlyStoringBrings(Run(c, events[..n]), c, events[n], jti);
    }
  }

  // ---------------------------------------------------------------- the life of a session

  /**
   * Storing keeps the expiry of a live session that covers the new token, and otherwise sets it to the
   * longer of the two lifetimes from now; so it never shortens a live session.
   */
  lemma StoreExtendsSession(s: Store, c: Config, r: Record, now: int)
    requires 0 < c.tokenTtl
    ensures var was, after := s.sessions, Put(s, r, c, now).sessions[r.sub];
      && after.members == Members(s, r.sub, now) + {r.jti}
      && (if LiveSession(s, r.sub, now) && was[r.sub].expiry.Some? && now + c.tokenTtl <= was[r.sub].expiry.value
          then after.expiry == was[r.sub].expiry
          else after.expiry == Some(now + Max(c.sessionTtl, c.tokenTtl)))
      && (LiveSession(s, r.sub, now) && was[r.sub].expiry.Some? ==> was[r.sub].expiry.value <= after.expiry.value)
  {
  }

  /** When a token of the subject was last stored. */
  function LastStore(c: Config, events: seq<Event>, sub: string): Option<int> {
    if events == [] then None
    else
      var e := events[|events| - 1];
      if e.Stores? && e.record.sub == sub && 0 < c.tokenTtl then Some(e.now)
      else LastStore(c, events[..|events| - 1], sub)
  }

  /** A session is over by the longer of the two lifetimes after the last store for its subject. */
  lemma {:induction false} SessionEnds(c: Config, events: seq<Event>, now: int, sub: string)
    requires Ordered(events, now) && sub in Run(c, events).sessions
    ensures var last, expiry := LastStore(c, events, sub), Run(c, events).sessions[sub].expiry;
            last.Some? && expiry.Some? && expiry.value <= last.value + Max(c.sessionTtl, c.tokenTtl)
    ensures LastStore(c, events, sub).value <= now
  {
    if events != [] {
      var before, e := events[..|events| - 1], events[|events| - 1];
      if sub in Run(c, before).sessions {
        SessionEnds(c, before, e.now, sub);
      }
    }
  }

  // ---------------------------------------------------------------- the race between the two commands

  /**
   * A token stored between the SMEMBERS and the pipeline of a revocation survives it outside the index:
   * revoking everything again removes nothing and reports nothing.
   */
  lemma StoreDuringRevokeAllEscapes(s: Store, c: Config, r: Record, now: int)
    requires 0 < c.tokenTtl && Members(s, r.sub, now) != {} && r.jti !in Members(s, r.sub, now)
    ensures var s' := DeleteAll(Put(s, r, c, now), r.sub, Members(s, r.sub, now));
            && LiveToken(s', r.jti, now) && s'.tokens[r.jti].record == r
            && !Covered(s', now)
            && RevokeAll(s', r.sub, now) == (0, s')
  {
  }
}
