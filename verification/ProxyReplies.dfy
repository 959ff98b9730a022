/** What the proxy replies, and where it forwards to, over whole runs. */
module ProxyReplies {
  import opened Prelude
  import opened Registry
  import RR = RegistryRuns
  import RE = RegistryEntries
  import opened Scopes
  import opened Proxy
  import opened ProxyRuns
  import CB = CircuitBreakers
  import CBR = CircuitBreakerRuns

  // ---------------------------------------------------------------- refusals

  predicate Reachable(s: Services, id: string) {
    id in s && s[id].manifest.baseUrl != ""
  }

  /** The service can be asked for in this namespace, and has not been retired. */
  predicate Offered(s: Services, namespace: ServiceType, id: string) {
    Reachable(s, id) && s[id].serviceType == namespace && !s[id].status.Retired?
  }

  predicate Lacks(q: Request, x: string) {
    q.user.Some? && x !in q.user.value.scopes && x !in q.user.value.permissions
  }

  /** Each reason for refusing a request, with its own condition; an earlier reason comes first. */
  lemma RefusalReasons(s: Services, namespace: ServiceType, q: Request)
    ensures var gate := Gate(s, namespace, q);
      && (gate == Some(Refusal.UnknownService) <==> !Reachable(s, q.id))
      && (gate == Some(WrongNamespace) <==> Reachable(s, q.id) && s[q.id].serviceType != namespace)
      && (gate == Some(Gone) <==>
            Reachable(s, q.id) && s[q.id].serviceType == namespace && s[q.id].status.Retired?)
      && (gate == Some(NotConsumer) <==>
            Offered(s, namespace, q.id) && !(q.tribe in s && q.id in s[q.tribe].manifest.consumes))
      && ((gate.Some? && gate.value.MissingScopes?) <==>
            && Offered(s, namespace, q.id) && q.tribe in s && q.id in s[q.tribe].manifest.consumes
            && exists x :: x in s[q.id].manifest.requiredScopes && Lacks(q, x))
      && (gate.Some? && gate.value.MissingScopes? ==>
            forall x :: x in gate.value.missing <==> x in s[q.id].manifest.requiredScopes && Lacks(q, x))
      && gate != Some(BreakerOpen)
  {
    if q.id in s && q.user.Some? {
      var required := s[q.id].manifest.requiredScopes;
      var missing := CheckScopes(q.user, required);
      if missing != [] {
        assert missing[0] in missing && Lacks(q, missing[0]);
      }
      if x :| x in required && Lacks(q, x) {
        assert x in missing;
      }
    }
  }

  /** The status of a refusal by what is the matter; 503 only for a request that passes every other gate. */
  lemma RefusalStatus(s: Services, h: Handler, q: Request)
    ensures var reply := ProxyRequest(s, h, q).0;
      var status := if reply.Refused? then HttpStatus(reply.reason) else 200;
      && (status == 404 <==> !Reachable(s, q.id) || s[q.id].serviceType != h.namespace)
      && (status == 410 <==> Reachable(s, q.id) && s[q.id].serviceType == h.namespace && s[q.id].status.Retired?)
      && (status == 403 <==> Offered(s, h.namespace, q.id) && Gate(s, h.namespace, q).Some?)
      && (status == 503 <==>
            Gate(s, h.namespace, q).None? && !CB.Admits(PROXY_BREAKER, BreakerOf(h, q.id), q.now))
  {
    RefusalReasons(s, h.namespace, q);
  }

  // ---------------------------------------------------------------- where a request goes

  /** A request is forwarded to its service's cached target, the one cached before if there was one. */
  lemma ForwardTarget(s: Services, h: Handler, q: Request)
    ensures var (reply, h') := ProxyRequest(s, h, q);
      if reply.Forwarded? then
        && q.id in s
        && reply.target == (if q.id in h.targets then h.targets[q.id] else s[q.id].manifest.baseUrl)
        && h'.targets == h.targets[q.id := reply.target]
      else h'.targets == h.targets
  {
  }

  /** A cached target is dropped by the continuation of an update of its service only, and set by its requests only. */
  lemma CacheMoves(g: Gateway, e: GatewayEvent, id: string)
    ensures var was, h' := g.handler, GatewayStep(g, e).handler;
      var dropped := e == Local(Written(Await(id, true))) && Await(id, true) in g.reg.awaiting;
      var forwarded := e.Proxied? && e.q.id == id && ProxyRequest(g.reg.services, was, e.q).0.Forwarded?;
      && (id in h'.targets <==> (id in was.targets && !dropped) || forwarded)
      && (id in was.targets && id in h'.targets ==> h'.targets[id] == was.targets[id])
      && h'.namespace == was.namespace
  {
  }

  /** A forwarded request goes to its service's address, or an update awaits Redis, exactly with a coherent cache. */
  lemma MisdirectedExactly(g: Gateway, q: Request)
    requires ProxyRequest(g.reg.services, g.handler, q).0.Forwarded?
    ensures q.id in g.reg.services
    ensures Coherent(g, q.id)
            <==> || ProxyRequest(g.reg.services, g.handler, q).0.target == g.reg.services[q.id].manifest.baseUrl
                 || Await(q.id, true) in g.reg.awaiting
  {
    ForwardTarget(g.reg.services, g.handler, q);
  }

  /** In every run without an unsafe event a request goes to its service's address, or an update awaits Redis. */
  lemma ForwardedToCurrent(g: Gateway, events: seq<GatewayEvent>, q: Request)
    requires Coherent(g, q.id) && AllSafe(g, events, q.id)
    ensures var g' := GatewayRun(g, events); var reply := ProxyRequest(g'.reg.services, g'.handler, q).0;
      reply.Forwarded? ==>
        && q.id in g'.reg.services
        && (reply.target == g'.reg.services[q.id].manifest.baseUrl || Await(q.id, true) in g'.reg.awaiting)
  {
    CacheCoherence(g, events, q.id);
    if ProxyRequest(GatewayRun(g, events).reg.services, GatewayRun(g, events).handler, q).0.Forwarded? {
      MisdirectedExactly(GatewayRun(g, events), q);
    }
  }

  /** In all runs a request is forwarded to an address that its service once had. */
  lemma ForwardedToHeld(g: Gateway, events: seq<GatewayEvent>, q: Request)
    requires g.handler.targets == map[]
    ensures var g' := GatewayRun(g, events); var reply := ProxyRequest(g'.reg.services, g'.handler, q).0;
      reply.Forwarded? ==> reply.target in Held(g, events, q.id)
  {
    CachedTargetWasHeld(g, events, q.id);
    ForwardTarget(GatewayRun(g, events).reg.services, GatewayRun(g, events).handler, q);
  }

  // ---------------------------------------------------------------- from registration to forward

  /** What of a run the registry sees. */
  function Locals(events: seq<GatewayEvent>): seq<Event> {
    if events == [] then []
    else
      var e := events[|events| - 1];
      Locals(events[..|events| - 1]) + if e.Local? then [e.e] else []
  }

  lemma RunOneMore(r: Registry, events: seq<Event>, e: Event)
    ensures Run(r, events + [e]) == Step(Run(r, events), e)
  {
    assert (events + [e])[..|events|] == events;
  }

  lemma LastLocal(g: Gateway, before: seq<GatewayEvent>, e: GatewayEvent, locals: seq<Event>)
    requires GatewayRun(g, before).reg == Run(g.reg, locals)
    ensures GatewayStep(GatewayRun(g, before), e).reg == Run(g.reg, locals + if e.Local? then [e.e] else [])
  {
    if e.Local? {
      RunOneMore(g.reg, locals, e.e);
    } else {
      assert locals + [] == locals;
    }
  }

  /** Requests and upstream outcomes never touch the registry: it runs on its own events. */
  lemma {:induction false} RegistryRunsAlone(g: Gateway, events: seq<GatewayEvent>)
    ensures GatewayRun(g, events).reg == Run(g.reg, Locals(events))
  {
    if events != [] {
      var before := events[..|events| - 1];
      RegistryRunsAlone(g, before);
      LastLocal(g, before, events[|events| - 1], Locals(before));
    }
  }

  ghost predicate NeverRetired(events: seq<Event>, id: string) {
    forall i | 0 <= i < |events| && events[i].Retire? :: events[i].id != id
  }

  /** A service is retired by retiring it only. */
  lemma {:induction false} StaysUnretired(r: Registry, events: seq<Event>, id: string)
    requires id in r.services && !r.services[id].status.Retired?
    requires RR.Undisturbed(events, id) && NeverRetired(events, id)
    ensures id in Run(r, events).services && !Run(r, events).services[id].status.Retired?
  {
    if events != [] {
      var before := events[..|events| - 1];
      assert RR.Undisturbed(before, id);
      StaysUnretired(r, before, id);
      RR.LifecycleStep(Run(r, before), id, events[|events| - 1]);
    }
  }

  /** A registered service is what its manifest made it, until it is retired, displaced or registered again. */
  lemma RegistrationHolds(r: Registry, m: Manifest, now: int, events: seq<Event>)
    requires Rewritten(r.services, Register(m, now)).Ok?
    requires RR.Undisturbed(events, m.serviceId) && NeverRetired(events, m.serviceId)
    requires RR.NotRegistered(Step(r, Register(m, now)), events, m.serviceId)
    ensures var s := Run(Step(r, Register(m, now)), events).services;
      && m.serviceId in s && !s[m.serviceId].status.Retired?
      && s[m.serviceId].manifest.baseUrl == m.baseUrl && s[m.serviceId].manifest.requiredScopes == m.requiredScopes
      && s[m.serviceId].manifest.consumes == m.consumes
      && (s[m.serviceId].serviceType.Shared? <==> m.serviceType == Some(Shared))
  {
    var r1 := Step(r, Register(m, now));
    if m.serviceId in r.services {
      RE.UpdateExactly(r, m, now);
    } else {
      RE.FirstRegistration(r, m, now);
    }
    StaysUnretired(r1, events, m.serviceId);
    RE.ServesItsManifest(r1, events, m.serviceId);
    var m1 := Run(r1, events).services[m.serviceId].manifest;
    assert RE.Bare(m1) == RE.Bare(m);
    assert RE.Bare(m1).baseUrl == m1.baseUrl && RE.Bare(m1).requiredScopes == m1.requiredScopes;
    assert RE.Bare(m1).consumes == m1.consumes;
  }

  /**
   * From registration to forward: a service registered, and neither retired, displaced nor registered anew
   * since, is forwarded to exactly when its manifest has an address, belongs to the namespace, the caller
   * consumes it with the scopes the manifest asks for, and the breaker admits.
   */
  lemma RegisteredIsServed(g: Gateway, m: Manifest, now: int, events: seq<GatewayEvent>, q: Request)
    requires q.id == m.serviceId && Rewritten(g.reg.services, Register(m, now)).Ok?
    requires RR.Undisturbed(Locals(events), q.id) && NeverRetired(Locals(events), q.id)
    requires RR.NotRegistered(Step(g.reg, Register(m, now)), Locals(events), q.id)
    ensures var g' := GatewayRun(GatewayStep(g, Local(Register(m, now))), events); var s := g'.reg.services;
      ProxyRequest(s, g'.handler, q).0.Forwarded? <==>
        && m.baseUrl != "" && (m.serviceType == Some(Shared) <==> g'.handler.namespace.Shared?)
        && q.tribe in s && q.id in s[q.tribe].manifest.consumes
        && (q.user.Some? ==> forall x | x in m.requiredScopes ::
              x in q.user.value.scopes || x in q.user.value.permissions)
        && CB.Admits(PROXY_BREAKER, BreakerOf(g'.handler, q.id), q.now)
  {
    var g1 := GatewayStep(g, Local(Register(m, now)));
    var g' := GatewayRun(g1, events);
    RegistryRunsAlone(g1, events);
    RegistrationHolds(g.reg, m, now, Locals(events));
    ForwardedExactly(g'.reg.services, g'.handler, q);
  }

  // ---------------------------------------------------------------- the breaker of a service

  /** The breaker of a service that is CLOSED opens on the fifth failure in a row of its upstream. */
  lemma OpensOnFifthFailure(g: Gateway, events: seq<GatewayEvent>, id: string, now: int)
    requires g.handler.breakers == map[] && id in GatewayRun(g, events).handler.breakers
    requires BreakerOf(GatewayRun(g, events).handler, id).state.Closed?
    ensures BreakerOf(GatewayStep(GatewayRun(g, events), Outcome(id, true, now)).handler, id).state.Open?
            <==> CBR.TrailingFailures(BreakerHistory(g, events, id)) + 1 == 5
  {
    var h := BreakerHistory(g, events, id);
    BreakerFollowsHistory(g, events, id);
    CBR.OpensOnThreshold(PROXY_BREAKER, h, now);
    assert (h + [CB.Failure(now)])[..|h|] == h;
  }

  /** A HALF_OPEN breaker of a service closes on the second success since it was entered. */
  lemma ClosesOnSecondSuccess(g: Gateway, events: seq<GatewayEvent>, id: string, now: int) returns (entry: nat)
    requires g.handler.breakers == map[] && id in GatewayRun(g, events).handler.breakers
    requires BreakerOf(GatewayRun(g, events).handler, id).state.HalfOpen?
    ensures CBR.EntersHalfOpen(PROXY_BREAKER, BreakerHistory(g, events, id), entry)
    ensures BreakerOf(GatewayStep(GatewayRun(g, events), Outcome(id, false, now)).handler, id).state.Closed?
            <==> CBR.Successes(BreakerHistory(g, events, id)[entry + 1..]) + 1 == 2
  {
    var h := BreakerHistory(g, events, id);
    BreakerFollowsHistory(g, events, id);
    entry := CBR.ClosesAfterProbes(PROXY_BREAKER, h, CB.Success);
    assert (h + [CB.Success])[..|h|] == h;
  }

  /**
   * A request that passes the gate is refused by its service's breaker exactly while that is OPEN and the
   * latest failure of the upstream lies less than 30 s behind.
   */
  lemma BreakerRefusesExactly(g: Gateway, events: seq<GatewayEvent>, q: Request)
    requires g.handler.breakers == map[]
    requires var g' := GatewayRun(g, events); Gate(g'.reg.services, g'.handler.namespace, q).None?
    ensures var g' := GatewayRun(g, events); var h := BreakerHistory(g, events, q.id);
      ProxyRequest(g'.reg.services, g'.handler, q).0 == Refused(BreakerOpen)
      <==> CBR.StateBy(PROXY_BREAKER, h).Open? && q.now - CBR.LatestFailure(h) < 30000
  {
    BreakerFollowsHistory(g, events, q.id);
    CBR.RefusedExactly(PROXY_BREAKER, BreakerHistory(g, events, q.id), q.now);
  }
}
