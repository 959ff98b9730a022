/** The proxy over whole runs of registry events, requests and late upstream outcomes. */
module ProxyRuns {
  import opened Prelude
  import opened Registry
  import RR = RegistryRuns
  import opened Scopes
  import opened Proxy
  import CB = CircuitBreakers
  import CBR = CircuitBreakerRuns

  ghost predicate Undisturbed(events: seq<GatewayEvent>, id: string) {
    forall i | 0 <= i < |events| && events[i].Local? :: !RR.Displaces(events[i].e, id)
  }

  // ---------------------------------------------------------------- cache coherence

  /** A cached target is the current address of its service, unless an update of that service is awaiting Redis. */
  predicate Coherent(g: Gateway, id: string) {
    id in g.handler.targets ==>
      && id in g.reg.services
      && (g.handler.targets[id] == g.reg.services[id].manifest.baseUrl || Await(id, true) in g.reg.awaiting)
  }

  lemma {:induction false} StepKeepsCoherent(g: Gateway, e: GatewayEvent, id: string)
    requires Coherent(g, id) && (e.Local? ==> !RR.Displaces(e.e, id))
    ensures Coherent(GatewayStep(g, e), id)
  {
    if e.Local? {
      RegistryStepMoves(g.reg, e.e, id);
    }
  }

  /** What one registry event can do to an undisplaced entry's address and to its awaited updates. */
  lemma RegistryStepMoves(r: Registry, e: Event, id: string)
    requires !RR.Displaces(e, id)
    ensures id in r.services ==>
      && id in Step(r, e).services
      && (|| Step(r, e).services[id].manifest.baseUrl == r.services[id].manifest.baseUrl
          || Await(id, true) in Step(r, e).awaiting)
    ensures Await(id, true) in r.awaiting && e != Written(Await(id, true)) ==> Await(id, true) in Step(r, e).awaiting
  {
    if Await(id, true) in r.awaiting && e != Written(Await(id, true)) {
      AwaitedStays(r, e, Await(id, true));
    }
    if id in r.services {
      RR.KeptOrRewritten(r, e, id);
      if e.Register? && e.manifest.serviceId == id && Rewritten(r.services, e).Ok? {
        assert Step(r, e).awaiting == r.awaiting + multiset{Await(id, true)};
      } else {
        assert Core(Step(r, e).services[id]).manifest.baseUrl == Core(r.services[id]).manifest.baseUrl;
      }
    }
  }

  lemma AwaitedStays(r: Registry, e: Event, a: Await)
    requires a in r.awaiting && e != Written(a) && e != WriteFailed(a)
    ensures a in Step(r, e).awaiting
  {
  }

  /**
   * A deregistration, rollback or resync of `id` that leaves no stale target: nothing is cached, or the
   * rollback does not happen, or the resync brings the cached address or an update will drop the target.
   */
  predicate Spares(g: Gateway, e: Event, id: string)
    requires RR.Displaces(e, id)
  {
    || id !in g.handler.targets
    || (e.WriteFailed? && e.await !in g.reg.awaiting)
    || (e.Load? && (|| !g.reg.connected
                    || e.reply[id].manifest.baseUrl == g.handler.targets[id]
                    || Await(id, true) in g.reg.awaiting))
  }

  /** The event does not displace `id`, or spares its cached target. */
  predicate Safe(g: Gateway, e: GatewayEvent, id: string) {
    e.Local? && RR.Displaces(e.e, id) ==> Spares(g, e.e, id)
  }

  /** A step keeps a coherent cache coherent exactly when it is safe. */
  lemma {:induction false} CoherentStep(g: Gateway, e: GatewayEvent, id: string)
    requires Coherent(g, id)
    ensures Coherent(GatewayStep(g, e), id) <==> Safe(g, e, id)
  {
    if !e.Local? || !RR.Displaces(e.e, id) {
      StepKeepsCoherent(g, e, id);
    }
  }

  ghost predicate AlwaysCoherent(g: Gateway, events: seq<GatewayEvent>, id: string) {
    Coherent(GatewayRun(g, events), id) && (events != [] ==> AlwaysCoherent(g, events[..|events| - 1], id))
  }

  ghost predicate AllSafe(g: Gateway, events: seq<GatewayEvent>, id: string) {
    events != [] ==>
      var before := events[..|events| - 1];
      AllSafe(g, before, id) && Safe(GatewayRun(g, before), events[|events| - 1], id)
  }

  /**
   * Cache coherence: throughout a run the cached target of `id` is its current address, except while an
   * update awaits Redis, if and only if every deregistration, rollback and resync of `id` is safe; so in
   * every run without them.
   */
  lemma {:induction false} CacheCoherence(g: Gateway, events: seq<GatewayEvent>, id: string)
    requires Coherent(g, id)
    ensures AlwaysCoherent(g, events, id) <==> AllSafe(g, events, id)
    ensures Undisturbed(events, id) ==> AlwaysCoherent(g, events, id)
  {
    if events != [] {
      var before := events[..|events| - 1];
      assert Undisturbed(events, id) ==> Undisturbed(before, id);
      CacheCoherence(g, before, id);
      if Coherent(GatewayRun(g, before), id) {
        CoherentStep(GatewayRun(g, before), events[|events| - 1], id);
      }
    }
  }

  /**
   * What ends staleness: an update's continuation that drops the target, an accepted update, a first
   * registration or a resync that brings the cached address (or finds an update still awaiting Redis).
   */
  predicate Heals(g: Gateway, e: GatewayEvent, id: string)
    requires id in g.handler.targets
  {
    var target, awaited := g.handler.targets[id], Await(id, true) in g.reg.awaiting;
    match e
    case Local(Written(a)) => awaited && a == Await(id, true)
    case Local(Register(m, _)) =>
      && RR.Registers(g.reg, e.e, id)
      && (id in g.reg.services || m.baseUrl == target || awaited)
    case Local(Load(reply)) => g.reg.connected && id in reply && (reply[id].manifest.baseUrl == target || awaited)
    case _ => false
  }

  /** An event that neither registers nor resyncs `id` leaves a stale entry's address as it was, or takes it away. */
  lemma StaleEntryStays(r: Registry, e: Event, id: string)
    requires !RR.Registers(r, e, id) && !(e.Load? && id in e.reply)
    ensures id in Step(r, e).services ==>
      id in r.services && Step(r, e).services[id].manifest.baseUrl == r.services[id].manifest.baseUrl
  {
    if id in r.services && !RR.Displaces(e, id) {
      RR.KeptOrRewritten(r, e, id);
      assert Core(Step(r, e).services[id]).manifest.baseUrl == Core(r.services[id]).manifest.baseUrl;
    }
  }

  lemma NoUpdateAwaited(r: Registry, e: Event, id: string)
    requires !RR.Registers(r, e, id)
    ensures Await(id, true) in Step(r, e).awaiting ==> Await(id, true) in r.awaiting
  {
  }

  /** A stale target stays stale until exactly one of these. */
  lemma {:induction false} StaleUntilHealed(g: Gateway, e: GatewayEvent, id: string)
    requires !Coherent(g, id)
    ensures Coherent(GatewayStep(g, e), id) <==> Heals(g, e, id)
  {
    if e.Local? {
      if RR.Registers(g.reg, e.e, id) {
        assert Step(g.reg, e.e).awaiting == g.reg.awaiting + multiset{Await(id, id in g.reg.services)};
      } else if !(e.e.Load? && id in e.e.reply) {
        StaleEntryStays(g.reg, e.e, id);
        NoUpdateAwaited(g.reg, e.e, id);
      }
    }
  }

  /** The addresses that `id` has had, at the start or after any step of the run. */
  function Held(g: Gateway, events: seq<GatewayEvent>, id: string): set<string> {
    var s := GatewayRun(g, events).reg.services;
    (if id in s then {s[id].manifest.baseUrl} else {})
    + (if events == [] then {} else Held(g, events[..|events| - 1], id))
  }

  /** In every run, displaced or not, a cached target is an address the service once had. */
  lemma {:induction false} CachedTargetWasHeld(g: Gateway, events: seq<GatewayEvent>, id: string)
    requires g.handler.targets == map[]
    ensures var h := GatewayRun(g, events).handler; id in h.targets ==> h.targets[id] in Held(g, events, id)
  {
    if events != [] {
      var before := events[..|events| - 1];
      CachedTargetWasHeld(g, before, id);
      TargetComesFrom(GatewayRun(g, before), events[|events| - 1], id);
    }
  }

  lemma TargetComesFrom(g: Gateway, e: GatewayEvent, id: string)
    ensures var h' := GatewayStep(g, e).handler;
      id in h'.targets ==>
        || (id in g.handler.targets && h'.targets[id] == g.handler.targets[id])
        || (id in g.reg.services && h'.targets[id] == g.reg.services[id].manifest.baseUrl)
  {
  }

  /** Removing a service and registering it again elsewhere leaves the old target cached, with no update awaited. */
  lemma StaleAfterReregistration(g: Gateway, m: Manifest, now: int)
    requires m.serviceId in g.handler.targets && m.serviceId in g.reg.services
    requires m.baseUrl != g.handler.targets[m.serviceId] && Await(m.serviceId, true) !in g.reg.awaiting
    ensures var g1 := GatewayStep(g, Local(Deregister(m.serviceId)));
            var g2 := GatewayStep(g1, Local(Register(m, now)));
            var g3 := GatewayStep(g2, Local(Written(Await(m.serviceId, false))));
            && g3.reg.services[m.serviceId].manifest == m
            && g3.handler.targets[m.serviceId] == g.handler.targets[m.serviceId]
            && !Coherent(g3, m.serviceId)
  {
  }

  // ---------------------------------------------------------------- lifecycle gate

  /** A retired service is never forwarded to, in any run that does not displace it. */
  lemma {:induction false} RetiredNeverForwarded(g: Gateway, events: seq<GatewayEvent>, q: Request)
    requires RR.IsRetired(g.reg, q.id) && Undisturbed(events, q.id)
    ensures RR.IsRetired(GatewayRun(g, events).reg, q.id)
    ensures var g' := GatewayRun(g, events); ProxyRequest(g'.reg.services, g'.handler, q).0.Refused?
  {
    if events != [] {
      var before, e := events[..|events| - 1], events[|events| - 1];
      assert Undisturbed(before, q.id);
      RetiredNeverForwarded(g, before, q);
      if e.Local? {
        RR.LeavesRetirementExactly(GatewayRun(g, before).reg, q.id, e.e);
      }
    }
  }

  /** What it takes to be forwarded: each gate passed, and the breaker willing. */
  lemma ForwardedExactly(s: Services, h: Handler, q: Request)
    ensures ProxyRequest(s, h, q).0.Forwarded? <==>
      && q.id in s && s[q.id].manifest.baseUrl != "" && s[q.id].serviceType == h.namespace && !s[q.id].status.Retired?
      && q.tribe in s && q.id in s[q.tribe].manifest.consumes
      && (q.user.Some? ==> forall x | x in s[q.id].manifest.requiredScopes ::
            x in q.user.value.scopes || x in q.user.value.permissions)
      && CB.Admits(PROXY_BREAKER, BreakerOf(h, q.id), q.now)
  {
    if q.id in s && q.user.Some? {
      var missing := CheckScopes(q.user, s[q.id].manifest.requiredScopes);
      if missing != [] {
        assert missing[0] in missing;
      }
    }
  }

  /** Health plays no part: a request meets the same gate whatever the health flag of its target. */
  lemma GateIgnoresHealth(s: Services, namespace: ServiceType, q: Request, healthy: Option<bool>)
    requires q.id in s
    ensures Gate(s[q.id := s[q.id].(healthy := healthy)], namespace, q) == Gate(s, namespace, q)
  {
  }

  /**
   * From issue to forward: a request with a token issued to `service` from registry `issued` is
   * forwarded exactly when the breaker admits it, if its target is live in this namespace, still
   * consumed, and asks for no more scopes than it did.
   */
  lemma IssuedTokenIsForwarded(service: Entry, issued: Services, g: Gateway, q: Request)
    requires q.user.Some? && forall x | Entitled(service, issued, x) :: x in q.user.value.scopes
    requires q.id in issued && q.id in service.manifest.consumes
    requires q.tribe in g.reg.services && q.id in g.reg.services[q.tribe].manifest.consumes
    requires q.id in g.reg.services && g.reg.services[q.id].manifest.baseUrl != ""
    requires g.reg.services[q.id].serviceType == g.handler.namespace && !g.reg.services[q.id].status.Retired?
    requires forall x | x in g.reg.services[q.id].manifest.requiredScopes :: x in issued[q.id].manifest.requiredScopes
    ensures ProxyRequest(g.reg.services, g.handler, q).0.Forwarded?
            <==> CB.Admits(PROXY_BREAKER, BreakerOf(g.handler, q.id), q.now)
  {
    IssuedTokenPasses(service, issued, g.reg.services, q.tribe, q.id, q.user.value);
  }

  // ---------------------------------------------------------------- breakers

  /** What the breaker of `id` has seen: requests that passed the gate, and the outcomes of its upstream. */
  function BreakerHistory(g: Gateway, events: seq<GatewayEvent>, id: string): seq<CB.Event> {
    if events == [] then []
    else
      var before, e := events[..|events| - 1], events[|events| - 1];
      var was, h := GatewayRun(g, before), BreakerHistory(g, before, id);
      match e
      case Local(_) => h
      case Proxied(q) =>
        if q.id == id && Gate(was.reg.services, was.handler.namespace, q).None? then h + [CB.Acquire(q.now)] else h
      case Outcome(i, failed, now) =>
        if i == id && id in was.handler.breakers then h + [if failed then CB.Failure(now) else CB.Success] else h
  }

  /** Each service's breaker is that of its own history, so what holds over breaker histories holds in the proxy. */
  lemma {:induction false} BreakerFollowsHistory(g: Gateway, events: seq<GatewayEvent>, id: string)
    requires g.handler.breakers == map[]
    ensures BreakerOf(GatewayRun(g, events).handler, id) == CBR.After(PROXY_BREAKER, BreakerHistory(g, events, id))
  {
    if events != [] {
      var before, e := events[..|events| - 1], events[|events| - 1];
      BreakerFollowsHistory(g, before, id);
      var h, h' := BreakerHistory(g, before, id), BreakerHistory(g, events, id);
      if h' != h {
        assert h'[..|h'| - 1] == h;
      }
      BreakerMoves(GatewayRun(g, before), e, id);
    }
  }

  /** The breaker of `id` takes the step that its history gains, if any. */
  lemma BreakerMoves(g: Gateway, e: GatewayEvent, id: string)
    ensures var b, b' := BreakerOf(g.handler, id), BreakerOf(GatewayStep(g, e).handler, id);
      match e
      case Local(_) => b' == b
      case Proxied(q) =>
        var asked := q.id == id && Gate(g.reg.services, g.handler.namespace, q).None?;
        b' == if asked then CB.Step(PROXY_BREAKER, b, CB.Acquire(q.now)) else b
      case Outcome(i, failed, now) =>
        var told := i == id && id in g.handler.breakers;
        b' == if told then CB.Step(PROXY_BREAKER, b, if failed then CB.Failure(now) else CB.Success) else b
  {
  }

  /** The proxy fails fast: less than 30 s after a failure that left the breaker open, no request is forwarded. */
  lemma ProxyFailsFast(g: Gateway, events: seq<GatewayEvent>, i: nat, q: Request)
    requires g.handler.breakers == map[]
    requires var h := BreakerHistory(g, events, q.id);
      && i < |h| && h[i].Failure? && CBR.After(PROXY_BREAKER, h[..i + 1]).state.Open?
      && CBR.Ordered(h) && (forall j | 0 <= j < |h| && CBR.Timed(h[j]) :: h[j].now <= q.now)
      && q.now < h[i].now + 30000
    ensures var g' := GatewayRun(g, events); ProxyRequest(g'.reg.services, g'.handler, q).0.Refused?
  {
    var h := BreakerHistory(g, events, q.id);
    NoResets(g, events, q.id);
    CBR.FailsFast(PROXY_BREAKER, h, i, q.now);
    BreakerFollowsHistory(g, events, q.id);
  }

  lemma {:induction false} NoResets(g: Gateway, events: seq<GatewayEvent>, id: string)
    ensures forall j | 0 <= j < |BreakerHistory(g, events, id)| :: !BreakerHistory(g, events, id)[j].Reset?
  {
    if events != [] {
      NoResets(g, events[..|events| - 1], id);
    }
  }
}
