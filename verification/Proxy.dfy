/**
 * One proxy handler in front of one registry: the gates a request passes, the cache of proxy
 * targets, and a circuit breaker per service. `GatewayStep` is one synchronous stretch.
 */
module Proxy {
  import opened Prelude
  import opened Registry
  import opened Scopes
  import CB = CircuitBreakers

  datatype Refusal =
    | UnknownService | WrongNamespace | Gone | NotConsumer | MissingScopes(missing: seq<string>) | BreakerOpen

  /** The status of the error that answers a refused request. */
  function HttpStatus(r: Refusal): int {
    match r
    case UnknownService => 404
    case WrongNamespace => 404
    case Gone => 410
    case NotConsumer => 403
    case MissingScopes(_) => 403
    case BreakerOpen => 503
  }

  datatype Reply = Forwarded(target: string) | Refused(reason: Refusal)

  datatype Request = Request(id: string, tribe: string, user: Option<Claims>, now: int)

  const PROXY_BREAKER := CB.Config(5, 30000, 2)

  /** The cached proxy of a service is the upstream address it was created with. */
  datatype Handler = Handler(namespace: ServiceType, targets: map<string, string>, breakers: map<string, CB.Breaker>)

  datatype Gateway = Gateway(reg: Registry, handler: Handler)

  datatype GatewayEvent = Local(e: Event) | Proxied(q: Request) | Outcome(id: string, failed: bool, now: int)

  /** Why a request is refused before its breaker is asked, if it is. */
  function Gate(s: Services, namespace: ServiceType, q: Request): Option<Refusal> {
    if q.id !in s || s[q.id].manifest.baseUrl == "" then Some(Refusal.UnknownService)
    else if s[q.id].serviceType != namespace then Some(WrongNamespace)
    else if s[q.id].status.Retired? then Some(Gone)
    else if !CanConsume(s, q.tribe, q.id) then Some(NotConsumer)
    else if q.user.Some? && CheckScopes(q.user, RequiredScopes(s, q.id)) != [] then
      Some(MissingScopes(CheckScopes(q.user, RequiredScopes(s, q.id))))
    else None
  }

  function BreakerOf(h: Handler, id: string): CB.Breaker {
    if id in h.breakers then h.breakers[id] else CB.FRESH
  }

  /** The breaker of a service, created if needed, is asked to admit a request. */
  function AskBreaker(h: Handler, id: string, now: int): (bool, Handler) {
    var b := BreakerOf(h, id);
    (CB.Admits(PROXY_BREAKER, b, now), h.(breakers := h.breakers[id := CB.Step(PROXY_BREAKER, b, CB.Acquire(now))]))
  }

  /** A request that passed the gate: refused by its breaker, or forwarded to the cached target. */
  function Forward(s: Services, h: Handler, q: Request): (Reply, Handler)
    requires q.id in s
  {
    var (admitted, h') := AskBreaker(h, q.id, q.now);
    if !admitted then (Refused(BreakerOpen), h')
    else
      var target := if q.id in h.targets then h.targets[q.id] else s[q.id].manifest.baseUrl;
      (Forwarded(target), h'.(targets := h.targets[q.id := target]))
  }

  function ProxyRequest(s: Services, h: Handler, q: Request): (Reply, Handler) {
    var refusal := Gate(s, h.namespace, q);
    if refusal.Some? then (Refused(refusal.value), h) else Forward(s, h, q)
  }

  function RecordOutcome(h: Handler, id: string, failed: bool, now: int): Handler {
    if id !in h.breakers then h
    else
      var outcome := if failed then CB.Failure(now) else CB.Success;
      h.(breakers := h.breakers[id := CB.Step(PROXY_BREAKER, h.breakers[id], outcome)])
  }

  /** The continuation of an update notifies the handler, which drops its cached proxy. */
  predicate Invalidates(r: Registry, e: Event) {
    e.Written? && e.await in r.awaiting && e.await.isUpdate
  }

  function GatewayStep(g: Gateway, e: GatewayEvent): Gateway {
    match e
    case Local(le) =>
      Gateway(Step(g.reg, le),
        if Invalidates(g.reg, le) then g.handler.(targets := g.handler.targets - {le.await.id}) else g.handler)
    case Proxied(q) => g.(handler := ProxyRequest(g.reg.services, g.handler, q).1)
    case Outcome(id, failed, now) => g.(handler := RecordOutcome(g.handler, id, failed, now))
  }

  function GatewayRun(g: Gateway, events: seq<GatewayEvent>): Gateway {
    if events == [] then g else GatewayStep(GatewayRun(g, events[..|events| - 1]), events[|events| - 1])
  }
}
