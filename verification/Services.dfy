/**
 * The stateful services of one container: RegistryService, HealthMonitorService and ProxyHandler.
 * A method that awaits is split at its await; each method performs one step of the models.
 */
module Services {
  import opened Prelude
  import Semver
  import opened Registry
  import opened Scopes
  import opened Proxy
  import opened RegistryEntries
  import Replication
  import CB = CircuitBreakers

  class RegistryService {
    /** Redis was reachable at start-up. */
    const connected: bool
    var services: map<string, Entry>
    /** The value last given to the registry gauge. */
    var gauge: int
    /** The commands issued to Redis so far. */
    var outbox: seq<Command>
    var cacheInvalidationListeners: set<ProxyHandler>
    /** Registrations suspended at their Redis write. */
    ghost var awaiting: multiset<Await>

    ghost function Model(): Registry
      reads this
    {
      Registry(connected, services, gauge, outbox, awaiting)
    }

    constructor (connected: bool)
      ensures Model() == Empty(connected) && cacheInvalidationListeners == {}
    {
      this.connected := connected;
      services, gauge, outbox, cacheInvalidationListeners, awaiting := map[], 0, [], {}, multiset{};
    }

    method OnCacheInvalidation(listener: ProxyHandler)
      modifies this`cacheInvalidationListeners
      ensures cacheInvalidationListeners == old(cacheInvalidationListeners) + {listener}
    {
      cacheInvalidationListeners := cacheInvalidationListeners + {listener};
    }

    method NotifyCacheInvalidation(serviceId: string)
      modifies cacheInvalidationListeners`proxyCache
      ensures forall h | h in cacheInvalidationListeners :: h.proxyCache == old(h.proxyCache) - {serviceId}
    {
      var left := cacheInvalidationListeners;
      while left != {}
        invariant left <= cacheInvalidationListeners
        invariant forall h | h in cacheInvalidationListeners ::
          h.proxyCache == if h in left then old(h.proxyCache) else old(h.proxyCache) - {serviceId}
        decreases left
      {
        var listener :| listener in left;
        listener.InvalidateProxyCache(serviceId);
        left := left - {listener};
      }
    }

    method SyncMetricsGauge()
      modifies this`gauge
      ensures Model() == Synced(old(Model()))
    {
      var active := set id | id in services && (services[id].status == Active || services[id].status == Deprecated);
      assert active == ActiveIds(services);
      gauge := |active|;
    }

    method PersistToRedis(serviceId: string, entry: Entry)
      modifies this`outbox
      ensures Model() == Issue(old(Model()), HSet(serviceId, entry))
    {
      if connected {
        outbox := outbox + [HSet(serviceId, entry)];
      }
    }

    method ValidateVersionUpgrade(currentVersion: string, newVersion: string) returns (r: Result<(), Error>)
      ensures r == (if Semver.Parse(currentVersion).Some? && Semver.Parse(newVersion).Some?
                       && Semver.Parse(newVersion).value.major < Semver.Parse(currentVersion).value.major
                    then Err(Validation) else Ok(()))
    {
      var current := Semver.Parse(currentVersion);
      var next := Semver.Parse(newVersion);
      if current.None? || next.None? {
        return Ok(());
      }
      r := if next.value.major < current.value.major then Err(Validation) else Ok(());
    }

    /** The checks at the head of register, with the version that the new one replaces. */
    method CheckRegistration(existing: Option<Entry>, manifest: Manifest) returns (r: Result<Option<string>, Error>)
      ensures RegisterError(existing, manifest) == if r.Err? then Some(r.error) else None
      ensures r.Ok? ==> r.value == NewEntry(existing, manifest, 0).previousVersion
    {
      var previousVersion: Option<string> := None;
      if existing.Some? && Truthy(manifest.version) && Truthy(existing.value.manifest.version) {
        previousVersion := existing.value.manifest.version;
        var upgrade := ValidateVersionUpgrade(previousVersion.value, manifest.version.value);
        if upgrade.Err? {
          return Err(upgrade.error);
        }
      }
      if existing.Some? && existing.value.status == Retired {
        return Err(Conflict);
      }
      r := Ok(previousVersion);
    }

    /** register up to its await; on success the registration is awaiting its Redis write. */
    method RegisterStart(manifest: Manifest, now: int) returns (r: Result<(Entry, Await), Error>)
      modifies this`services, this`gauge, this`outbox, this`awaiting
      ensures Model() == Step(old(Model()), Register(manifest, now))
      ensures r.Err? ==> Err(r.error) == Rewritten(old(services), Register(manifest, now))
      ensures r.Ok? ==> Ok(r.value.0) == Rewritten(old(services), Register(manifest, now))
                        && r.value.1 == Await(manifest.serviceId, manifest.serviceId in old(services))
                        && r.value.1 in awaiting
    {
      var existing := Get(services, manifest.serviceId);
      var checked := CheckRegistration(existing, manifest);
      if checked.Err? {
        return Err(checked.error);
      }
      var entry := Entry(
        manifest,
        match manifest.serviceType case Some(t) => t case None => Tribe,
        if existing.Some? then existing.value.registeredAt else now,
        now,
        if existing.Some? && existing.value.status == Deprecated then Deprecated else Active,
        checked.value, None, None);
      assert entry == NewEntry(existing, manifest, now);
      services := services[manifest.serviceId := entry];
      SyncMetricsGauge();
      PersistToRedis(manifest.serviceId, entry);
      var await := Await(manifest.serviceId, existing.Some?);
      awaiting := awaiting + multiset{await};
      r := Ok((entry, await));
    }

    /** The continuation of register after its write succeeded. */
    method RegisterWritten(await: Await)
      requires await in awaiting
      modifies this`awaiting, cacheInvalidationListeners`proxyCache
      ensures Model() == Step(old(Model()), Written(await))
      ensures forall h | h in cacheInvalidationListeners ::
        h.proxyCache ==
          if Invalidates(old(Model()), Written(await)) then old(h.proxyCache) - {await.id} else old(h.proxyCache)
    {
      awaiting := awaiting - multiset{await};
      if await.isUpdate {
        NotifyCacheInvalidation(await.id);
      }
    }

    /** The rollback in persistToRedisStrict after its write failed or timed out. */
    method RegisterFailed(await: Await) returns (error: Error)
      requires await in awaiting
      modifies this`services, this`gauge, this`awaiting
      ensures error == WriteFailure && Model() == Step(old(Model()), WriteFailed(await))
    {
      awaiting := awaiting - multiset{await};
      services := services - {await.id};
      SyncMetricsGauge();
      error := WriteFailure;
    }

    method DeregisterService(serviceId: string) returns (r: Result<(), Error>)
      modifies this`services, this`gauge, this`outbox
      ensures Model() == Step(old(Model()), Deregister(serviceId))
      ensures r == if serviceId in old(services) then Ok(()) else Err(NotFound)
    {
      if serviceId !in services {
        return Err(NotFound);
      }
      services := services - {serviceId};
      SyncMetricsGauge();
      if connected {
        outbox := outbox + [HDel(serviceId)];
      }
      r := Ok(());
    }

    method DeprecateService(serviceId: string, sunsetDate: Option<string>, replacementService: Option<string>, now: int)
      returns (r: Result<Entry, Error>)
      modifies this`services, this`outbox
      ensures Model() == Step(old(Model()), Deprecate(serviceId, sunsetDate, replacementService, now))
      ensures r == Rewritten(old(services), Deprecate(serviceId, sunsetDate, replacementService, now))
    {
      if serviceId !in services {
        return Err(NotFound);
      }
      var entry := services[serviceId];
      if entry.status == Retired {
        return Err(Conflict);
      }
      entry := entry.(status := Deprecated);
      entry := entry.(updatedAt := now);
      if Truthy(sunsetDate) {
        entry := entry.(manifest := entry.manifest.(sunsetDate := sunsetDate));
      }
      if Truthy(replacementService) {
        entry := entry.(manifest := entry.manifest.(replacementService := replacementService));
      }
      services := services[serviceId := entry];
      PersistToRedis(serviceId, entry);
      r := Ok(entry);
    }

    method RetireService(serviceId: string, now: int) returns (r: Result<Entry, Error>)
      modifies this`services, this`gauge, this`outbox
      ensures Model() == Step(old(Model()), Retire(serviceId, now))
      ensures r == Rewritten(old(services), Retire(serviceId, now))
    {
      if serviceId !in services {
        return Err(NotFound);
      }
      var entry := services[serviceId].(status := Retired, updatedAt := now);
      services := services[serviceId := entry];
      PersistToRedis(serviceId, entry);
      SyncMetricsGauge();
      r := Ok(entry);
    }

    method ActivateService(serviceId: string, now: int) returns (r: Result<Entry, Error>)
      modifies this`services, this`gauge, this`outbox
      ensures Model() == Step(old(Model()), Activate(serviceId, now))
      ensures r == Rewritten(old(services), Activate(serviceId, now))
    {
      if serviceId !in services {
        return Err(NotFound);
      }
      var entry := services[serviceId];
      if entry.status != Proposed && entry.status != Deprecated {
        return Err(Conflict);
      }
      entry := entry.(status := Active, updatedAt := now);
      entry := entry.(manifest := entry.manifest.(sunsetDate := None, replacementService := None));
      services := services[serviceId := entry];
      PersistToRedis(serviceId, entry);
      SyncMetricsGauge();
      r := Ok(entry);
    }

    /** True when the flag changed. */
    method SetHealthStatus(serviceId: string, healthy: bool, now: int) returns (changed: bool)
      modifies this`services, this`outbox
      ensures Model() == Step(old(Model()), SetHealth(serviceId, healthy, now))
      ensures changed == Rewritten(old(services), SetHealth(serviceId, healthy, now)).Ok?
    {
      if serviceId !in services {
        return false;
      }
      var entry := services[serviceId];
      var previous := match entry.healthy case Some(h) => h case None => true;
      if previous == healthy {
        return false;
      }
      entry := entry.(healthy := Some(healthy), lastHealthCheckAt := Some(now));
      entry := entry.(updatedAt := now);
      services := services[serviceId := entry];
      PersistToRedis(serviceId, entry);
      changed := true;
    }

    method TouchHealthCheck(serviceId: string, now: int)
      modifies this`services
      ensures Model() == Step(old(Model()), Touch(serviceId, now))
    {
      if serviceId in services {
        services := services[serviceId := services[serviceId].(lastHealthCheckAt := Some(now))];
      }
    }

    /** loadFromRedis once its HGETALL reply has arrived: entries overwrite memory one by one. */
    method LoadFromRedis(reply: map<string, Entry>)
      modifies this`services
      ensures Model() == Step(old(Model()), Load(reply))
    {
      if !connected {
        return;
      }
      var left := reply.Keys;
      while left != {}
        invariant left <= reply.Keys
        invariant services == old(services) + (reply - left)
        decreases left
      {
        var serviceId :| serviceId in left;
        services := services[serviceId := reply[serviceId]];
        left := left - {serviceId};
      }
      assert reply - left == reply;
    }
  }

  /** A SERVICE_HEALTH_CHANGED event. */
  datatype HealthChanged = HealthChanged(serviceId: string, healthy: bool, previousHealthy: bool)

  class HealthMonitorService {
    const registry: RegistryService
    var reconciliationRunning: bool
    /** Events published, in order. */
    var published: seq<HealthChanged>

    constructor (registry: RegistryService)
      ensures this.registry == registry && !reconciliationRunning && published == []
    {
      this.registry := registry;
      reconciliationRunning, published := false, [];
    }

    /** The result of one probe of a sweep: a transition is published, anything else only touches the entry. */
    method RecordProbe(serviceId: string, alive: bool, now: int)
      modifies this`published, registry`services, registry`outbox
      ensures registry.Model() == Probed(old(registry.Model()), serviceId, alive, now)
      ensures published == old(published) +
        if Rewritten(old(registry.services), SetHealth(serviceId, alive, now)).Ok?
        then [HealthChanged(serviceId, alive, HealthOf(old(registry.services)[serviceId]))] else []
    {
      if alive {
        var changed := registry.SetHealthStatus(serviceId, true, now);
        if changed {
          published := published + [HealthChanged(serviceId, true, false)];
        } else {
          registry.TouchHealthCheck(serviceId, now);
        }
      } else {
        var changed := registry.SetHealthStatus(serviceId, false, now);
        if changed {
          published := published + [HealthChanged(serviceId, false, true)];
        } else {
          registry.TouchHealthCheck(serviceId, now);
        }
      }
    }

    /** The comparison of the drift check, with its loop over the keys of Redis. */
    method FindDrift(redisEntries: map<string, Entry>, memoryEntries: map<string, Entry>) returns (d: Replication.Drift)
      ensures d == Replication.DriftOf(redisEntries, memoryEntries)
    {
      var missingInMemory := set k | k in redisEntries && k !in memoryEntries;
      var missingInRedis := set k | k in memoryEntries && k !in redisEntries;
      var diverged: seq<string> := [];
      var left := redisEntries.Keys;
      while left != {}
        invariant left <= redisEntries.Keys
        invariant forall k :: k in diverged <==>
          && k in redisEntries && k !in left && k in memoryEntries
          && redisEntries[k].updatedAt != memoryEntries[k].updatedAt
        decreases left
      {
        var key :| key in left;
        if key in memoryEntries && redisEntries[key].updatedAt != memoryEntries[key].updatedAt {
          diverged := diverged + [key];
        }
        left := left - {key};
      }
      d := Replication.Drift(missingInMemory, missingInRedis, set k | k in diverged);
    }

    /**
     * One reconciliation: `compared` and `loaded` are the replies to its two reads. The first is None when
     * Redis is unavailable, either is None when the read throws, which ends the pass.
     */
    method HandleRedisDriftReconciliation(compared: Option<map<string, Entry>>, loaded: Option<map<string, Entry>>)
      modifies this`reconciliationRunning, registry`services
      ensures reconciliationRunning == old(reconciliationRunning)
      ensures registry.Model() ==
        if || old(reconciliationRunning) || compared.None? || loaded.None?
           || Replication.DriftOf(compared.value, old(registry.services)) == Replication.NO_DRIFT
        then old(registry.Model())
        else Step(old(registry.Model()), Load(loaded.value))
    {
      if reconciliationRunning {
        return;
      }
      reconciliationRunning := true;
      if compared.Some? {
        var drift := FindDrift(compared.value, registry.services);
        var hasDrift := drift.missingInMemory != {} || drift.missingInRedis != {} || drift.diverged != {};
        if hasDrift && loaded.Some? {
          registry.LoadFromRedis(loaded.value);
        }
      }
      reconciliationRunning := false;
    }
  }

  class ProxyHandler {
    const registry: RegistryService
    const namespace: ServiceType
    var proxyCache: map<string, string>
    var circuitBreakers: map<string, CB.CircuitBreaker>

    constructor (registry: RegistryService, namespace: ServiceType)
      modifies registry`cacheInvalidationListeners
      ensures Valid() && this.registry == registry && Model() == Handler(namespace, map[], map[])
      ensures registry.cacheInvalidationListeners == old(registry.cacheInvalidationListeners) + {this}
    {
      this.registry, this.namespace := registry, namespace;
      proxyCache, circuitBreakers := map[], map[];
      new;
      registry.OnCacheInvalidation(this);
      assert Model().breakers == map[];
    }

    /** Every service has a breaker of its own, with the proxy's settings. */
    ghost predicate Valid()
      reads this
    {
      && (forall id | id in circuitBreakers :: circuitBreakers[id].config == PROXY_BREAKER)
      && (forall i, j | i in circuitBreakers && j in circuitBreakers && i != j ::
            circuitBreakers[i] != circuitBreakers[j])
    }

    ghost function Model(): Handler
      reads this, circuitBreakers.Values
    {
      Handler(namespace, proxyCache, map id | id in circuitBreakers :: circuitBreakers[id].Model())
    }

    method InvalidateProxyCache(serviceId: string)
      modifies this`proxyCache
      ensures proxyCache == old(proxyCache) - {serviceId}
    {
      proxyCache := proxyCache - {serviceId};
    }

    method GetOrCreateCircuitBreaker(serviceId: string) returns (breaker: CB.CircuitBreaker)
      requires Valid()
      modifies this`circuitBreakers
      ensures Valid()
      ensures serviceId in circuitBreakers && circuitBreakers[serviceId] == breaker
      ensures serviceId in old(circuitBreakers) ==> circuitBreakers == old(circuitBreakers)
      ensures serviceId !in old(circuitBreakers) ==>
        circuitBreakers == old(circuitBreakers)[serviceId := breaker] && fresh(breaker) && breaker.Model() == CB.FRESH
    {
      if serviceId in circuitBreakers {
        return circuitBreakers[serviceId];
      }
      breaker := new CB.CircuitBreaker(Some(5), Some(30000), Some(2));
      circuitBreakers := circuitBreakers[serviceId := breaker];
    }

    method EnforceGates(q: Request) returns (refusal: Option<Refusal>)
      ensures refusal == Gate(registry.services, namespace, q)
    {
      var s := registry.services;
      var upstream := if q.id in s then s[q.id].manifest.baseUrl else "";
      if upstream == "" {
        return Some(Refusal.UnknownService);
      }
      var entry := s[q.id];
      if entry.serviceType != namespace {
        return Some(WrongNamespace);
      }
      if entry.status == Retired {
        return Some(Gone);
      }
      if q.tribe !in s || q.id !in s[q.tribe].manifest.consumes {
        return Some(NotConsumer);
      }
      var requiredScopes := entry.manifest.requiredScopes;
      if |requiredScopes| > 0 && q.user.Some? {
        var missing := CheckScopes(q.user, requiredScopes);
        if |missing| > 0 {
          return Some(MissingScopes(missing));
        }
      }
      refusal := None;
    }

    /** Step 3 of proxyRequest: the breaker of the service, created if needed, is asked to admit the request. */
    method AcquireBreaker(serviceId: string, now: int) returns (admitted: bool)
      requires Valid()
      modifies this`circuitBreakers, circuitBreakers.Values
      ensures Valid()
      ensures (admitted, Model()) == AskBreaker(old(Model()), serviceId, now)
    {
      ghost var was := Model();
      var breaker := GetOrCreateCircuitBreaker(serviceId);
      ghost var before := breaker.Model();
      assert before == BreakerOf(was, serviceId);
      admitted := breaker.TryAcquire(now);
      OnlyOneMoved(was, breaker, serviceId);
    }

    /** When one breaker has moved, the model differs from an earlier one in that breaker's entry only. */
    lemma OnlyOneMoved(was: Handler, breaker: CB.CircuitBreaker, serviceId: string)
      requires serviceId in circuitBreakers && circuitBreakers[serviceId] == breaker
      requires was.namespace == namespace && was.targets == proxyCache
      requires circuitBreakers.Keys == was.breakers.Keys + {serviceId}
      requires forall id | id in was.breakers && id != serviceId :: circuitBreakers[id].Model() == was.breakers[id]
      ensures Model() == was.(breakers := was.breakers[serviceId := breaker.Model()])
    {
    }

    /** Steps 3 to 5 of proxyRequest. */
    method ForwardRequest(q: Request) returns (reply: Reply)
      requires Valid() && q.id in registry.services
      modifies this`proxyCache, this`circuitBreakers, circuitBreakers.Values
      ensures Valid()
      ensures (reply, Model()) == Forward(registry.services, old(Model()), q)
    {
      ghost var was := Model();
      var admitted := AcquireBreaker(q.id, q.now);
      if !admitted {
        return Refused(BreakerOpen);
      }
      ghost var asked := Model();
      if q.id !in proxyCache {
        proxyCache := proxyCache[q.id := registry.services[q.id].manifest.baseUrl];
      }
      reply := Forwarded(proxyCache[q.id]);
      assert Model().breakers == asked.breakers;
      assert proxyCache == was.targets[q.id := reply.target];
    }

    method HandleRequest(q: Request) returns (reply: Reply)
      requires Valid()
      modifies this`proxyCache, this`circuitBreakers, circuitBreakers.Values
      ensures Valid()
      ensures (reply, Model()) == ProxyRequest(registry.services, old(Model()), q)
    {
      var refusal := EnforceGates(q);
      if refusal.Some? {
        return Refused(refusal.value);
      }
      reply := ForwardRequest(q);
    }

    /** The proxyRes and error callbacks: 502, 503, 504 and proxy errors are failures, other responses successes. */
    method HandleOutcome(serviceId: string, status: Option<int>, now: int)
      requires Valid()
      modifies circuitBreakers.Values
      ensures Valid()
      ensures Model() == RecordOutcome(old(Model()), serviceId, status.None? || status.value in {502, 503, 504}, now)
    {
      if serviceId in circuitBreakers {
        ghost var was := Model();
        var cb := circuitBreakers[serviceId];
        if status.None? || status.value in {502, 503, 504} {
          cb.RecordFailure(now);
        } else {
          cb.RecordSuccess();
        }
        assert forall id | id in was.breakers && id != serviceId :: circuitBreakers[id].Model() == was.breakers[id];
      }
    }
  }
}
