/**
 * The service registry of one container: its memory map, the gauge derived from it, and the Redis
 * commands it has issued. `Step` is one synchronous stretch of RegistryService.
 */
module Registry {
  import opened Prelude
  import Semver

  datatype Status = Proposed | Active | Deprecated | Retired

  datatype ServiceType = Shared | Tribe

  /** `details` stands for the descriptive fields that are copied and never read. */
  datatype Manifest = Manifest(serviceId: string, name: string, baseUrl: string, requiredScopes: seq<string>,
                               exposes: seq<string>, consumes: seq<string>, serviceType: Option<ServiceType>,
                               healthCheck: Option<string>, version: Option<string>,
                               sunsetDate: Option<string>, replacementService: Option<string>, details: string)

  datatype Entry = Entry(manifest: Manifest, serviceType: ServiceType, registeredAt: int, updatedAt: int,
                         status: Status, previousVersion: Option<string>, healthy: Option<bool>,
                         lastHealthCheckAt: Option<int>)

  type Services = map<string, Entry>

  datatype Error = NotFound | Conflict | Validation | WriteFailure

  /** A command on the shared hash, issued but not yet executed. */
  datatype Command = HSet(id: string, entry: Entry) | HDel(id: string)

  /** A registration whose Redis write is awaited; `isUpdate` when it replaced an entry. */
  datatype Await = Await(id: string, isUpdate: bool)

  datatype Registry = Registry(connected: bool, services: Services, gauge: int, outbox: seq<Command>,
                               awaiting: multiset<Await>)

  datatype Event =
    | Register(manifest: Manifest, now: int)
    | Written(await: Await)
    | WriteFailed(await: Await)
    | Deregister(id: string)
    | Deprecate(id: string, sunsetDate: Option<string>, replacementService: Option<string>, now: int)
    | Retire(id: string, now: int)
    | Activate(id: string, now: int)
    | SetHealth(id: string, healthy: bool, now: int)
    | Touch(id: string, now: int)
    | Load(reply: Services)

  // ---------------------------------------------------------------- helpers

  function Get(s: Services, id: string): Option<Entry> {
    if id in s then Some(s[id]) else None
  }

  /** A JavaScript string that is neither undefined nor empty. */
  predicate Truthy(s: Option<string>) {
    s.Some? && s.value != ""
  }

  function ManifestVersion(m: Manifest): Option<Semver.Version> {
    if Truthy(m.version) then Semver.Parse(m.version.value) else None
  }

  function VersionOf(e: Entry): Option<Semver.Version> {
    ManifestVersion(e.manifest)
  }

  predicate Counted(e: Entry) {
    e.status.Active? || e.status.Deprecated?
  }

  /** What syncMetricsGauge counts. */
  function ActiveIds(s: Services): set<string> {
    set id | id in s && Counted(s[id])
  }

  // ---------------------------------------------------------------- registration

  predicate IsDowngrade(existing: Entry, m: Manifest) {
    && VersionOf(existing).Some? && ManifestVersion(m).Some?
    && ManifestVersion(m).value.major < VersionOf(existing).value.major
  }

  /** Version governance comes before the lifecycle check. */
  function RegisterError(existing: Option<Entry>, m: Manifest): Option<Error> {
    if existing.None? then None
    else if IsDowngrade(existing.value, m) then Some(Validation)
    else if existing.value.status.Retired? then Some(Conflict)
    else None
  }

  function NewEntry(existing: Option<Entry>, m: Manifest, now: int): Entry {
    Entry(m,
      if m.serviceType.Some? then m.serviceType.value else Tribe,
      if existing.Some? then existing.value.registeredAt else now,
      now,
      if existing.Some? && existing.value.status.Deprecated? then Deprecated else Active,
      if existing.Some? && Truthy(m.version) && Truthy(existing.value.manifest.version)
      then existing.value.manifest.version else None,
      None, None)
  }

  // ---------------------------------------------------------------- entry updates

  function DeprecatedEntry(e: Entry, sunset: Option<string>, replacement: Option<string>, now: int): Entry {
    e.(status := Deprecated, updatedAt := now,
       manifest := e.manifest.(
         sunsetDate := if Truthy(sunset) then sunset else e.manifest.sunsetDate,
         replacementService := if Truthy(replacement) then replacement else e.manifest.replacementService))
  }

  function ActivatedEntry(e: Entry, now: int): Entry {
    e.(status := Active, updatedAt := now, manifest := e.manifest.(sunsetDate := None, replacementService := None))
  }

  /** The health flag, healthy unless set. */
  function HealthOf(e: Entry): bool {
    e.healthy != Some(false)
  }

  function ProbedEntry(e: Entry, healthy: bool, now: int): Entry {
    e.(healthy := Some(healthy), lastHealthCheckAt := Some(now), updatedAt := now)
  }

  /** The entry that a lifecycle or health event writes, if it is not refused. */
  function Rewritten(s: Services, e: Event): Result<Entry, Error> {
    match e
    case Deprecate(id, sunset, replacement, now) =>
      if id !in s then Err(NotFound)
      else if s[id].status.Retired? then Err(Conflict)
      else Ok(DeprecatedEntry(s[id], sunset, replacement, now))
    case Retire(id, now) =>
      if id !in s then Err(NotFound) else Ok(s[id].(status := Retired, updatedAt := now))
    case Activate(id, now) =>
      if id !in s then Err(NotFound)
      else if !s[id].status.Proposed? && !s[id].status.Deprecated? then Err(Conflict)
      else Ok(ActivatedEntry(s[id], now))
    case SetHealth(id, healthy, now) =>
      if id !in s then Err(NotFound)
      else if HealthOf(s[id]) == healthy then Err(Conflict)
      else Ok(ProbedEntry(s[id], healthy, now))
    case Register(m, now) =>
      var error := RegisterError(Get(s, m.serviceId), m);
      if error.Some? then Err(error.value) else Ok(NewEntry(Get(s, m.serviceId), m, now))
    case _ => Err(NotFound)
  }

  /** The id an event is about; Load is about every id of its reply. */
  function IdOf(e: Event): string {
    match e
    case Register(m, _) => m.serviceId
    case Written(a) => a.id
    case WriteFailed(a) => a.id
    case Load(_) => ""
    case _ => e.id
  }

  /** When an event that reads the clock happens. */
  function ClockOf(e: Event): int
    requires e.Register? || e.Deprecate? || e.Retire? || e.Activate? || e.SetHealth? || e.Touch?
  {
    e.now
  }

  // ---------------------------------------------------------------- steps

  function Issue(r: Registry, c: Command): Registry {
    if r.connected then r.(outbox := r.outbox + [c]) else r
  }

  function Synced(r: Registry): Registry {
    r.(gauge := |ActiveIds(r.services)|)
  }

  function Put(r: Registry, id: string, e: Entry): Registry {
    Issue(r.(services := r.services[id := e]), HSet(id, e))
  }

  function Step(r: Registry, e: Event): Registry {
    match e
    case Register(m, now) =>
      var entry := Rewritten(r.services, e);
      if entry.Err? then r
      else
        Synced(Put(r, m.serviceId, entry.value)).(
          awaiting := r.awaiting + multiset{Await(m.serviceId, m.serviceId in r.services)})
    case Written(a) => r.(awaiting := r.awaiting - multiset{a})
    case WriteFailed(a) =>
      if a !in r.awaiting then r
      else Synced(r.(services := r.services - {a.id}, awaiting := r.awaiting - multiset{a}))
    case Deregister(id) =>
      if id !in r.services then r else Issue(Synced(r.(services := r.services - {id})), HDel(id))
    case Touch(id, now) =>
      if id !in r.services then r
      else r.(services := r.services[id := r.services[id].(lastHealthCheckAt := Some(now))])
    case Load(reply) => if r.connected then r.(services := r.services + reply) else r
    case Deprecate(id, _, _, _) =>
      var entry := Rewritten(r.services, e); if entry.Err? then r else Put(r, id, entry.value)
    case Retire(id, _) =>
      var entry := Rewritten(r.services, e); if entry.Err? then r else Synced(Put(r, id, entry.value))
    case Activate(id, _) =>
      var entry := Rewritten(r.services, e); if entry.Err? then r else Synced(Put(r, id, entry.value))
    case SetHealth(id, _, _) =>
      var entry := Rewritten(r.services, e); if entry.Err? then r else Put(r, id, entry.value)
  }

  function Empty(connected: bool): Registry {
    Registry(connected, map[], 0, [], multiset{})
  }

  function Run(r: Registry, events: seq<Event>): Registry {
    if events == [] then r else Step(Run(r, events[..|events| - 1]), events[|events| - 1])
  }

  /** An entry up to the time of its latest health check, which is not part of what containers agree on. */
  function Core(e: Entry): Entry {
    e.(lastHealthCheckAt := None)
  }

  function Cores(s: Services): Services {
    map id | id in s :: Core(s[id])
  }

  /** Redis executing one command on the shared hash. */
  function Execute(hash: Services, c: Command): Services {
    match c
    case HSet(id, e) => hash[id := e]
    case HDel(id) => hash - {id}
  }

  function ExecuteAll(hash: Services, commands: seq<Command>): Services {
    if commands == [] then hash
    else Execute(ExecuteAll(hash, commands[..|commands| - 1]), commands[|commands| - 1])
  }
}
