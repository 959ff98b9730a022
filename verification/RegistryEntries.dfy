/** What an entry of one container's registry holds, and since when, over whole runs. */
module RegistryEntries {
  import opened Prelude
  import opened Registry
  import opened RegistryRuns

  // ---------------------------------------------------------------- registration

  /** A service that is not known is registered without fail: active, under the manifest given, as of now. */
  lemma FirstRegistration(r: Registry, m: Manifest, now: int)
    requires m.serviceId !in r.services
    ensures var r' := Step(r, Register(m, now));
      && m.serviceId in r'.services
      && r'.awaiting == r.awaiting + multiset{Await(m.serviceId, false)}
      && var e := r'.services[m.serviceId];
         && e.status.Active? && e.manifest == m && e.registeredAt == e.updatedAt == now
         && (e.serviceType.Shared? <==> m.serviceType == Some(Shared))
         && e.previousVersion.None? && e.healthy.None? && e.lastHealthCheckAt.None?
  {
  }

  /** The new manifest goes below the major version on record, both being parsable. */
  predicate GoesBelow(was: Entry, m: Manifest) {
    && VersionOf(was).Some? && ManifestVersion(m).Some?
    && ManifestVersion(m).value.major < VersionOf(was).value.major
  }

  /**
   * A known service is updated exactly when it is not retired and its major version does not go down. It
   * stays deprecated if it was, remembers the version it replaces, and its health starts anew.
   */
  lemma UpdateExactly(r: Registry, m: Manifest, now: int)
    requires m.serviceId in r.services
    ensures var was, r' := r.services[m.serviceId], Step(r, Register(m, now));
      if was.status.Retired? || GoesBelow(was, m) then
        r' == r && Rewritten(r.services, Register(m, now)) == Err(if GoesBelow(was, m) then Validation else Conflict)
      else
        && m.serviceId in r'.services
        && r'.awaiting == r.awaiting + multiset{Await(m.serviceId, true)}
        && var e := r'.services[m.serviceId];
           && (e.status == if was.status.Deprecated? then Deprecated else Active)
           && e.manifest == m && e.updatedAt == now && e.registeredAt == was.registeredAt
           && (e.serviceType.Shared? <==> m.serviceType == Some(Shared))
           && (e.previousVersion ==
                 if Truthy(m.version) && Truthy(was.manifest.version) then was.manifest.version else None)
           && e.healthy.None? && e.lastHealthCheckAt.None?
  {
  }

  /** Why a lifecycle change is refused; a refused one changes nothing. */
  lemma LifecycleRefusedExactly(r: Registry, e: Event)
    requires e.Deprecate? || e.Retire? || e.Activate?
    ensures Rewritten(r.services, e) == Err(NotFound) <==> e.id !in r.services
    ensures Rewritten(r.services, e) == Err(Conflict)
            <==> e.id in r.services &&
                 match r.services[e.id].status
                 case Retired => !e.Retire?
                 case Active => e.Activate?
                 case _ => false
    ensures Rewritten(r.services, e).Err? ==> Rewritten(r.services, e).error in {NotFound, Conflict} && Step(r, e) == r
  {
  }

  /** An event moves its own service only, a resync those of its reply. */
  lemma OthersUntouched(r: Registry, e: Event, id: string)
    requires if e.Load? then id !in e.reply else id != IdOf(e)
    ensures Get(Step(r, e).services, id) == Get(r.services, id)
  {
  }

  // ---------------------------------------------------------------- which services are known

  /** `id` is known, told from what happened: a registration or a resync brings it, a removal or a rollback takes it. */
  predicate KnownBy(r: Registry, events: seq<Event>, id: string) {
    if events == [] then id in r.services
    else
      var before, e := events[..|events| - 1], events[|events| - 1];
      match e
      case Register(m, _) => m.serviceId == id || KnownBy(r, before, id)
      case Deregister(i) => i != id && KnownBy(r, before, id)
      case WriteFailed(a) => !(a.id == id && a in Run(r, before).awaiting) && KnownBy(r, before, id)
      case Load(reply) => (r.connected && id in reply) || KnownBy(r, before, id)
      case _ => KnownBy(r, before, id)
  }

  lemma {:induction false} StaysConnected(r: Registry, events: seq<Event>)
    ensures Run(r, events).connected == r.connected
  {
    if events != [] {
      var before, e := events[..|events| - 1], events[|events| - 1];
      StaysConnected(r, before);
      if Rewritten(Run(r, before).services, e).Ok? {
        WritingShape(Run(r, before), e);
      }
    }
  }

  lemma KnownStep(r: Registry, e: Event, id: string)
    ensures id in Step(r, e).services <==>
      match e
      case Register(m, _) => m.serviceId == id || id in r.services
      case Deregister(i) => i != id && id in r.services
      case WriteFailed(a) => !(a.id == id && a in r.awaiting) && id in r.services
      case Load(reply) => (r.connected && id in reply) || id in r.services
      case _ => id in r.services
  {
  }

  /** In every run a service is known exactly when the history says so. */
  lemma {:induction false} KnownExactly(r: Registry, events: seq<Event>, id: string)
    ensures id in Run(r, events).services <==> KnownBy(r, events, id)
  {
    if events != [] {
      var before := events[..|events| - 1];
      KnownExactly(r, before, id);
      KnownStep(Run(r, before), events[|events| - 1], id);
      StaysConnected(r, before);
    }
  }

  // ---------------------------------------------------------------- registrations awaiting Redis

  /** How many registrations of the kind were accepted. */
  function Accepted(r: Registry, events: seq<Event>, a: Await): nat {
    if events == [] then 0
    else
      var before, e := events[..|events| - 1], events[|events| - 1];
      var was := Run(r, before);
      Accepted(r, before, a) + if Registers(was, e, a.id) && (a.id in was.services) == a.isUpdate then 1 else 0
  }

  /** How many of them were told that their write was made, or failed. */
  function Concluded(r: Registry, events: seq<Event>, a: Await): nat {
    if events == [] then 0
    else
      var before, e := events[..|events| - 1], events[|events| - 1];
      Concluded(r, before, a)
      + if (e == Written(a) || e == WriteFailed(a)) && a in Run(r, before).awaiting then 1 else 0
  }

  lemma AwaitingStep(r: Registry, e: Event, a: Await)
    ensures Step(r, e).awaiting[a] ==
      r.awaiting[a]
      + (if Registers(r, e, a.id) && (a.id in r.services) == a.isUpdate then 1 else 0)
      - (if (e == Written(a) || e == WriteFailed(a)) && a in r.awaiting then 1 else 0)
  {
  }

  /** Every accepted registration awaits Redis until its write concludes, once, and nothing else does. */
  lemma {:induction false} AwaitingConserved(r: Registry, events: seq<Event>, a: Await)
    ensures Run(r, events).awaiting[a] + Concluded(r, events, a) == r.awaiting[a] + Accepted(r, events, a)
  {
    if events != [] {
      AwaitingConserved(r, events[..|events| - 1], a);
      AwaitingStep(Run(r, events[..|events| - 1]), events[|events| - 1], a);
    }
  }

  // ---------------------------------------------------------------- stamps

  /** The stamp of an update is its own time. */
  lemma StampIsClock(s: Services, e: Event)
    requires Rewritten(s, e).Ok?
    ensures Rewritten(s, e).value.updatedAt == ClockOf(e)
  {
  }

  /** An accepted update is stamped with its own time; every other event but a resync leaves all stamps alone. */
  lemma StampedAnew(r: Registry, e: Event, id: string)
    requires id in Step(r, e).services && !e.Load?
    ensures if Rewritten(r.services, e).Ok? && IdOf(e) == id then Step(r, e).services[id].updatedAt == ClockOf(e)
            else id in r.services && Step(r, e).services[id].updatedAt == r.services[id].updatedAt
  {
    if Rewritten(r.services, e).Ok? {
      WritingShape(r, e);
      StampIsClock(r.services, e);
    } else {
      OtherShape(r, e);
      assert Core(Step(r, e).services[id]).updatedAt == Core(r.services[id]).updatedAt;
    }
  }

  // ---------------------------------------------------------------- what a service is, between registrations

  /** The manifest without what deprecating and activating change. */
  function Bare(m: Manifest): Manifest {
    m.(sunsetDate := None, replacementService := None)
  }

  /** Between accepted registrations and displacements a service is what its manifest made it. */
  lemma {:induction false} ServesItsManifest(r: Registry, events: seq<Event>, id: string)
    requires id in r.services && Undisturbed(events, id) && NotRegistered(r, events, id)
    ensures id in Run(r, events).services
    ensures var was, e := r.services[id], Run(r, events).services[id];
      && Bare(e.manifest) == Bare(was.manifest) && e.serviceType == was.serviceType
      && e.registeredAt == was.registeredAt && e.previousVersion == was.previousVersion
  {
    if events != [] {
      var before := events[..|events| - 1];
      assert Undisturbed(before, id);
      ServesItsManifest(r, before, id);
      ManifestStep(Run(r, before), events[|events| - 1], id);
    }
  }

  lemma {:induction false} ManifestStep(r: Registry, e: Event, id: string)
    requires id in r.services && !Displaces(e, id) && !Registers(r, e, id)
    ensures id in Step(r, e).services
    ensures var e0, e1 := r.services[id], Step(r, e).services[id];
      && Bare(e1.manifest) == Bare(e0.manifest) && e1.serviceType == e0.serviceType
      && e1.registeredAt == e0.registeredAt && e1.previousVersion == e0.previousVersion
  {
    KeptOrRewritten(r, e, id);
    var e0, e1 := r.services[id], Step(r, e).services[id];
    if !(Rewritten(r.services, e).Ok? && IdOf(e) == id) {
      assert Core(e1).manifest == Core(e0).manifest && Core(e1).serviceType == Core(e0).serviceType;
      assert Core(e1).registeredAt == Core(e0).registeredAt && Core(e1).previousVersion == Core(e0).previousVersion;
    }
  }

  datatype Notice = Notice(sunsetDate: Option<string>, replacementService: Option<string>)

  function NoticeOf(e: Entry): Notice {
    Notice(e.manifest.sunsetDate, e.manifest.replacementService)
  }

  /** The latest notice given to consumers since the start: a deprecation adds to it, an activation withdraws it. */
  function NoticeBy(r: Registry, events: seq<Event>, id: string): Notice
    requires id in r.services
  {
    if events == [] then NoticeOf(r.services[id])
    else
      var before, e := events[..|events| - 1], events[|events| - 1];
      var notice, s := NoticeBy(r, before, id), Run(r, before).services;
      match e
      case Deprecate(i, sunset, replacement, _) =>
        if i != id || (id in s && s[id].status.Retired?) then notice
        else Notice(if Truthy(sunset) then sunset else notice.sunsetDate,
                    if Truthy(replacement) then replacement else notice.replacementService)
      case Activate(i, _) =>
        if i == id && id in s && (s[id].status.Deprecated? || s[id].status.Proposed?) then Notice(None, None)
        else notice
      case _ => notice
  }

  lemma NoticeStep(r: Registry, e: Event, id: string)
    requires id in r.services && !Displaces(e, id) && !Registers(r, e, id)
    requires !(e.Deprecate? && e.id == id) && !(e.Activate? && e.id == id)
    ensures id in Step(r, e).services && NoticeOf(Step(r, e).services[id]) == NoticeOf(r.services[id])
  {
    KeptOrRewritten(r, e, id);
    if !(Rewritten(r.services, e).Ok? && IdOf(e) == id) {
      assert Core(Step(r, e).services[id]).manifest == Core(r.services[id]).manifest;
    }
  }

  /** Sunset date and replacement are those of the latest notice, in every run without registrations of the service. */
  lemma {:induction false} NoticeIsLatest(r: Registry, events: seq<Event>, id: string)
    requires id in r.services && Undisturbed(events, id) && NotRegistered(r, events, id)
    ensures id in Run(r, events).services && NoticeOf(Run(r, events).services[id]) == NoticeBy(r, events, id)
  {
    if events != [] {
      var before, e := events[..|events| - 1], events[|events| - 1];
      assert Undisturbed(before, id);
      NoticeIsLatest(r, before, id);
      if !(e.Deprecate? && e.id == id) && !(e.Activate? && e.id == id) {
        NoticeStep(Run(r, before), e, id);
      }
    }
  }

  // ---------------------------------------------------------------- probes

  /** What the health monitor does with the result of one probe: report a change, or just note the check. */
  function Probed(r: Registry, id: string, alive: bool, now: int): Registry {
    if Rewritten(r.services, SetHealth(id, alive, now)).Ok? then Step(r, SetHealth(id, alive, now))
    else Step(r, Touch(id, now))
  }

  /** A probe always leaves its result and its time; only a changed result is stamped anew and written to Redis. */
  lemma ProbeRecorded(r: Registry, id: string, alive: bool, now: int)
    requires id in r.services
    ensures var was, r' := r.services[id], Probed(r, id, alive, now);
      && id in r'.services && HealthOf(r'.services[id]) == alive && r'.services[id].lastHealthCheckAt == Some(now)
      && r'.services[id].updatedAt == (if HealthOf(was) != alive then now else was.updatedAt)
      && r'.outbox ==
           (if HealthOf(was) != alive && r.connected then r.outbox + [HSet(id, r'.services[id])] else r.outbox)
  {
  }

  /** The check time moves with probes only, and starts anew with a registration. */
  lemma CheckTimeStep(r: Registry, e: Event, id: string)
    requires id in r.services && !Displaces(e, id)
    ensures id in Step(r, e).services
    ensures Step(r, e).services[id].lastHealthCheckAt ==
      if e.Touch? && e.id == id then Some(e.now)
      else if Reports(r, e, id) then Some(e.now)
      else if Registers(r, e, id) then None
      else r.services[id].lastHealthCheckAt
  {
    if Rewritten(r.services, e).Ok? {
      WritingShape(r, e);
    } else if IdOf(e) != id && !e.Load? {
      OthersUntouched(r, e, id);
    }
  }
}
