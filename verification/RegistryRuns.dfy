/** One container's registry over whole runs, including failed writes, rollbacks and late continuations. */
module RegistryRuns {
  import opened Prelude
  import Semver
  import opened Registry

  // ---------------------------------------------------------------- one step

  /** An event that writes puts one entry in memory and sends it to Redis. */
  lemma WritingShape(r: Registry, e: Event)
    requires Rewritten(r.services, e).Ok?
    ensures var r' := Step(r, e); var entry := Rewritten(r.services, e).value;
      && r'.services == r.services[IdOf(e) := entry]
      && r'.outbox == (if r.connected then r.outbox + [HSet(IdOf(e), entry)] else r.outbox)
      && r'.connected == r.connected
  {
  }

  /** Any other event but a resync refreshes a check, removes an entry, or changes nothing. */
  lemma OtherShape(r: Registry, e: Event)
    requires Rewritten(r.services, e).Err? && !e.Load?
    ensures var r' := Step(r, e);
      && r'.services.Keys <= r.services.Keys
      && (forall id | id in r'.services :: Core(r'.services[id]) == Core(r.services[id]))
      && (r'.outbox == r.outbox || (e.Deregister? && r'.outbox == r.outbox + [HDel(e.id)]))
      && r'.connected == r.connected
  {
  }

  /** An undisplaced entry is still there after an event that writes nothing. */
  lemma OtherKeeps(r: Registry, e: Event, id: string)
    requires Rewritten(r.services, e).Err? && id in r.services && !Displaces(e, id)
    ensures id in Step(r, e).services && Core(Step(r, e).services[id]) == Core(r.services[id])
  {
  }

  /** An entry that is not displaced is kept up to its latest check, or rewritten. */
  lemma KeptOrRewritten(r: Registry, e: Event, id: string)
    requires id in r.services && !Displaces(e, id)
    ensures id in Step(r, e).services
    ensures if Rewritten(r.services, e).Ok? && IdOf(e) == id
            then Step(r, e).services[id] == Rewritten(r.services, e).value
            else Core(Step(r, e).services[id]) == Core(r.services[id])
  {
    if Rewritten(r.services, e).Ok? {
      WritingShape(r, e);
    } else {
      OtherKeeps(r, e, id);
    }
  }

  // ---------------------------------------------------------------- gauge conservation

  predicate NoneProposed(s: Services) {
    forall id | id in s :: !s[id].status.Proposed?
  }

  /** An update that keeps an entry counted, or keeps it uncounted, leaves the counted ids as they are. */
  lemma SameCount(s: Services, id: string, e: Entry)
    requires id in s && (Counted(e) <==> Counted(s[id]))
    ensures ActiveIds(s[id := e]) == ActiveIds(s)
  {
  }

  lemma StepKeepsNoneProposed(r: Registry, e: Event)
    requires !e.Load? && NoneProposed(r.services)
    ensures NoneProposed(Step(r, e).services)
  {
    if Rewritten(r.services, e).Ok? {
      WritingShape(r, e);
    } else {
      OtherShape(r, e);
      forall id | id in Step(r, e).services ensures !Step(r, e).services[id].status.Proposed? {
        assert Core(Step(r, e).services[id]).status == Core(r.services[id]).status;
      }
    }
  }

  /** The step recomputes the gauge. */
  predicate Syncs(r: Registry, e: Event) {
    match e
    case Register(_, _) => Rewritten(r.services, e).Ok?
    case Retire(_, _) => Rewritten(r.services, e).Ok?
    case Activate(_, _) => Rewritten(r.services, e).Ok?
    case Deregister(id) => id in r.services
    case WriteFailed(a) => a in r.awaiting
    case _ => false
  }

  /** The services that a reply makes counted. */
  function Gained(s: Services, reply: Services): set<string> {
    ActiveIds(reply) - ActiveIds(s)
  }

  /** The services counted so far that a reply says are proposed or retired. */
  function Lost(s: Services, reply: Services): set<string> {
    set id | id in s && Counted(s[id]) && id in reply && !Counted(reply[id])
  }

  /** By how much a step that does not recompute the gauge moves the number of services it stands for. */
  function Unseen(r: Registry, e: Event): int {
    match e
    case Load(reply) => if r.connected then |Gained(r.services, reply)| - |Lost(r.services, reply)| else 0
    case Deprecate(id, _, _, _) => if id in r.services && r.services[id].status.Proposed? then 1 else 0
    case _ => 0
  }

  /** What the gauge has missed since it was last recomputed. */
  function Missed(r: Registry, events: seq<Event>): int {
    if events == [] then 0
    else
      var before, e := events[..|events| - 1], events[|events| - 1];
      if Syncs(Run(r, before), e) then 0 else Missed(r, before) + Unseen(Run(r, before), e)
  }

  lemma SwapCount(a: set<string>, gained: set<string>, lost: set<string>)
    requires lost <= a && gained !! a
    ensures |(a - lost) + gained| == |a| + |gained| - |lost|
  {
    assert a == (a - lost) + lost;
  }

  /** Overlaying a reply adds the gained services to the count and takes the lost ones off. */
  lemma OverlayCount(s: Services, reply: Services)
    ensures |ActiveIds(s + reply)| == |ActiveIds(s)| + |Gained(s, reply)| - |Lost(s, reply)|
  {
    forall id ensures id in ActiveIds(s + reply) <==> id in (ActiveIds(s) - Lost(s, reply)) + Gained(s, reply) {
      if id in reply {
        assert id in ActiveIds(reply) <==> Counted(reply[id]);
      }
    }
    assert ActiveIds(s + reply) == (ActiveIds(s) - Lost(s, reply)) + Gained(s, reply);
    SwapCount(ActiveIds(s), Gained(s, reply), Lost(s, reply));
  }

  /** One step that leaves the gauge alone moves the count by what goes unseen; any other makes the gauge right. */
  lemma GaugeStep(r: Registry, e: Event)
    ensures var r' := Step(r, e);
      if Syncs(r, e) then r'.gauge == |ActiveIds(r'.services)|
      else r'.gauge == r.gauge && |ActiveIds(r'.services)| == |ActiveIds(r.services)| + Unseen(r, e)
  {
    var entry := Rewritten(r.services, e);
    match e {
      case Load(reply) => OverlayCount(r.services, reply);
      case Deprecate(id, _, _, _) =>
        if entry.Ok? {
          if Counted(r.services[id]) {
            SameCount(r.services, id, entry.value);
          } else {
            assert ActiveIds(Step(r, e).services) == ActiveIds(r.services) + {id};
          }
        }
      case SetHealth(id, _, _) => if entry.Ok? { SameCount(r.services, id, entry.value); }
      case Touch(id, now) =>
        if id in r.services {
          SameCount(r.services, id, r.services[id].(lastHealthCheckAt := Some(now)));
        }
      case _ =>
    }
  }

  /**
   * The gauge in every run, with resyncs, failed writes and rollbacks: it lags the number of active and
   * deprecated services by exactly what it has missed since it was last recomputed.
   */
  lemma {:induction false} GaugeLag(r: Registry, events: seq<Event>)
    requires r.gauge == |ActiveIds(r.services)|
    ensures |ActiveIds(Run(r, events).services)| == Run(r, events).gauge + Missed(r, events)
  {
    if events != [] {
      GaugeLag(r, events[..|events| - 1]);
      GaugeStep(Run(r, events[..|events| - 1]), events[|events| - 1]);
    }
  }

  /** Without a resync nothing is missed, although deprecate never recomputes the gauge: no service is ever proposed. */
  lemma {:induction false} NothingMissed(r: Registry, events: seq<Event>)
    requires NoneProposed(r.services) && forall i | 0 <= i < |events| :: !events[i].Load?
    ensures Missed(r, events) == 0 && NoneProposed(Run(r, events).services)
  {
    if events != [] {
      NothingMissed(r, events[..|events| - 1]);
      StepKeepsNoneProposed(Run(r, events[..|events| - 1]), events[|events| - 1]);
    }
  }

  /** Gauge conservation: from an empty registry, with rollbacks but without a resync, the gauge is right. */
  lemma GaugeCountsActive(connected: bool, events: seq<Event>)
    requires forall i | 0 <= i < |events| :: !events[i].Load?
    ensures var r := Run(Empty(connected), events);
            r.gauge == |ActiveIds(r.services)| && NoneProposed(r.services)
  {
    GaugeLag(Empty(connected), events);
    NothingMissed(Empty(connected), events);
  }

  /**
   * However wrong the gauge is, after hydration say, the first step that recomputes it makes it right,
   * and it stays right until the next resync.
   */
  lemma GaugeRecovers(r: Registry, e: Event, events: seq<Event>)
    requires NoneProposed(r.services) && Syncs(r, e) && forall i | 0 <= i < |events| :: !events[i].Load?
    ensures var r' := Run(Step(r, e), events); r'.gauge == |ActiveIds(r'.services)|
  {
    GaugeStep(r, e);
    StepKeepsNoneProposed(r, e);
    GaugeLag(Step(r, e), events);
    NothingMissed(Step(r, e), events);
  }

  /** A resync leaves a right gauge right exactly when its reply makes as many services counted as it stops counting. */
  lemma ResyncKeepsGauge(r: Registry, reply: Services)
    requires r.connected && r.gauge == |ActiveIds(r.services)|
    ensures Step(r, Load(reply)).gauge == |ActiveIds(Step(r, Load(reply)).services)|
            <==> |Gained(r.services, reply)| == |Lost(r.services, reply)|
  {
    OverlayCount(r.services, reply);
  }

  /** Deprecating leaves a right gauge right exactly when the service was not proposed. */
  lemma DeprecateKeepsGauge(r: Registry, e: Event)
    requires e.Deprecate? && r.gauge == |ActiveIds(r.services)|
    ensures Step(r, e).gauge == |ActiveIds(Step(r, e).services)|
            <==> !(e.id in r.services && r.services[e.id].status.Proposed?)
  {
    GaugeStep(r, e);
  }

  // ---------------------------------------------------------------- lifecycle

  /** The event takes entry `id` away or replaces it from Redis. */
  predicate Displaces(e: Event, id: string) {
    match e
    case Deregister(i) => i == id
    case WriteFailed(a) => a.id == id
    case Load(reply) => id in reply
    case _ => false
  }

  ghost predicate Undisturbed(events: seq<Event>, id: string) {
    forall i | 0 <= i < |events| :: !Displaces(events[i], id)
  }

  /** The event is a registration of `id` that the registry accepts. */
  predicate Registers(r: Registry, e: Event, id: string) {
    e.Register? && e.manifest.serviceId == id && Rewritten(r.services, e).Ok?
  }

  /** No registration of `id` is accepted during the run. */
  ghost predicate NotRegistered(r: Registry, events: seq<Event>, id: string) {
    events != [] ==>
      var before := events[..|events| - 1];
      NotRegistered(r, before, id) && !Registers(Run(r, before), events[|events| - 1], id)
  }

  predicate IsRetired(r: Registry, id: string) {
    id in r.services && r.services[id].status.Retired?
  }

  /** The only ways out of retirement: deregistering, a late rollback, or a resync that says otherwise. */
  lemma LeavesRetirementExactly(r: Registry, id: string, e: Event)
    requires IsRetired(r, id)
    ensures !IsRetired(Step(r, e), id)
            <==> e == Deregister(id) || (e.WriteFailed? && e.await.id == id && e.await in r.awaiting)
                 || (e.Load? && r.connected && id in e.reply && !e.reply[id].status.Retired?)
  {
  }

  /** Until it is deregistered, rolled back or resynced, a retired service stays retired. */
  lemma {:induction false} RetiredStaysRetired(r: Registry, id: string, events: seq<Event>)
    requires IsRetired(r, id) && Undisturbed(events, id)
    ensures IsRetired(Run(r, events), id)
  {
    if events != [] {
      assert Undisturbed(events[..|events| - 1], id);
      RetiredStaysRetired(r, id, events[..|events| - 1]);
      LeavesRetirementExactly(Run(r, events[..|events| - 1]), id, events[|events| - 1]);
    }
  }

  /**
   * The whole lifecycle of an undisplaced service: retire, deprecate (unless retired) and activate (if
   * deprecated or proposed) move it; registering it anew makes a proposed one active; nothing else does.
   */
  lemma {:induction false} LifecycleStep(r: Registry, id: string, e: Event)
    requires id in r.services && !Displaces(e, id)
    ensures var was := r.services[id].status;
      id in Step(r, e).services && Step(r, e).services[id].status ==
        if e.Retire? && e.id == id then Retired
        else if e.Deprecate? && e.id == id && !was.Retired? then Deprecated
        else if e.Activate? && e.id == id && (was.Deprecated? || was.Proposed?) then Active
        else if Registers(r, e, id) && was.Proposed? then Active
        else was
  {
    KeptOrRewritten(r, e, id);
    assert Core(r.services[id]).status == r.services[id].status;
    assert Core(Step(r, e).services[id]).status == Step(r, e).services[id].status;
  }

  /** The registration time of a service survives every update. */
  lemma {:induction false} RegistrationTimeKept(r: Registry, id: string, events: seq<Event>)
    requires id in r.services && Undisturbed(events, id)
    ensures id in Run(r, events).services && Run(r, events).services[id].registeredAt == r.services[id].registeredAt
  {
    if events != [] {
      var before, e := events[..|events| - 1], events[|events| - 1];
      assert Undisturbed(before, id);
      RegistrationTimeKept(r, id, before);
      RegistrationTimeStep(Run(r, before), id, e);
    }
  }

  lemma {:induction false} RegistrationTimeStep(r: Registry, id: string, e: Event)
    requires id in r.services && !Displaces(e, id)
    ensures id in Step(r, e).services && Step(r, e).services[id].registeredAt == r.services[id].registeredAt
  {
    KeptOrRewritten(r, e, id);
    assert Core(r.services[id]).registeredAt == r.services[id].registeredAt;
    assert Core(Step(r, e).services[id]).registeredAt == Step(r, e).services[id].registeredAt;
  }

  // ---------------------------------------------------------------- version governance

  predicate HasVersion(r: Registry, id: string) {
    id in r.services && VersionOf(r.services[id]).Some?
  }

  function MajorOf(r: Registry, id: string): nat
    requires HasVersion(r, id)
  {
    VersionOf(r.services[id]).value.major
  }

  /** Throughout the run `id` has a version, and its major never falls. */
  ghost predicate Governed(r: Registry, events: seq<Event>, id: string) {
    if events == [] then HasVersion(r, id)
    else
      var before := events[..|events| - 1];
      && Governed(r, before, id)
      && HasVersion(Run(r, before), id) && HasVersion(Run(r, events), id)
      && MajorOf(Run(r, before), id) <= MajorOf(Run(r, events), id)
  }

  /** Every manifest of `id` that is accepted during the run carries a parsable version. */
  ghost predicate AcceptedParse(r: Registry, events: seq<Event>, id: string) {
    events != [] ==>
      var before, e := events[..|events| - 1], events[|events| - 1];
      AcceptedParse(r, before, id) && (Registers(Run(r, before), e, id) ==> ManifestVersion(e.manifest).Some?)
  }

  /** One step keeps the version of an undisplaced service governed exactly when a manifest it accepts parses. */
  lemma {:induction false} MajorStep(r: Registry, e: Event, id: string)
    requires HasVersion(r, id) && !Displaces(e, id)
    ensures HasVersion(Step(r, e), id) <==> (Registers(r, e, id) ==> ManifestVersion(e.manifest).Some?)
    ensures HasVersion(Step(r, e), id) ==> MajorOf(r, id) <= MajorOf(Step(r, e), id)
  {
    KeptOrRewritten(r, e, id);
    var entry := Rewritten(r.services, e);
    if Registers(r, e, id) {
      assert entry.value.manifest == e.manifest && !IsDowngrade(r.services[id], e.manifest);
    } else {
      var e0, e1 := r.services[id], Step(r, e).services[id];
      assert Core(e1).manifest.version == Core(e0).manifest.version;
    }
  }

  /**
   * Version governance between displacements: a service keeps a version whose major never falls if and
   * only if every manifest accepted for it carries a parsable version.
   */
  lemma {:induction false} MajorsNeverDecrease(r: Registry, events: seq<Event>, id: string)
    requires HasVersion(r, id) && Undisturbed(events, id)
    ensures Governed(r, events, id) <==> AcceptedParse(r, events, id)
    ensures Governed(r, events, id) ==> HasVersion(Run(r, events), id) && MajorOf(r, id) <= MajorOf(Run(r, events), id)
  {
    if events != [] {
      var before := events[..|events| - 1];
      assert Undisturbed(before, id);
      MajorsNeverDecrease(r, before, id);
      if HasVersion(Run(r, before), id) {
        MajorStep(Run(r, before), events[|events| - 1], id);
      }
    }
  }

  /** One manifest without a parsable version lets the next one go back: governance reads the stored version only. */
  lemma UnparsableVersionForgets(r: Registry, m0: Manifest, m1: Manifest, now: int)
    requires m0.serviceId == m1.serviceId && ManifestVersion(m0).None?
    requires m0.serviceId in r.services && !r.services[m0.serviceId].status.Retired?
    ensures var r0 := Step(r, Register(m0, now)); var r1 := Step(r0, Register(m1, now));
            m1.serviceId in r1.services && r1.services[m1.serviceId].manifest == m1
  {
  }

  // ---------------------------------------------------------------- health transitions

  /** setHealthStatus reports a transition of `id`. */
  predicate Reports(r: Registry, e: Event, id: string) {
    e.SetHealth? && e.id == id && Rewritten(r.services, e).Ok?
  }

  /** The transitions that setHealthStatus reports for one id, oldest first: the new flag of each. */
  function HealthReports(r: Registry, events: seq<Event>, id: string): seq<bool> {
    if events == [] then []
    else
      var before, e := events[..|events| - 1], events[|events| - 1];
      HealthReports(r, before, id) + (if Reports(Run(r, before), e, id) then [e.healthy] else [])
  }

  /** The flags alternate, the first being the opposite of `from`; `to` is where they end. */
  predicate Alternate(reports: seq<bool>, from: bool, to: bool) {
    && (forall k | 0 <= k < |reports| :: reports[k] == if k % 2 == 0 then !from else from)
    && to == if |reports| % 2 == 0 then from else !from
  }

  lemma AlternateOneMore(reports: seq<bool>, from: bool, to: bool)
    requires Alternate(reports, from, to)
    ensures Alternate(reports + [!to], from, !to)
  {
  }

  lemma HealthStep(r: Registry, e: Event, id: string)
    requires id in r.services && !Displaces(e, id) && !Registers(r, e, id)
    ensures id in Step(r, e).services
    ensures HealthOf(Step(r, e).services[id]) == if Reports(r, e, id) then e.healthy else HealthOf(r.services[id])
    ensures Reports(r, e, id) ==> e.healthy == !HealthOf(r.services[id])
  {
    KeptOrRewritten(r, e, id);
    assert Core(r.services[id]).healthy == r.services[id].healthy;
    assert Core(Step(r, e).services[id]).healthy == Step(r, e).services[id].healthy;
  }

  /** Between accepted registrations and displacements the reported transitions alternate, leaving the initial flag. */
  lemma {:induction false} HealthReportsAlternate(r: Registry, events: seq<Event>, id: string)
    requires id in r.services && Undisturbed(events, id) && NotRegistered(r, events, id)
    ensures id in Run(r, events).services
    ensures Alternate(HealthReports(r, events, id), HealthOf(r.services[id]), HealthOf(Run(r, events).services[id]))
  {
    if events != [] {
      var before, e := events[..|events| - 1], events[|events| - 1];
      assert Undisturbed(before, id) && NotRegistered(r, before, id);
      HealthReportsAlternate(r, before, id);
      HealthStep(Run(r, before), e, id);
      AlternateOneMore(HealthReports(r, before, id), HealthOf(r.services[id]), HealthOf(Run(r, before).services[id]));
    }
  }

  /** After a registration that is accepted, the first transition reported is to unhealthy. */
  lemma {:induction false} FirstReportIsUnhealthy(r: Registry, m: Manifest, now: int, events: seq<Event>)
    requires Rewritten(r.services, Register(m, now)).Ok? && Undisturbed(events, m.serviceId)
    requires NotRegistered(Step(r, Register(m, now)), events, m.serviceId)
    ensures var reports := HealthReports(Step(r, Register(m, now)), events, m.serviceId);
            forall k | 0 <= k < |reports| :: reports[k] == (k % 2 == 1)
  {
    HealthReportsAlternate(Step(r, Register(m, now)), events, m.serviceId);
  }

  // ---------------------------------------------------------------- write-through

  /** A container and the hash it writes to. Redis executes its commands in the order they were issued. */
  datatype Linked = Linked(r: Registry, hash: Services)

  datatype LinkedEvent = Local(e: Event) | RedisExecutes

  function LinkedStep(l: Linked, e: LinkedEvent): Linked {
    match e
    case Local(le) => l.(r := Step(l.r, le))
    case RedisExecutes =>
      if l.r.outbox == [] then l
      else Linked(l.r.(outbox := l.r.outbox[1..]), Execute(l.hash, l.r.outbox[0]))
  }

  function LinkedRun(l: Linked, events: seq<LinkedEvent>): Linked {
    if events == [] then l else LinkedStep(LinkedRun(l, events[..|events| - 1]), events[|events| - 1])
  }

  /** Executing what is pending would give Redis the memory map, up to the time of the latest health checks. */
  predicate WrittenThrough(l: Linked) {
    Cores(ExecuteAll(l.hash, l.r.outbox)) == Cores(l.r.services)
  }

  lemma {:induction false} ExecuteFirst(hash: Services, commands: seq<Command>)
    requires commands != []
    ensures ExecuteAll(hash, commands) == ExecuteAll(Execute(hash, commands[0]), commands[1..])
  {
    var n := |commands| - 1;
    if n == 0 {
      assert commands[..0] == [];
    } else {
      ExecuteFirst(hash, commands[..n]);
      assert commands[..n][1..] == commands[1..][..n - 1];
    }
  }

  lemma ExecuteLast(hash: Services, commands: seq<Command>, c: Command)
    ensures ExecuteAll(hash, commands + [c]) == Execute(ExecuteAll(hash, commands), c)
  {
  }

  lemma ExecuteOnCores(a: Services, b: Services, c: Command)
    requires Cores(a) == Cores(b)
    ensures Cores(Execute(a, c)) == Cores(Execute(b, c))
  {
    assert a.Keys == Cores(a).Keys == Cores(b).Keys == b.Keys;
    forall id | id in a && id in b ensures Core(a[id]) == Core(b[id]) {
      assert Cores(a)[id] == Cores(b)[id];
    }
  }

  /** A synchronous step writes memory and issues the command that writes the same to Redis, or does neither. */
  lemma StepIssuesItsWrite(r: Registry, e: Event)
    requires r.connected && !e.WriteFailed? && !e.Load?
    ensures var r' := Step(r, e);
      && r'.connected
      && if r'.outbox == r.outbox then Cores(r'.services) == Cores(r.services)
         else |r'.outbox| == |r.outbox| + 1 && r'.outbox == r.outbox + [r'.outbox[|r.outbox|]]
              && r'.services == Execute(r.services, r'.outbox[|r.outbox|])
  {
    if Rewritten(r.services, e).Ok? {
      WritingShape(r, e);
    } else if !e.Deregister? {
      OtherShape(r, e);
      assert Step(r, e).services.Keys == r.services.Keys;
    }
  }

  /** A resync keeps write-through exactly when its reply says nothing that memory does not already hold. */
  lemma ResyncKeepsWriteThrough(l: Linked, reply: Services)
    requires l.r.connected && WrittenThrough(l)
    ensures WrittenThrough(l.(r := Step(l.r, Load(reply))))
            <==> forall id | id in reply :: id in l.r.services && Core(reply[id]) == Core(l.r.services[id])
  {
    var s, s' := l.r.services, l.r.services + reply;
    if Cores(s') == Cores(s) {
      forall id | id in reply ensures id in s && Core(reply[id]) == Core(s[id]) {
        assert id in Cores(s');
        assert Cores(s')[id] == Core(reply[id]);
      }
    } else if forall id | id in reply :: id in s && Core(reply[id]) == Core(s[id]) {
      assert Cores(s').Keys == Cores(s).Keys;
      assert forall id | id in s :: Cores(s')[id] == Cores(s)[id];
      assert false;
    }
  }

  /** A rollback keeps write-through exactly when memory no longer holds the id: Redis is not told of it. */
  lemma RollbackKeepsWriteThrough(l: Linked, a: Await)
    requires WrittenThrough(l) && a in l.r.awaiting
    ensures WrittenThrough(l.(r := Step(l.r, WriteFailed(a)))) <==> a.id !in l.r.services
  {
    var s, s' := l.r.services, Step(l.r, WriteFailed(a)).services;
    assert Cores(s).Keys == s.Keys && Cores(s').Keys == s'.Keys;
    if a.id !in s {
      assert s' == s;
    }
  }

  /** A step that leaves memory and Redis together: a resync must tell nothing new, a rollback must find nothing. */
  predicate Harmless(r: Registry, e: LinkedEvent) {
    match e
    case RedisExecutes => true
    case Local(Load(reply)) =>
      forall id | id in reply :: id in r.services && Core(reply[id]) == Core(r.services[id])
    case Local(WriteFailed(a)) => a in r.awaiting ==> a.id !in r.services
    case Local(_) => true
  }

  lemma StepWritesThrough(l: Linked, e: LinkedEvent)
    requires l.r.connected && WrittenThrough(l)
    ensures LinkedStep(l, e).r.connected
    ensures WrittenThrough(LinkedStep(l, e)) <==> Harmless(l.r, e)
  {
    match e {
      case RedisExecutes =>
        if l.r.outbox != [] {
          ExecuteFirst(l.hash, l.r.outbox);
        }
      case Local(Load(reply)) => ResyncKeepsWriteThrough(l, reply);
      case Local(WriteFailed(a)) =>
        if a in l.r.awaiting {
          RollbackKeepsWriteThrough(l, a);
        }
      case Local(le) =>
        var r, r' := l.r, Step(l.r, le);
        StepIssuesItsWrite(r, le);
        if r'.outbox != r.outbox {
          var c := r'.outbox[|r.outbox|];
          ExecuteLast(l.hash, r.outbox, c);
          ExecuteOnCores(ExecuteAll(l.hash, r.outbox), r.services, c);
        }
    }
  }

  /** A container that has just loaded the hash; the gauge is whatever it was. */
  function Hydrated(hash: Services, gauge: int): Linked {
    Linked(Registry(true, hash, gauge, [], multiset{}), hash)
  }

  /** A step never disconnects a container. */
  lemma {:induction false} StaysConnected(l: Linked, events: seq<LinkedEvent>)
    requires l.r.connected
    ensures LinkedRun(l, events).r.connected
  {
    if events != [] {
      var before, e := events[..|events| - 1], events[|events| - 1];
      StaysConnected(l, before);
      if e.Local? && Rewritten(LinkedRun(l, before).r.services, e.e).Ok? {
        WritingShape(LinkedRun(l, before).r, e.e);
      }
    }
  }

  /** Throughout the run pending commands turn Redis into the memory map. */
  ghost predicate AlwaysWrittenThrough(l: Linked, events: seq<LinkedEvent>) {
    WrittenThrough(LinkedRun(l, events)) && (events != [] ==> AlwaysWrittenThrough(l, events[..|events| - 1]))
  }

  ghost predicate AllHarmless(l: Linked, events: seq<LinkedEvent>) {
    events != [] ==>
      var before := events[..|events| - 1];
      AllHarmless(l, before) && Harmless(LinkedRun(l, before).r, events[|events| - 1])
  }

  /**
   * Write-through: throughout a run pending commands turn Redis into the memory map, if and only if every
   * resync and every rollback of the run is harmless; so in every run without them.
   */
  lemma {:induction false} WriteThrough(hash: Services, gauge: int, events: seq<LinkedEvent>)
    ensures AlwaysWrittenThrough(Hydrated(hash, gauge), events) <==> AllHarmless(Hydrated(hash, gauge), events)
    ensures (forall i | 0 <= i < |events| && events[i].Local? :: !events[i].e.WriteFailed? && !events[i].e.Load?)
            ==> AlwaysWrittenThrough(Hydrated(hash, gauge), events)
  {
    var l := Hydrated(hash, gauge);
    if events != [] {
      var before := events[..|events| - 1];
      WriteThrough(hash, gauge, before);
      StaysConnected(l, before);
      if WrittenThrough(LinkedRun(l, before)) {
        StepWritesThrough(LinkedRun(l, before), events[|events| - 1]);
      }
    }
  }

  /** The race behind it: a reply that predates an update, delivered after it, undoes the update in memory only. */
  lemma StaleReplyUndoesUpdate(r: Registry, m: Manifest, now: int)
    requires r.connected && r.outbox == [] && m.serviceId in r.services && now != r.services[m.serviceId].updatedAt
    requires Rewritten(r.services, Register(m, now)).Ok?
    ensures var r' := Step(Step(r, Register(m, now)), Load(r.services));
            var hash' := ExecuteAll(r.services, r'.outbox);
            && r'.services[m.serviceId] == r.services[m.serviceId]
            && hash'[m.serviceId].manifest == m && hash'[m.serviceId].updatedAt == now
            && !WrittenThrough(Linked(r', r.services))
  {
    var r' := Step(Step(r, Register(m, now)), Load(r.services));
    var entry := NewEntry(Some(r.services[m.serviceId]), m, now);
    ExecuteLast(r.services, [], HSet(m.serviceId, entry));
    assert r'.outbox == [] + [HSet(m.serviceId, entry)];
    var hash' := ExecuteAll(r.services, r'.outbox);
    assert Cores(hash')[m.serviceId].updatedAt != Cores(r'.services)[m.serviceId].updatedAt;
  }

  // ---------------------------------------------------------------- rollback

  /** A failed registration undoes itself exactly when it was not an update: what it replaced is not restored. */
  lemma FailedUpdateDropsEntry(r: Registry, m: Manifest, now: int)
    requires Rewritten(r.services, Register(m, now)).Ok?
    ensures var r' := Step(Step(r, Register(m, now)), WriteFailed(Await(m.serviceId, m.serviceId in r.services)));
            && r'.services == r.services - {m.serviceId} && r'.awaiting == r.awaiting
            && (r'.services == r.services <==> m.serviceId !in r.services)
  {
  }

  /**
   * The same whatever happens between a registration and its failure: the rollback leaves `id` as it was
   * before the registration exactly when it was absent, and drops whatever memory holds of it by then.
   */
  lemma LateRollback(r: Registry, m: Manifest, now: int, events: seq<Event>)
    requires Rewritten(r.services, Register(m, now)).Ok?
    requires Await(m.serviceId, m.serviceId in r.services) in Run(Step(r, Register(m, now)), events).awaiting
    ensures var id := m.serviceId; var was := Run(Step(r, Register(m, now)), events);
            var r' := Step(was, WriteFailed(Await(id, id in r.services)));
            && r'.services == was.services - {id}
            && (Get(r'.services, id) == Get(r.services, id) <==> id !in r.services)
            && (r'.services == was.services <==> id !in was.services)
  {
  }

  /**
   * A rollback takes a newer registration with it: when one is accepted while an older one awaits Redis
   * and the older one fails, memory loses the id and Redis is left with the newer entry.
   */
  lemma RollbackDropsNewer(l: Linked, a: Await, m: Manifest, now: int)
    requires l.r.connected && WrittenThrough(l) && a in l.r.awaiting && a.id == m.serviceId
    requires Rewritten(l.r.services, Register(m, now)).Ok?
    ensures var id := m.serviceId; var r' := Step(Step(l.r, Register(m, now)), WriteFailed(a));
            && id !in r'.services
            && id in ExecuteAll(l.hash, r'.outbox) && ExecuteAll(l.hash, r'.outbox)[id].manifest == m
  {
    var entry := NewEntry(Get(l.r.services, m.serviceId), m, now);
    var r1 := Step(l.r, Register(m, now));
    assert r1.outbox == l.r.outbox + [HSet(m.serviceId, entry)];
    assert a in r1.awaiting;
    ExecuteLast(l.hash, l.r.outbox, HSet(m.serviceId, entry));
  }
}
