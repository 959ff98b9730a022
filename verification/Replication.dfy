/**
 * Containers that share one Redis hash. Every command of a container reaches Redis in its own time
 * or is lost, and a reply of HGETALL may be delivered long after it was read.
 */
module Replication {
  import opened Prelude
  import opened Registry
  import RR = RegistryRuns
  import RE = RegistryEntries

  /**
   * `issued` records, for every update ever made, the entry it wrote, by id and updatedAt stamp.
   * `replies` are the states of the hash that have been read so far.
   */
  datatype System = System(containers: map<nat, Registry>, hash: Services, replies: seq<Services>,
                           issued: map<(string, int), Entry>)

  datatype SystemEvent =
    | Boot(c: nat, connected: bool)
    | At(c: nat, e: Event)
    | Executes(c: nat)
    | Loses(c: nat)
    | GetAll
    | Deliver(c: nat, reply: nat)

  /** Resyncs come from replies only; every other registry event may happen at any container at any time. */
  predicate Enabled(s: System, e: SystemEvent) {
    match e
    case Boot(_, _) => true
    case At(c, le) => c in s.containers && !le.Load?
    case Executes(c) => c in s.containers && s.containers[c].outbox != []
    case Loses(c) => c in s.containers && s.containers[c].outbox != []
    case GetAll => true
    case Deliver(c, i) => c in s.containers && i < |s.replies|
  }

  function Stamp(s: System, c: nat, e: Event): System
    requires c in s.containers
  {
    var entry := Rewritten(s.containers[c].services, e);
    if entry.Err? then s
    else s.(issued := s.issued[(IdOf(e), entry.value.updatedAt) := Core(entry.value)])
  }

  function SystemStep(s: System, e: SystemEvent): System {
    if !Enabled(s, e) then s
    else
      match e
      case Boot(c, connected) => s.(containers := s.containers[c := Empty(connected)])
      case At(c, le) => Stamp(s, c, le).(containers := s.containers[c := Step(s.containers[c], le)])
      case Executes(c) =>
        var r := s.containers[c];
        s.(containers := s.containers[c := r.(outbox := r.outbox[1..])], hash := Execute(s.hash, r.outbox[0]))
      case Loses(c) =>
        var r := s.containers[c];
        s.(containers := s.containers[c := r.(outbox := r.outbox[1..])])
      case GetAll => s.(replies := s.replies + [s.hash])
      case Deliver(c, i) => s.(containers := s.containers[c := Step(s.containers[c], Load(s.replies[i]))])
  }

  /** No container yet, and whatever the hash held before. */
  function Start(hash: Services): System {
    System(map[], hash, [], map id | id in hash :: (id, hash[id].updatedAt) := Core(hash[id]))
  }

  function SystemRun(hash: Services, events: seq<SystemEvent>): System {
    if events == [] then Start(hash) else SystemStep(SystemRun(hash, events[..|events| - 1]), events[|events| - 1])
  }

  /** The update that `e` makes, if it makes one, happens at a time no earlier update of that id is stamped with. */
  predicate FreshStamp(s: System, e: SystemEvent) {
    e.At? && Enabled(s, e) && Rewritten(s.containers[e.c].services, e.e).Ok? ==>
      (IdOf(e.e), ClockOf(e.e)) !in s.issued
  }

  ghost predicate FreshStamps(hash: Services, events: seq<SystemEvent>) {
    forall i | 0 <= i < |events| :: FreshStamp(SystemRun(hash, events[..i]), events[i])
  }

  // ---------------------------------------------------------------- one stamp, one entry

  /** Every entry of `m` is, up to its latest health check, what its stamp was issued for. */
  ghost predicate Known(issued: map<(string, int), Entry>, m: Services) {
    forall id | id in m :: (id, m[id].updatedAt) in issued && issued[(id, m[id].updatedAt)] == Core(m[id])
  }

  ghost predicate KnownCommands(issued: map<(string, int), Entry>, cs: seq<Command>) {
    forall i | 0 <= i < |cs| && cs[i].HSet? ::
      (cs[i].id, cs[i].entry.updatedAt) in issued && issued[(cs[i].id, cs[i].entry.updatedAt)] == Core(cs[i].entry)
  }

  /** Every copy in the system is known: in Redis, in every memory, under way in either direction. */
  ghost predicate AllKnown(s: System) {
    && Known(s.issued, s.hash)
    && (forall c | c in s.containers ::
          Known(s.issued, s.containers[c].services) && KnownCommands(s.issued, s.containers[c].outbox))
    && (forall i | 0 <= i < |s.replies| :: Known(s.issued, s.replies[i]))
  }

  ghost predicate Extends(a: map<(string, int), Entry>, b: map<(string, int), Entry>) {
    forall k | k in a :: k in b && b[k] == a[k]
  }

  lemma ExtendsKnown(issued: map<(string, int), Entry>, issued': map<(string, int), Entry>,
                     m: Services, cs: seq<Command>)
    requires Known(issued, m) && KnownCommands(issued, cs) && Extends(issued, issued')
    ensures Known(issued', m) && KnownCommands(issued', cs)
  {
  }

  /** One registry event leaves a container's copies known, with the entry it writes issued under its new stamp. */
  lemma LocalStepKnown(r: Registry, e: Event, issued: map<(string, int), Entry>, issued': map<(string, int), Entry>)
    requires !e.Load? && Known(issued, r.services) && KnownCommands(issued, r.outbox) && Extends(issued, issued')
    requires var entry := Rewritten(r.services, e);
      entry.Ok? ==>
        && (IdOf(e), entry.value.updatedAt) in issued'
        && issued'[(IdOf(e), entry.value.updatedAt)] == Core(entry.value)
    ensures Known(issued', Step(r, e).services) && KnownCommands(issued', Step(r, e).outbox)
  {
    if Rewritten(r.services, e).Ok? {
      RR.WritingShape(r, e);
    } else {
      RR.OtherShape(r, e);
      assert forall id | id in Step(r, e).services ::
        Core(Step(r, e).services[id]).updatedAt == Core(r.services[id]).updatedAt;
    }
    ExtendsKnown(issued, issued', r.services, r.outbox);
    var s', cs', entry := Step(r, e).services, Step(r, e).outbox, Rewritten(r.services, e);
    KnownAfter(issued', r.services, r.outbox, s', cs', IdOf(e), entry);
  }

  lemma KnownAfter(issued: map<(string, int), Entry>, s: Services, cs: seq<Command>, s': Services, cs': seq<Command>,
                   id: string, entry: Result<Entry, Error>)
    requires Known(issued, s) && KnownCommands(issued, cs)
    requires entry.Ok? ==>
      (id, entry.value.updatedAt) in issued && issued[(id, entry.value.updatedAt)] == Core(entry.value)
    requires if entry.Ok? then s' == s[id := entry.value]
             else && s'.Keys <= s.Keys
                  && forall i | i in s' :: s'[i].updatedAt == s[i].updatedAt && Core(s'[i]) == Core(s[i])
    requires cs' == cs || (entry.Ok? && cs' == cs + [HSet(id, entry.value)]) || cs' == cs + [HDel(id)]
    ensures Known(issued, s') && KnownCommands(issued, cs')
  {
  }

  lemma {:induction false} AtKeepsKnown(s: System, c: nat, e: Event)
    requires AllKnown(s) && FreshStamp(s, At(c, e)) && Enabled(s, At(c, e))
    ensures AllKnown(SystemStep(s, At(c, e)))
  {
    var s' := SystemStep(s, At(c, e));
    assert Extends(s.issued, s'.issued);
    if Rewritten(s.containers[c].services, e).Ok? {
      RE.StampIsClock(s.containers[c].services, e);
    }
    LocalStepKnown(s.containers[c], e, s.issued, s'.issued);
    assert s'.containers == s.containers[c := Step(s.containers[c], e)];
    ExtendsKnown(s.issued, s'.issued, s.hash, []);
    forall d | d in s'.containers && d != c
      ensures Known(s'.issued, s'.containers[d].services) && KnownCommands(s'.issued, s'.containers[d].outbox)
    {
      ExtendsKnown(s.issued, s'.issued, s.containers[d].services, s.containers[d].outbox);
    }
    forall i | 0 <= i < |s'.replies| ensures Known(s'.issued, s'.replies[i]) {
      ExtendsKnown(s.issued, s'.issued, s.replies[i], []);
    }
  }

  lemma ExecutesKeepsKnown(s: System, c: nat)
    requires AllKnown(s) && Enabled(s, Executes(c))
    ensures AllKnown(SystemStep(s, Executes(c)))
  {
  }

  lemma DeliverKeepsKnown(s: System, c: nat, i: nat)
    requires AllKnown(s) && Enabled(s, Deliver(c, i))
    ensures AllKnown(SystemStep(s, Deliver(c, i)))
  {
  }

  lemma {:induction false} StepKeepsKnown(s: System, e: SystemEvent)
    requires AllKnown(s) && FreshStamp(s, e)
    ensures AllKnown(SystemStep(s, e))
  {
    if Enabled(s, e) {
      match e {
        case At(c, le) => AtKeepsKnown(s, c, le);
        case Executes(c) => ExecutesKeepsKnown(s, c);
        case Deliver(c, i) => DeliverKeepsKnown(s, c, i);
        case _ =>
      }
    }
  }

  lemma {:induction false} RunKeepsKnown(hash: Services, events: seq<SystemEvent>)
    requires FreshStamps(hash, events)
    ensures AllKnown(SystemRun(hash, events))
  {
    if events != [] {
      var n := |events| - 1;
      assert forall i | 0 <= i < n :: events[..n][..i] == events[..i];
      assert FreshStamps(hash, events[..n]);
      RunKeepsKnown(hash, events[..n]);
      StepKeepsKnown(SystemRun(hash, events[..n]), events[n]);
    }
  }

  /** A map that the system holds: the hash, the memory of a container, or a reply under way. */
  ghost predicate Holds(s: System, m: Services) {
    || m == s.hash
    || (exists c :: c in s.containers && m == s.containers[c].services)
    || (exists i :: 0 <= i < |s.replies| && m == s.replies[i])
  }

  /** Two copies of an id with one stamp, in Redis, a memory or a reply, differ at most in lastHealthCheckAt. */
  lemma SameStampSameEntry(hash: Services, events: seq<SystemEvent>, a: Services, b: Services, id: string)
    requires FreshStamps(hash, events) && Holds(SystemRun(hash, events), a) && Holds(SystemRun(hash, events), b)
    requires id in a && id in b && a[id].updatedAt == b[id].updatedAt
    ensures Core(a[id]) == Core(b[id])
  {
    RunKeepsKnown(hash, events);
  }

  // ---------------------------------------------------------------- no proposed services

  ghost predicate NoneProposedIn(cs: seq<Command>) {
    forall i | 0 <= i < |cs| && cs[i].HSet? :: !cs[i].entry.status.Proposed?
  }

  /** No copy anywhere is of a proposed service. */
  ghost predicate NoneProposedAnywhere(s: System) {
    && RR.NoneProposed(s.hash)
    && (forall c | c in s.containers ::
          RR.NoneProposed(s.containers[c].services) && NoneProposedIn(s.containers[c].outbox))
    && (forall i | 0 <= i < |s.replies| :: RR.NoneProposed(s.replies[i]))
  }

  lemma LocalStepNoneProposed(r: Registry, e: Event)
    requires !e.Load? && RR.NoneProposed(r.services) && NoneProposedIn(r.outbox)
    ensures RR.NoneProposed(Step(r, e).services) && NoneProposedIn(Step(r, e).outbox)
  {
    RR.StepKeepsNoneProposed(r, e);
    if Rewritten(r.services, e).Ok? {
      RR.WritingShape(r, e);
      assert IdOf(e) in Step(r, e).services;
    } else {
      RR.OtherShape(r, e);
    }
  }

  lemma StepNoneProposed(s: System, e: SystemEvent)
    requires NoneProposedAnywhere(s)
    ensures NoneProposedAnywhere(SystemStep(s, e))
  {
    if Enabled(s, e) {
      match e {
        case At(c, le) => LocalStepNoneProposed(s.containers[c], le);
        case Deliver(c, i) => assert RR.NoneProposed(s.containers[c].services + s.replies[i]);
        case _ =>
      }
    }
  }

  /** A hash without proposed services never leads to one, in any memory, command or reply: no code path proposes. */
  lemma {:induction false} NeverProposed(hash: Services, events: seq<SystemEvent>)
    requires RR.NoneProposed(hash)
    ensures NoneProposedAnywhere(SystemRun(hash, events))
  {
    if events != [] {
      var s, e := SystemRun(hash, events[..|events| - 1]), events[|events| - 1];
      NeverProposed(hash, events[..|events| - 1]);
      StepNoneProposed(s, e);
    }
  }

  // ---------------------------------------------------------------- drift

  datatype Drift = Drift(missingInMemory: set<string>, missingInRedis: set<string>, diverged: set<string>)

  const NO_DRIFT := Drift({}, {}, {})

  /** What the drift check finds: keys on one side only, and keys whose updatedAt differs. */
  function DriftOf(redis: Services, memory: Services): Drift {
    Drift(redis.Keys - memory.Keys, memory.Keys - redis.Keys,
      set id | id in redis && id in memory && redis[id].updatedAt != memory[id].updatedAt)
  }

  lemma EqualMeansNoDrift(redis: Services, memory: Services)
    requires Cores(redis) == Cores(memory)
    ensures DriftOf(redis, memory) == NO_DRIFT
  {
    assert redis.Keys == Cores(redis).Keys && memory.Keys == Cores(memory).Keys;
    forall id | id in redis && id in memory ensures redis[id].updatedAt == memory[id].updatedAt {
      assert Cores(redis)[id].updatedAt == Cores(memory)[id].updatedAt;
    }
  }

  lemma NoDriftMeansEqual(issued: map<(string, int), Entry>, redis: Services, memory: Services)
    requires Known(issued, redis) && Known(issued, memory)
    ensures DriftOf(redis, memory) == NO_DRIFT <==> Cores(redis) == Cores(memory)
  {
    if DriftOf(redis, memory) == NO_DRIFT {
      assert redis.Keys == memory.Keys;
      forall id | id in redis ensures Core(redis[id]) == Core(memory[id]) {
        assert id in memory && id !in DriftOf(redis, memory).diverged;
      }
    }
    if Cores(redis) == Cores(memory) {
      EqualMeansNoDrift(redis, memory);
    }
  }

  /**
   * The drift check is exact although it compares stamps only: it reports no drift if and only if the
   * reply and the memory agree on every id up to the latest health checks.
   */
  lemma {:induction false} DriftCheckExact(hash: Services, events: seq<SystemEvent>, c: nat, i: nat)
    requires FreshStamps(hash, events)
    requires c in SystemRun(hash, events).containers && i < |SystemRun(hash, events).replies|
    ensures var s := SystemRun(hash, events);
            DriftOf(s.replies[i], s.containers[c].services) == NO_DRIFT
            <==> Cores(s.replies[i]) == Cores(s.containers[c].services)
  {
    var s := SystemRun(hash, events);
    RunKeepsKnown(hash, events);
    NoDriftMeansEqual(s.issued, s.replies[i], s.containers[c].services);
  }

  predicate Reported(d: Drift, id: string) {
    id in d.missingInMemory || id in d.missingInRedis || id in d.diverged
  }

  /** Id by id: the check reports what Redis holds exactly at the containers that do not hold the same. */
  lemma {:induction false} ReportedExactly(hash: Services, events: seq<SystemEvent>, d: nat, id: string)
    requires FreshStamps(hash, events) && d in SystemRun(hash, events).containers
    requires id in SystemRun(hash, events).hash
    ensures var s := SystemRun(hash, events); var memory := s.containers[d].services;
            Reported(DriftOf(s.hash, memory), id)
            <==> !(id in memory && Core(memory[id]) == Core(s.hash[id]))
  {
    var s := SystemRun(hash, events);
    RunKeepsKnown(hash, events);
    if id in s.containers[d].services && s.containers[d].services[id].updatedAt == s.hash[id].updatedAt {
      assert Core(s.containers[d].services[id]) == Core(s.hash[id]);
    } else if id in s.containers[d].services {
      assert Core(s.containers[d].services[id]).updatedAt != Core(s.hash[id]).updatedAt;
    }
  }

  /** A retirement in Redis is in force at every container whose check does not report it. */
  lemma RetiredUnlessReported(hash: Services, events: seq<SystemEvent>, d: nat, id: string)
    requires FreshStamps(hash, events) && d in SystemRun(hash, events).containers
    requires id in SystemRun(hash, events).hash && SystemRun(hash, events).hash[id].status.Retired?
    ensures var s := SystemRun(hash, events);
            Reported(DriftOf(s.hash, s.containers[d].services), id) || RR.IsRetired(s.containers[d], id)
  {
    var s := SystemRun(hash, events);
    ReportedExactly(hash, events, d, id);
    if !Reported(DriftOf(s.hash, s.containers[d].services), id) {
      assert Core(s.containers[d].services[id]).status == Core(s.hash[id]).status;
    }
  }

  /**
   * No update goes unnoticed: once the commands of the container that made it have executed, the check of
   * every other container reports the id.
   */
  lemma {:induction false} UpdateIsReported(hash: Services, events: seq<SystemEvent>, c: nat, e: Event, d: nat)
    requires FreshStamps(hash, events) && FreshStamp(SystemRun(hash, events), At(c, e))
    requires var s := SystemRun(hash, events);
      && c in s.containers && d in s.containers && c != d && s.containers[c].connected
      && Rewritten(s.containers[c].services, e).Ok?
    ensures var s' := SystemStep(SystemRun(hash, events), At(c, e));
      && d in s'.containers && c in s'.containers
      && var redis := ExecuteAll(s'.hash, s'.containers[c].outbox);
         && IdOf(e) in redis && redis[IdOf(e)] == s'.containers[c].services[IdOf(e)]
         && redis[IdOf(e)].updatedAt == ClockOf(e)
         && Reported(DriftOf(redis, s'.containers[d].services), IdOf(e))
  {
    var s := SystemRun(hash, events);
    var r, entry := s.containers[c], Rewritten(s.containers[c].services, e).value;
    RunKeepsKnown(hash, events);
    RR.WritingShape(r, e);
    RE.StampIsClock(r.services, e);
    RR.ExecuteLast(s.hash, r.outbox, HSet(IdOf(e), entry));
  }

  // ---------------------------------------------------------------- reconciliation

  /** One pass against a hash that nobody writes meanwhile: overlay it on drift. */
  function Pass(redis: Services, memory: Services): Services {
    if DriftOf(redis, memory) == NO_DRIFT then memory else memory + redis
  }

  /** After a pass memory agrees with Redis on all of Redis, and keeps what Redis does not have. */
  lemma PassOverlays(issued: map<(string, int), Entry>, redis: Services, memory: Services)
    requires Known(issued, redis) && Known(issued, memory)
    ensures var after := Pass(redis, memory);
      && after.Keys == memory.Keys + redis.Keys
      && (forall id | id in redis :: Core(after[id]) == Core(redis[id]))
      && (forall id | id in memory && id !in redis :: after[id] == memory[id])
  {
  }

  /** All a second pass can report is what memory holds and Redis does not; and it changes nothing. */
  lemma PassIsIdempotent(redis: Services, memory: Services)
    ensures DriftOf(redis, Pass(redis, memory)) == Drift({}, memory.Keys - redis.Keys, {})
    ensures Pass(redis, Pass(redis, memory)) == Pass(redis, memory)
  {
  }

  /** The pass of container c as system steps: read, compare, and on drift read again and deliver. */
  function PassEvents(s: System, c: nat): seq<SystemEvent>
    requires c in s.containers
  {
    if DriftOf(s.hash, s.containers[c].services) == NO_DRIFT then [GetAll]
    else [GetAll, GetAll, Deliver(c, |s.replies| + 1)]
  }

  function Steps(s: System, events: seq<SystemEvent>): System
    decreases |events|
  {
    if events == [] then s else Steps(SystemStep(s, events[0]), events[1..])
  }

  function ReconcileAt(s: System, c: nat): System
    requires c in s.containers
  {
    Steps(s, PassEvents(s, c))
  }

  lemma ReconcileAtIsPass(s: System, c: nat)
    requires c in s.containers && s.containers[c].connected
    ensures var s' := ReconcileAt(s, c);
      && s'.hash == s.hash && s'.issued == s.issued
      && s'.containers == s.containers[c := s.containers[c].(services := Pass(s.hash, s.containers[c].services))]
  {
    var s1 := SystemStep(s, GetAll);
    if DriftOf(s.hash, s.containers[c].services) == NO_DRIFT {
      assert PassEvents(s, c)[1..] == [];
      assert Steps(s1, []) == s1;
    } else {
      var last := Deliver(c, |s.replies| + 1);
      var s2 := SystemStep(s1, GetAll);
      var s3 := SystemStep(s2, last);
      assert s2.replies[|s.replies| + 1] == s.hash;
      assert PassEvents(s, c)[1..] == [GetAll, last];
      assert [GetAll, last][1..] == [last];
      assert [last][1..] == [];
      assert Steps(s3, []) == s3;
      assert Steps(s2, [last]) == s3;
      assert Steps(s1, [GetAll, last]) == s3;
      assert s3.containers[c] == s.containers[c].(services := s.containers[c].services + s.hash);
    }
  }

  /** Passes of the listed containers, one after the other, with no writes between. */
  function Sweep(s: System, cs: seq<nat>): System
    requires forall i | 0 <= i < |cs| :: cs[i] in s.containers && s.containers[cs[i]].connected
    ensures var s' := Sweep(s, cs);
      && s'.containers.Keys == s.containers.Keys && s'.hash == s.hash
      && forall c | c in s.containers :: s'.containers[c].connected == s.containers[c].connected
  {
    if cs == [] then s
    else
      var before := Sweep(s, cs[..|cs| - 1]);
      ReconcileAtIsPass(before, cs[|cs| - 1]);
      ReconcileAt(before, cs[|cs| - 1])
  }

  /** The last pass of a sweep moves the last container only. */
  lemma LastPass(s: System, cs: seq<nat>, c: nat)
    requires cs != [] && (forall i | 0 <= i < |cs| :: cs[i] in s.containers && s.containers[cs[i]].connected)
    requires c in s.containers
    ensures var d, before := cs[|cs| - 1], Sweep(s, cs[..|cs| - 1]);
      Sweep(s, cs).containers[c].services ==
        if c == d then Pass(s.hash, before.containers[c].services) else before.containers[c].services
  {
    ReconcileAtIsPass(Sweep(s, cs[..|cs| - 1]), cs[|cs| - 1]);
  }

  /** However often each container is listed, sweeping gives the listed ones one pass each and the others none. */
  lemma {:induction false} SweepIsOnePassEach(s: System, cs: seq<nat>)
    requires forall i | 0 <= i < |cs| :: cs[i] in s.containers && s.containers[cs[i]].connected
    ensures forall c | c in s.containers ::
      var was := s.containers[c].services;
      Sweep(s, cs).containers[c].services == if c in cs then Pass(s.hash, was) else was
  {
    if cs != [] {
      var d, rest := cs[|cs| - 1], cs[..|cs| - 1];
      SweepIsOnePassEach(s, rest);
      assert cs == rest + [d];
      forall c | c in s.containers
        ensures Sweep(s, cs).containers[c].services ==
                if c in cs then Pass(s.hash, s.containers[c].services) else s.containers[c].services
      {
        LastPass(s, cs, c);
        PassIsIdempotent(s.hash, s.containers[c].services);
      }
    }
  }

  /**
   * Reconciliation: from any reachable state, once each listed container has run a pass with no writes
   * between, they agree with Redis, and so with each other, on every id in Redis; and from then on all
   * any of them can report is the ids it alone holds.
   */
  lemma {:induction false} ReconciliationConverges(hash: Services, events: seq<SystemEvent>, cs: seq<nat>, c: nat)
    requires FreshStamps(hash, events) && c in cs
    requires var s := SystemRun(hash, events);
      forall i | 0 <= i < |cs| :: cs[i] in s.containers && s.containers[cs[i]].connected
    ensures var s := SystemRun(hash, events); var m := Sweep(s, cs).containers[c].services;
      && (forall id | id in s.hash :: id in m && Core(m[id]) == Core(s.hash[id]))
      && (forall id | id in s.containers[c].services && id !in s.hash ::
            id in m && m[id] == s.containers[c].services[id])
      && DriftOf(s.hash, m) == Drift({}, s.containers[c].services.Keys - s.hash.Keys, {})
      && Pass(s.hash, m) == m
  {
    var s := SystemRun(hash, events);
    RunKeepsKnown(hash, events);
    SweepIsOnePassEach(s, cs);
    PassOverlays(s.issued, s.hash, s.containers[c].services);
    PassIsIdempotent(s.hash, s.containers[c].services);
  }

  // ---------------------------------------------------------------- passes that interleave

  /** Nothing but reads of the hash, and deliveries of replies numbered `from` and on. */
  predicate OnlyResyncs(events: seq<SystemEvent>, from: nat) {
    forall i | 0 <= i < |events| :: events[i].GetAll? || (events[i].Deliver? && from <= events[i].reply)
  }

  /** Somewhere in the run container c, connected, gets a reply that has been read. */
  predicate Reloads(s: System, events: seq<SystemEvent>, c: nat)
    decreases |events|
  {
    && events != []
    && (|| (events[0].Deliver? && events[0].c == c && Enabled(s, events[0]) && s.containers[c].connected)
        || Reloads(SystemStep(s, events[0]), events[1..], c))
  }

  /** All replies from the `from`-th on are the hash as it is. */
  predicate Current(s: System, from: nat) {
    from <= |s.replies| && forall i | from <= i < |s.replies| :: s.replies[i] == s.hash
  }

  lemma ResyncStep(s: System, e: SystemEvent, from: nat)
    requires Current(s, from) && (e.GetAll? || (e.Deliver? && from <= e.reply))
    ensures var s' := SystemStep(s, e);
      && Current(s', from) && s'.hash == s.hash && s'.containers.Keys == s.containers.Keys
      && forall c | c in s.containers ::
           && s'.containers[c].connected == s.containers[c].connected
           && s'.containers[c].services ==
                if e.Deliver? && e.c == c && Enabled(s, e) && s.containers[c].connected
                then s.containers[c].services + s.hash
                else s.containers[c].services
  {
    if e.Deliver? && Enabled(s, e) {
      assert s.replies[e.reply] == s.hash;
      assert SystemStep(s, e).containers == s.containers[e.c := Step(s.containers[e.c], Load(s.hash))];
    }
  }

  /** In any order, each container overlays the hash if it reloads at all, and keeps its memory if not. */
  lemma {:induction false} ResyncsOverlay(s: System, events: seq<SystemEvent>, from: nat, c: nat)
    requires Current(s, from) && OnlyResyncs(events, from) && c in s.containers
    ensures var s' := Steps(s, events);
      && s'.hash == s.hash && c in s'.containers
      && s'.containers[c].services ==
           if Reloads(s, events, c) then s.containers[c].services + s.hash else s.containers[c].services
    decreases |events|
  {
    if events != [] {
      ResyncStep(s, events[0], from);
      ResyncsOverlay(SystemStep(s, events[0]), events[1..], from, c);
      var m := s.containers[c].services;
      assert (m + s.hash) + s.hash == m + s.hash;
    }
  }

  /**
   * Reconciliation of containers whose reads and loads interleave in any way, with no writes between: each
   * one that found no drift at the start or has reloaded since agrees with Redis on every id in Redis and
   * keeps its own others, which are all it reports from then on.
   */
  lemma {:induction false} InterleavedReconciliationConverges(hash: Services, events: seq<SystemEvent>,
                                                              resyncs: seq<SystemEvent>, c: nat)
    requires FreshStamps(hash, events) && c in SystemRun(hash, events).containers
    requires var s := SystemRun(hash, events);
      && OnlyResyncs(resyncs, |s.replies|)
      && (Reloads(s, resyncs, c) || DriftOf(s.hash, s.containers[c].services) == NO_DRIFT)
    ensures c in Steps(SystemRun(hash, events), resyncs).containers
    ensures var s := SystemRun(hash, events); var m := Steps(s, resyncs).containers[c].services;
      && Steps(s, resyncs).hash == s.hash
      && (forall id | id in s.hash :: id in m && Core(m[id]) == Core(s.hash[id]))
      && (forall id | id in s.containers[c].services && id !in s.hash ::
            id in m && m[id] == s.containers[c].services[id])
      && DriftOf(s.hash, m) == Drift({}, s.containers[c].services.Keys - s.hash.Keys, {})
      && Pass(s.hash, m) == m
  {
    var s := SystemRun(hash, events);
    RunKeepsKnown(hash, events);
    ResyncsOverlay(s, resyncs, |s.replies|, c);
    PassOverlays(s.issued, s.hash, s.containers[c].services);
    PassIsIdempotent(s.hash, s.containers[c].services);
  }
}
