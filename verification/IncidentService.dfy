/** The incident service: recovery plans are shared objects that approval changes in place. */
module IncidentService {
  import opened Wrappers
  import Text
  import opened Topology
  import opened Audit
  import opened FailureDomain
  import opened Incidents

  datatype PlanError = ActionNotAllowed | UnknownTarget | NotAwaitingApproval

  class RecoveryPlan {
    const incidentId: Id
    const action: string
    const target: string
    var status: Status

    constructor (incidentId: Id, action: string, target: string)
      ensures status == AwaitingApproval && this.incidentId == incidentId
      ensures this.action == action && this.target == target
    {
      this.incidentId, this.action, this.target, status := incidentId, action, target, AwaitingApproval;
    }

    /** Approval is one-way: it succeeds once. */
    method ApproveRecovery() returns (r: Result<RecoveryPlan, PlanError>)
      modifies this
      ensures r == if old(status) == AwaitingApproval then Success(this) else Failure(NotAwaitingApproval)
      ensures status == Approved
    {
      if status != AwaitingApproval {
        return Failure(NotAwaitingApproval);
      }
      status := Approved;
      return Success(this);
    }
  }

  method CreateRecoveryPlan(t: Topology, id: Id, action: string, target: string)
    returns (r: Result<RecoveryPlan, PlanError>)
    ensures r.Success? <==> action == "restore_link" && target in t.LinkIds()
    ensures action != "restore_link" <==> r == Failure(ActionNotAllowed)
    ensures action == "restore_link" && target !in t.LinkIds() <==> r == Failure(UnknownTarget)
    ensures r.Success? ==> fresh(r.value) && r.value.status == AwaitingApproval
    ensures r.Success? ==> r.value.incidentId == id && r.value.action == action && r.value.target == target
  {
    if action != "restore_link" {
      return Failure(ActionNotAllowed);
    }
    if target !in t.LinkIds() {
      return Failure(UnknownTarget);
    }
    var plan := new RecoveryPlan(id, action, target);
    return Success(plan);
  }

  /** One incident; only the status inside its plan ever changes. */
  class Incident {
    const id: Id
    const fingerprint: Digest
    const event: NetworkEvent
    const analysis: ImpactAnalysis
    const plan: RecoveryPlan

    constructor (id: Id, event: NetworkEvent, analysis: ImpactAnalysis, plan: RecoveryPlan)
      ensures this.id == id && fingerprint == Fingerprint(event) && this.event == event
      ensures this.analysis == analysis && this.plan == plan
    {
      this.id, this.fingerprint, this.event := id, Fingerprint(event), event;
      this.analysis, this.plan := analysis, plan;
    }

    ghost function View(): Entry
      reads this, plan
    {
      Entry(id, fingerprint, event, analysis, plan.status)
    }
  }

  /** What the impact analysis makes of an event. */
  ghost predicate Diagnoses(t: Topology, event: NetworkEvent, d: Diagnosis)
    requires t.Valid()
  {
    && (d.Success? <==> event.eventType == LINK_DOWN && event.linkId in t.LinkIds() && Diagnosable(t))
    && (d.Success? ==> Analyzes(t, event.linkId, d.value))
  }

  /** Every link failure can be diagnosed: there is service, and each access node has it. */
  ghost predicate Diagnosable(t: Topology)
    requires t.Valid()
  {
    ServiceNodes(t) != {} && HasBaselines(t)
  }

  method Diagnose(t: Topology, event: NetworkEvent) returns (d: Diagnosis)
    requires t.Valid()
    ensures Diagnoses(t, event, d)
  {
    d := AnalyzeLinkDown(t, event.eventType, event.linkId);
  }

  /** The incident's plan restores the link of its own event, which the analysis is about. */
  ghost predicate RestoresItsLink(t: Topology, incident: Incident)
    requires t.Valid()
  {
    && incident.plan.incidentId == incident.id
    && incident.plan.action == "restore_link" && incident.plan.target == incident.event.linkId
    && incident.event.eventType == LINK_DOWN && incident.event.linkId in t.LinkIds()
    && Analyzes(t, incident.event.linkId, incident.analysis)
  }

  /** Every event of the run carries what the analysis makes of it. */
  ghost predicate Honest(t: Topology, ops: seq<Op>)
    requires t.Valid()
  {
    forall op | op in ops && op.Ingest? :: Diagnoses(t, op.event, op.diagnosis)
  }

  /** Runs against a topology only record link_down incidents on its links, and none when nothing can be diagnosed. */
  lemma DiagnosedByTopology(t: Topology, ops: seq<Op>)
    requires t.Valid() && Honest(t, ops)
    ensures Diagnosed(ops, if Diagnosable(t) then t.LinkIds() else {})
    ensures Diagnosed(ops, t.LinkIds())
  {
  }

  /** There is a diagnosis for every event. */
  lemma DiagnosisExists(t: Topology, event: NetworkEvent) returns (d: Diagnosis)
    requires t.Valid()
    ensures Diagnoses(t, event, d)
  {
    if event.eventType == LINK_DOWN && event.linkId in t.LinkIds() && Diagnosable(t) {
      var a := LinkDownIsDiagnosed(t, event.linkId);
      return Success(a);
    }
    return Failure(NoService);
  }

  /** Over every run, each retained entry holds what the analysis makes of its own event. */
  lemma {:induction false} RetainedAreAnalyzed(t: Topology, limits: Limits, ops: seq<Op>, id: Id)
    requires t.Valid() && limits.Valid() && Honest(t, ops) && FreshIds(ops) && id in After(limits, ops).entries
    ensures var e := After(limits, ops).entries[id];
            && e.event.eventType == LINK_DOWN && e.event.linkId in t.LinkIds()
            && Analyzes(t, e.event.linkId, e.analysis)
  {
    var before, op := ops[..|ops| - 1], ops[|ops| - 1];
    assert op in ops;
    NextEntry(After(limits, before), limits, op, id);
    if id in After(limits, before).entries {
      RetainedAreAnalyzed(t, limits, before, id);
    }
  }

  lemma LinkDownIsDiagnosed(t: Topology, link: string) returns (a: ImpactAnalysis)
    requires t.Valid() && link in t.LinkIds() && Diagnosable(t)
    ensures Diagnoses(t, NetworkEvent(link, LINK_DOWN), Success(a))
  {
    var cut := LinkScenario(link).cut;
    var affected := Text.SortedSet(Unavailable(t, cut) + DegradedNodes(t, cut));
    SortedPrefixes(t, Unavailable(t, cut) + DegradedNodes(t, cut));
    a := ImpactAnalysis(link, affected, Text.Sorted(Prefixes(t, affected)), ImpactOf(t, cut));
  }

  lemma OtherTypesAreRefused(t: Topology, event: NetworkEvent, d: Diagnosis)
    requires t.Valid() && event.eventType != LINK_DOWN && Diagnoses(t, event, d)
    ensures d.Failure?
  {
  }

  /**
   What the service does on a topology with a link "x:y": an incident on that link answers an event of type
   "link_down:x" on "y", which the analysis refuses.
   */
  lemma ServiceConfusesColonLink(t: Topology, limits: Limits, x: string, y: string, refusal: Diagnosis)
    returns (analysis: ImpactAnalysis)
    requires t.Valid() && limits.Valid() && x + ":" + y in t.LinkIds() && Diagnosable(t)
    requires Diagnoses(t, NetworkEvent(y, LINK_DOWN + ":" + x), refusal)
    ensures refusal.Failure? && Diagnoses(t, NetworkEvent(x + ":" + y, LINK_DOWN), Success(analysis))
    ensures var first := Ingest(NetworkEvent(x + ":" + y, LINK_DOWN), 0, Inc(0), Success(analysis));
            var second := Ingest(NetworkEvent(y, LINK_DOWN + ":" + x), 0, Inc(1), refusal);
            FreshIds([first]) && Respond(After(limits, [first]), limits, second) == Returned(Inc(0))
  {
    assert |LINK_DOWN + ":" + x| > |LINK_DOWN|;
    OtherTypesAreRefused(t, NetworkEvent(y, LINK_DOWN + ":" + x), refusal);
    analysis := LinkDownIsDiagnosed(t, x + ":" + y);
    ColonLinkIsConfused(limits, x, y, analysis, refusal);
  }

  /** After a run of the service on the topology, the event is answered with the incident of another event. */
  ghost predicate ConfusesOn(t: Topology, limits: Limits, ops: seq<Op>, op: Op)
    requires t.Valid() && limits.Valid()
  {
    Honest(t, ops + [op]) && Confuses(limits, t.LinkIds(), ops, op)
  }

  /** On a topology, some run confuses two events exactly when it is diagnosable and some link of it holds a colon. */
  lemma ServiceConfusesIff(t: Topology, limits: Limits)
    requires t.Valid() && limits.Valid()
    ensures (exists ops, op :: ConfusesOn(t, limits, ops, op))
            <==> Diagnosable(t) && exists l :: l in t.LinkIds() && ':' in l
  {
    if ops, op :| ConfusesOn(t, limits, ops, op) {
      var links := if Diagnosable(t) then t.LinkIds() else {};
      assert forall o | o in ops :: o in ops + [op];
      DiagnosedByTopology(t, ops);
      assert Confuses(limits, links, ops, op);
      DeduplicationConfusesIff(limits, links);
    }
    if l :| Diagnosable(t) && l in t.LinkIds() && ':' in l {
      ColonRunConfuses(t, limits, l);
    }
  }

  lemma ColonRunConfuses(t: Topology, limits: Limits, link: string)
    requires t.Valid() && limits.Valid() && Diagnosable(t) && link in t.LinkIds() && ':' in link
    ensures exists ops, op :: ConfusesOn(t, limits, ops, op)
  {
    var x, y := SplitAtColon(link);
    var refusal := DiagnosisExists(t, NetworkEvent(y, LINK_DOWN + ":" + x));
    var analysis := ServiceConfusesColonLink(t, limits, x, y, refusal);
    var first := Ingest(NetworkEvent(link, LINK_DOWN), 0, Inc(0), Success(analysis));
    var second := Ingest(NetworkEvent(y, LINK_DOWN + ":" + x), 0, Inc(1), refusal);
    ColonLinkIsConfused(limits, x, y, analysis, refusal);
    assert ConfusesOn(t, limits, [first], second);
  }

  /** On a topology whose links hold no colon, an old incident answers only its own event, over every run. */
  lemma ColonFreeServiceIsSound(t: Topology, limits: Limits, ops: seq<Op>, op: Op)
    requires t.Valid() && limits.Valid() && Honest(t, ops) && FreshIds(ops) && forall l | l in t.LinkIds() :: ':' !in l
    requires op.Ingest? && !Offers(ops, op.newId) && AnswersOld(After(limits, ops), limits, op)
    ensures var d := After(limits, ops);
            op.event.eventType == LINK_DOWN && op.event == d.entries[Respond(d, limits, op).id].event
  {
    DiagnosedByTopology(t, ops);
    ColonFreeDeduplicationIsSound(limits, ops, op, t.LinkIds());
  }

  class Service {
    const topology: Topology
    const limits: Limits
    var incidents: map<Id, Incident>
    var order: seq<Id>
    var newest: map<Digest, Id>
    var lastSeen: map<Digest, int>

    ghost function Plans(): set<RecoveryPlan>
      reads this
    {
      set id | id in incidents :: incidents[id].plan
    }

    /** No two retained incidents share a plan. */
    ghost predicate OwnPlans()
      reads this
    {
      forall i, j | i in incidents && j in incidents && i != j :: incidents[i].plan != incidents[j].plan
    }

    /** Every retained plan restores the link of its own incident. */
    ghost predicate PlansRestore()
      reads this
    {
      forall id | id in incidents :: Restores(incidents[id])
    }

    ghost predicate Restores(incident: Incident) {
      topology.Valid() && RestoresItsLink(topology, incident)
    }

    ghost function Entries(): map<Id, Entry>
      reads this, incidents.Values, Plans()
    {
      map id | id in incidents :: incidents[id].View()
    }

    ghost function View(): Desk
      reads this, incidents.Values, Plans()
    {
      Desk(order, Entries(), newest, lastSeen)
    }

    ghost predicate Valid()
      reads this, incidents.Values, Plans()
    {
      && topology.Valid() && limits.Valid() && OwnPlans()
      && InSync(View()) && |order| <= limits.capacity
    }

    constructor (topology: Topology, limits: Limits)
      requires topology.Valid() && limits.Valid()
      ensures Valid() && View() == EMPTY && this.topology == topology && this.limits == limits
      ensures PlansRestore()
    {
      this.topology, this.limits := topology, limits;
      incidents, order, newest, lastSeen := map[], [], map[], map[];
    }

    method Get(id: Id) returns (r: Option<Incident>)
      requires Valid()
      ensures r.Some? <==> id in View().entries
      ensures r.Some? ==> r.value == incidents[id] && r.value.View() == View().entries[id]
    {
      return if id in incidents then Some(incidents[id]) else None;
    }

    method ApproveIncident(id: Id) returns (answer: Answer)
      requires Valid()
      modifies if id in incidents then {incidents[id].plan} else {}
      ensures Valid()
      ensures answer == Respond(old(View()), limits, Approve(id))
      ensures View() == Next(old(View()), limits, Approve(id)) && incidents == old(incidents)
    {
      ghost var before := View();
      var incident := Get(id);
      if incident.None? {
        assert View() == before;
        return NotFound;
      }
      var approval := incident.value.plan.ApproveRecovery();
      assert View() == Next(before, limits, Approve(id)) by {
        EntriesAfterApproval(before, id);
      }
      return if approval.Success? then Returned(id) else NotAwaiting;
    }

    lemma EntriesAfterApproval(before: Desk, id: Id)
      requires InSync(before) && before.order == order && before.newest == newest && before.lastSeen == lastSeen
      requires before.entries.Keys == incidents.Keys && id in incidents && OwnPlans()
      requires forall i | i in incidents && i != id :: incidents[i].View() == before.entries[i]
      requires incidents[id].View() == before.entries[id].(status := Approved)
      ensures View() == Next(before, limits, Approve(id))
    {
      assert Entries() == before.entries[id := before.entries[id].(status := Approved)];
      if before.entries[id].status == Approved {
        assert before.entries[id := before.entries[id].(status := Approved)] == before.entries;
      }
    }

    /** The entry of one fingerprint, when the event repeats it. */
    method FindRepeat(fingerprint: Digest, now: int) returns (r: Option<Incident>)
      requires Valid()
      ensures InSyncLookup(View(), fingerprint)
      ensures r.Some? <==> IsRepeat(View(), limits, fingerprint, now)
      ensures r.Some? ==>
                newest[fingerprint] in incidents && r.value == incidents[newest[fingerprint]]
                    && r.value.id == newest[fingerprint]
      ensures View() == old(View()) && incidents == old(incidents) && newest == old(newest) && Valid()
    {
      LookupsSucceed(View(), fingerprint);
      if fingerprint in newest {
        var existing := incidents[newest[fingerprint]];
        assert EntryOk(View(), newest[fingerprint]);
        var elapsed := now - lastSeen[fingerprint];
        if existing.plan.status == AwaitingApproval && 0 <= elapsed <= limits.window {
          return Some(existing);
        }
      }
      return None;
    }

    ghost predicate InStep()
      reads this, incidents.Values, Plans()
    {
      OwnPlans() && InSync(View())
    }

    /** `popitem(last=False)`, and the side entries when they point at what was popped. */
    method EvictOldest()
      requires InStep() && |order| > 0
      modifies this
      ensures order == old(order)[1..] && InStep()
      ensures old(View()).order[0] in old(View()).entries && View() == DropOldest(old(View()))
      ensures forall id | id in incidents :: id in old(incidents) && incidents[id] == old(incidents[id])
    {
      ghost var before := View();
      DropKeepsSync(before);
      assert before.order[0] == order[0];
      var evictedId := order[0];
      var evicted := incidents[evictedId];
      incidents := incidents - {evictedId};
      order := order[1..];
      if evicted.fingerprint in newest && newest[evicted.fingerprint] == evictedId {
        newest := newest - {evicted.fingerprint};
        lastSeen := lastSeen - {evicted.fingerprint};
      }
      assert Entries() == before.entries - {evictedId};
    }

    method Insertion(incident: Incident, now: int)
      requires InStep() && incident.id !in incidents && incident.plan !in Plans()
      modifies this
      ensures InStep() && View() == old(Insert(View(), incident.View(), now))
      ensures incidents == old(incidents)[incident.id := incident]
    {
      ghost var before := View();
      InsertKeepsSync(before, incident.View(), now);
      incidents := incidents[incident.id := incident];
      order := order + [incident.id];
      newest := newest[incident.fingerprint := incident.id];
      lastSeen := lastSeen[incident.fingerprint := now];
      assert OwnPlans() by {
        assert forall id | id in incidents && id != incident.id :: incidents[id].plan in old(Plans());
      }
      assert View() == Insert(before, incident.View(), now) by {
        assert Entries() == before.entries[incident.id := incident.View()];
      }
    }

    /** Every retained incident but the given one is the object that was retained before. */
    ghost predicate OthersKept(was: map<Id, Incident>, newId: Id)
      reads this
    {
      forall id | id in incidents && id != newId :: id in was && incidents[id] == was[id]
    }

    /** Insert, then evict the oldest incidents beyond the maximum. */
    method Register(incident: Incident, now: int)
      requires Valid() && incident.id !in incidents && incident.plan !in Plans()
      modifies this
      ensures Valid() && View() == old(Enroll(View(), limits, incident.View(), now))
      ensures OthersKept(old(incidents), incident.id)
      ensures incident.id in incidents ==> incidents[incident.id] == incident
    {
      ghost var before := View();
      Insertion(incident, now);
      ghost var all := View();
      CountsAgree();
      while |incidents| > limits.capacity
        invariant InStep() && |incidents| == |order|
        invariant Evict(View(), limits.capacity) == Evict(all, limits.capacity)
        invariant OthersKept(old(incidents), incident.id)
        invariant incident.id in incidents ==> incidents[incident.id] == incident
        decreases |order|
      {
        EvictOldest();
        CountsAgree();
      }
    }

    lemma CountsAgree()
      requires InStep()
      ensures |incidents| == |order|
    {
      RetainedCount(View());
      assert Entries().Keys == incidents.Keys;
      assert |Entries().Keys| == |Entries()| && |incidents.Keys| == |incidents|;
    }

    /** A repeat is answered with the incident it repeats; anything else is analyzed, and refused or recorded. */
    method IngestEvent(event: NetworkEvent, now: int, newId: Id)
      returns (r: Result<Incident, ImpactError>, ghost diagnosis: Diagnosis)
      requires Valid() && newId !in incidents
      modifies this
      ensures Valid()
      ensures InSyncLookup(old(View()), Fingerprint(event))
      ensures Diagnoses(topology, event, diagnosis)
      ensures View() == Next(old(View()), limits, Ingest(event, now, newId, diagnosis))
      ensures Respond(old(View()), limits, Ingest(event, now, newId, diagnosis))
              == if r.Success? then Returned(r.value.id) else Rejected(r.error)
      ensures r.Success? && r.value.id in incidents ==> incidents[r.value.id] == r.value
      ensures newId in incidents ==> Restores(incidents[newId])
      ensures OthersKept(old(incidents), newId)
      ensures fresh(Plans() - old(Plans()))
    {
      var fingerprint := Fingerprint(event);
      ghost var before := View();
      var repeated := FindRepeat(fingerprint, now);
      if repeated.Some? {
        Sight(fingerprint, now);
        diagnosis := DiagnosisExists(topology, event);
        return Success(repeated.value), diagnosis;
      }
      r, diagnosis := OpenIncident(event, now, newId);
    }

    /** The analysis of an event that is no repeat, and the incident it opens. */
    method OpenIncident(event: NetworkEvent, now: int, newId: Id)
      returns (r: Result<Incident, ImpactError>, ghost diagnosis: Diagnosis)
      requires Valid() && newId !in incidents
      modifies this
      ensures Valid() && Diagnoses(topology, event, diagnosis)
      ensures match diagnosis
              case Failure(error) => r == Failure(error) && View() == old(View())
              case Success(analysis) =>
                && View() == Enroll(old(View()), limits, NewEntry(newId, event, analysis), now)
                && r.Success? && r.value.id == newId && (newId in incidents ==> incidents[newId] == r.value)
      ensures newId in incidents ==> Restores(incidents[newId])
      ensures OthersKept(old(incidents), newId)
      ensures fresh(Plans() - old(Plans()))
    {
      ghost var before := View();
      var analysis := Diagnose(topology, event);
      assert View() == before;
      if analysis.Failure? {
        return Failure(analysis.error), analysis;
      }
      var incident := RecordIncident(event, now, newId, analysis.value);
      return Success(incident), analysis;
    }

    /** The plan and the record of a new incident. */
    method RecordIncident(event: NetworkEvent, now: int, newId: Id, analysis: ImpactAnalysis)
      returns (incident: Incident)
      requires Valid() && newId !in incidents && Diagnoses(topology, event, Success(analysis))
      modifies this
      ensures Valid() && View() == Enroll(old(View()), limits, NewEntry(newId, event, analysis), now)
      ensures incident.id == newId && (newId in incidents ==> incidents[newId] == incident)
      ensures Restores(incident)
      ensures OthersKept(old(incidents), incident.id)
      ensures fresh(incident) && fresh(Plans() - old(Plans()))
    {
      ghost var before := View();
      var plan := CreateRecoveryPlan(topology, newId, "restore_link", analysis.failedComponent);
      incident := new Incident(newId, event, analysis, plan.value);
      assert View() == before && incident.View() == NewEntry(newId, event, analysis);
      Register(incident, now);
    }

    method Sight(fingerprint: Digest, now: int)
      requires Valid() && fingerprint in newest
      modifies this
      ensures Valid() && View() == old(Resight(View(), fingerprint, now)) && incidents == old(incidents)
    {
      ghost var before := View();
      lastSeen := lastSeen[fingerprint := now];
      assert Entries() == before.entries;
      assert View() == Resight(before, fingerprint, now);
    }
  }
  // ----- the service over whole runs

  /** What a client asks: an event to ingest at a time, under the identifier drawn for it, or an approval. */
  datatype Request =
    | Event(event: NetworkEvent, now: int, newId: Id)
    | Approval(id: Id)

  ghost predicate Asks(op: Op, request: Request) {
    match request
    case Event(event, now, newId) => op.Ingest? && op.event == event && op.now == now && op.newId == newId
    case Approval(id) => op == Approve(id)
  }

  ghost predicate AskAll(ops: seq<Op>, requests: seq<Request>) {
    |ops| == |requests| && forall i | 0 <= i < |ops| :: Asks(ops[i], requests[i])
  }

  /** The identifiers drawn differ. */
  ghost predicate FreshRequests(requests: seq<Request>) {
    forall i, j | 0 <= i < j < |requests| && requests[i].Event? && requests[j].Event? ::
        requests[i].newId != requests[j].newId
  }

  ghost function Answers(limits: Limits, ops: seq<Op>): seq<Answer>
    requires limits.Valid() && FreshIds(ops)
  {
    if ops == [] then []
    else Answers(limits, ops[..|ops| - 1]) + [Respond(After(limits, ops[..|ops| - 1]), limits, ops[|ops| - 1])]
  }

  lemma AskedAreFresh(ops: seq<Op>, requests: seq<Request>)
    requires |ops| <= |requests| && AskAll(ops, requests[..|ops|]) && FreshRequests(requests)
    ensures FreshIds(ops)
    ensures |ops| < |requests| && requests[|ops|].Event? ==> !Offers(ops, requests[|ops|].newId)
  {
    assert forall i | 0 <= i < |ops| :: Asks(ops[i], requests[..|ops|][i]) && requests[..|ops|][i] == requests[i];
  }

  lemma RunStep(limits: Limits, ops: seq<Op>, op: Op)
    requires limits.Valid() && FreshIds(ops + [op])
    ensures FreshIds(ops) && Fresh(After(limits, ops), op)
    ensures After(limits, ops + [op]) == Next(After(limits, ops), limits, op)
    ensures Answers(limits, ops + [op]) == Answers(limits, ops) + [Respond(After(limits, ops), limits, op)]
  {
    assert forall i | 0 <= i < |ops| :: (ops + [op])[i] == ops[i];
    assert (ops + [op])[|ops|] == op;
    assert (ops + [op])[..|ops|] == ops;
  }

  /** One request. */
  method Ask(s: Service, request: Request) returns (answer: Answer, ghost op: Op)
    requires s.Valid() && (request.Event? ==> request.newId !in s.incidents)
    modifies s, s.Plans()
    ensures s.Valid() && fresh(s.Plans() - old(s.Plans()))
    ensures old(s.PlansRestore()) ==> s.PlansRestore()
    ensures Asks(op, request) && Honest(s.topology, [op]) && Fresh(old(s.View()), op)
    ensures answer == Respond(old(s.View()), s.limits, op) && s.View() == Next(old(s.View()), s.limits, op)
  {
    ghost var was := s.incidents;
    match request
    case Event(event, now, newId) =>
      var r, diagnosis := s.IngestEvent(event, now, newId);
      op := Ingest(event, now, newId, diagnosis);
      NewestRestores(s, was, newId);
      answer := if r.Success? then Returned(r.value.id) else Rejected(r.error);
    case Approval(id) =>
      op := Approve(id);
      answer := s.ApproveIncident(id);
  }

  lemma NewestRestores(s: Service, was: map<Id, Incident>, newId: Id)
    requires s.topology.Valid() && s.OthersKept(was, newId)
    requires newId in s.incidents ==> s.Restores(s.incidents[newId])
    ensures (forall id | id in was :: s.Restores(was[id])) ==> s.PlansRestore()
  {
  }

  /** Over every run of requests the service answers as the specification does, on the diagnoses of its topology. */
  method Replay(s: Service, requests: seq<Request>) returns (answers: seq<Answer>, ghost ops: seq<Op>)
    requires s.Valid() && s.View() == EMPTY && FreshRequests(requests)
    modifies s, s.Plans()
    ensures AskAll(ops, requests) && FreshIds(ops) && Honest(s.topology, ops) && Diagnosed(ops, s.topology.LinkIds())
    ensures s.Valid() && s.View() == After(s.limits, ops) && answers == Answers(s.limits, ops)
    ensures forall id | id in s.incidents :: s.incidents[id].id == id && RestoresItsLink(s.topology, s.incidents[id])
  {
    answers, ops := [], [];
    assert s.View().entries.Keys == s.incidents.Keys;
    for i := 0 to |requests|
      invariant |ops| == i && AskAll(ops, requests[..i]) && FreshIds(ops) && Honest(s.topology, ops)
      invariant s.Valid() && fresh(s.Plans() - old(s.Plans())) && s.PlansRestore()
      invariant s.View() == After(s.limits, ops) && answers == Answers(s.limits, ops)
    {
      AskedAreFresh(ops, requests);
      ghost var before := s.View();
      assert before.entries.Keys == s.incidents.Keys;
      ghost var op;
      var answer;
      answer, op := Ask(s, requests[i]);
      AskAllStep(ops, op, requests, i);
      AskedAreFresh(ops + [op], requests);
      RunStep(s.limits, ops, op);
      answers, ops := answers + [answer], ops + [op];
    }
    assert requests[..|requests|] == requests;
    DiagnosedByTopology(s.topology, ops);
    KeysAreIds(s);
  }

  lemma KeysAreIds(s: Service)
    requires s.Valid()
    ensures forall id | id in s.incidents :: s.incidents[id].id == id
  {
    forall id | id in s.incidents ensures s.incidents[id].id == id {
      assert EntryOk(s.View(), id);
      assert s.Entries()[id] == s.incidents[id].View();
    }
  }

  lemma AskAllStep(ops: seq<Op>, op: Op, requests: seq<Request>, i: nat)
    requires i < |requests| && AskAll(ops, requests[..i]) && Asks(op, requests[i])
    ensures AskAll(ops + [op], requests[..i + 1])
  {
    forall j | 0 <= j < i ensures Asks((ops + [op])[j], requests[..i + 1][j]) {
      assert requests[..i + 1][j] == requests[..i][j];
    }
  }
}
