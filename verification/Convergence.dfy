/** Convergence runs: what events a run accepts, and what a bounded store of runs answers. */
module Convergence {
  import opened Wrappers
  import opened Collections

  datatype Kind = BlackholeInjected | BfdDown | OspfNeighborDown | RouteFailover | DataPlaneRecovered

  datatype Profile = OspfOnly | Bfd100x3 | Unsupported(name: string)

  /** A date-time, with or without a time zone. */
  datatype Timestamp = Aware(micros: int, offsetMinutes: int) | Naive(micros: int)

  datatype Event = Event(kind: Kind, offsetMs: int, observedAt: Timestamp, routeMetric: Option<int>,
                         icmpSequence: Option<int>)

  datatype Run = Run(id: string, profile: Profile, source: string, target: string, startedAt: Timestamp,
                     events: seq<Event>)

  datatype EventError =
    | NegativeOffset
    | NaiveTimestamp
    | MetricRequired
    | SequenceRequired
    | NotInProfile
    | BlackholeFirst
    | DuplicateEvent
    | NotMonotonic

  datatype RunError = UnsupportedProfile | EmptyEndpoint | NaiveStart

  datatype AppendError = RunNotFound(id: string) | Rejected(error: EventError)

  function Required(profile: Profile): set<Kind> {
    match profile
    case OspfOnly => {BlackholeInjected, OspfNeighborDown, RouteFailover, DataPlaneRecovered}
    case Bfd100x3 => {BlackholeInjected, BfdDown, OspfNeighborDown, RouteFailover, DataPlaneRecovered}
    case Unsupported(_) => {}
  }

  function Kinds(events: seq<Event>): set<Kind> {
    set e | e in events :: e.kind
  }

  /** The run's status is "complete". */
  predicate Complete(run: Run) {
    Kinds(run.events) == Required(run.profile)
  }

  function ValidateRun(profile: Profile, source: string, target: string, startedAt: Timestamp): Option<RunError> {
    if profile.Unsupported? then Some(UnsupportedProfile)
    else if source == "" || target == "" then Some(EmptyEndpoint)
    else if startedAt.Naive? then Some(NaiveStart)
    else None
  }

  function ValidateEvent(run: Run, event: Event): Option<EventError> {
    if event.offsetMs < 0 then
      Some(NegativeOffset)
    else if event.observedAt.Naive? then
      Some(NaiveTimestamp)
    else if event.kind.RouteFailover? && (event.routeMetric.None? || event.routeMetric.value < 1) then
      Some(MetricRequired)
    else if event.kind.DataPlaneRecovered? && (event.icmpSequence.None? || event.icmpSequence.value < 0) then
      Some(SequenceRequired)
    else if event.kind !in Required(run.profile) then
      Some(NotInProfile)
    else if run.events == [] && !event.kind.BlackholeInjected? then
      Some(BlackholeFirst)
    else if exists e | e in run.events :: e.kind == event.kind then
      Some(DuplicateEvent)
    else if run.events != [] && event.offsetMs < run.events[|run.events| - 1].offsetMs then
      Some(NotMonotonic)
    else
      None
  }

  // ----- one run

  /** What the events of any stored run look like. */
  ghost predicate Sound(run: Run) {
    && !run.profile.Unsupported?
    && (run.events != [] ==> run.events[0].kind == BlackholeInjected && run.events[0].offsetMs >= 0)
    && Kinds(run.events) <= Required(run.profile)
    && (forall i, j | 0 <= i < j < |run.events| :: run.events[i].kind != run.events[j].kind)
    && (forall i, j | 0 <= i < j < |run.events| :: run.events[i].offsetMs <= run.events[j].offsetMs)
    && (forall e | e in run.events :: e.kind.RouteFailover? ==> e.routeMetric.Some? && e.routeMetric.value >= 1)
    && (forall e | e in run.events :: e.kind.DataPlaneRecovered? ==> e.icmpSequence.Some? && e.icmpSequence.value >= 0)
  }

  function WithEvent(run: Run, event: Event): Run {
    run.(events := run.events + [event])
  }

  lemma AppendKeepsSound(run: Run, event: Event)
    requires Sound(run) && ValidateEvent(run, event).None?
    ensures Sound(WithEvent(run, event))
  {
    assert forall i | 0 <= i < |run.events| :: run.events[i] in run.events;
    assert Kinds(WithEvent(run, event).events) == Kinds(run.events) + {event.kind};
    AppendKeepsOrder(run, event);
  }

  lemma AppendKeepsOrder(run: Run, event: Event)
    requires run.events != [] ==> run.events[|run.events| - 1].offsetMs <= event.offsetMs
    requires forall i, j | 0 <= i < j < |run.events| :: run.events[i].offsetMs <= run.events[j].offsetMs
    ensures forall i, j | 0 <= i < j < |WithEvent(run, event).events| ::
              WithEvent(run, event).events[i].offsetMs <= WithEvent(run, event).events[j].offsetMs
  {
  }

  lemma {:induction false} KindCount(events: seq<Event>)
    requires forall i, j | 0 <= i < j < |events| :: events[i].kind != events[j].kind
    ensures |Kinds(events)| == |events|
  {
    if events != [] {
      var before, last := events[..|events| - 1], events[|events| - 1];
      KindCount(before);
      assert events == before + [last];
      assert Kinds(events) == Kinds(before) + {last.kind};
      assert last.kind !in Kinds(before);
    }
  }

  /** A run completes at exactly the required number of events, and never holds more. */
  lemma CompleteAtRequiredCount(run: Run)
    requires Sound(run)
    ensures |run.events| <= |Required(run.profile)|
    ensures Complete(run) <==> |run.events| == |Required(run.profile)|
  {
    KindCount(run.events);
    SmallerSubset(Kinds(run.events), Required(run.profile));
  }

  /** A complete run refuses every further event. */
  lemma CompleteIsAbsorbing(run: Run, event: Event)
    requires !run.profile.Unsupported? && Complete(run)
    ensures ValidateEvent(run, event).Some?
  {
    if event.kind in Required(run.profile) {
      assert event.kind in Kinds(run.events);
    }
  }

  lemma SomethingMissing<T>(a: set<T>, b: set<T>)
    requires a <= b && a != b
    ensures b - a != {}
  {
    SmallerSubset(a, b);
    assert |b - a| > 0;
  }

  /** An incomplete sound run can always be continued, so only completion closes it. */
  lemma IncompleteAcceptsSomething(run: Run)
    requires Sound(run) && !Complete(run)
    ensures exists event :: ValidateEvent(run, event).None?
  {
    var missing := Required(run.profile) - Kinds(run.events);
    SomethingMissing(Kinds(run.events), Required(run.profile));
    var kind :| kind in missing;
    var offset := if run.events == [] then 0 else run.events[|run.events| - 1].offsetMs;
    var event := Event(if run.events == [] then BlackholeInjected else kind, offset, Aware(0, 0), Some(1), Some(0));
    assert ValidateEvent(run, event).None?;
  }

  // ----- a bounded store, as the sequence of its runs, oldest first

  datatype Op =
    | Create(id: string, profile: Profile, source: string, target: string, startedAt: Timestamp)
    | Append(id: string, event: Event)
    | Get(id: string)
    | Latest

  datatype Answer = Stored(run: Run) | NoRun | CreateRefused(runError: RunError) | AppendRefused(error: AppendError)

  function IndexOf(runs: seq<Run>, id: string): (i: nat)
    ensures i <= |runs|
    ensures i < |runs| ==> runs[i].id == id
    ensures forall j | 0 <= j < i :: runs[j].id != id
  {
    if runs == [] || runs[0].id == id then 0 else 1 + IndexOf(runs[1..], id)
  }

  /** The call adds a run to the store. */
  predicate AddsRun(op: Op) {
    op.Create? && ValidateRun(op.profile, op.source, op.target, op.startedAt).None?
  }

  function NewRun(op: Op): Run
    requires op.Create?
  {
    Run(op.id, op.profile, op.source, op.target, op.startedAt, [])
  }

  function Lookup(runs: seq<Run>, id: string): Answer {
    var i := IndexOf(runs, id);
    if i == |runs| then AppendRefused(RunNotFound(id)) else Stored(runs[i])
  }

  function Respond(runs: seq<Run>, op: Op): Answer {
    match op
    case Create(_, profile, source, target, startedAt) =>
      var refusal := ValidateRun(profile, source, target, startedAt);
      if refusal.Some? then CreateRefused(refusal.value) else Stored(NewRun(op))
    case Append(id, event) =>
      var i := IndexOf(runs, id);
      if i == |runs| then AppendRefused(RunNotFound(id))
      else
        var refusal := ValidateEvent(runs[i], event);
        if refusal.Some? then AppendRefused(Rejected(refusal.value)) else Stored(WithEvent(runs[i], event))
    case Get(id) => Lookup(runs, id)
    case Latest => if runs == [] then NoRun else Stored(runs[|runs| - 1])
  }

  function After(capacity: nat, runs: seq<Run>, op: Op): seq<Run> {
    match op
    case Create(_, _, _, _, _) =>
      if Respond(runs, op).Stored? then Newest(runs + [NewRun(op)], capacity) else runs
    case Append(id, _) =>
      if Respond(runs, op).Stored? then runs[IndexOf(runs, id) := Respond(runs, op).run] else runs
    case _ => runs
  }

  /** The runs held after a whole history from an empty store. */
  function Held(capacity: nat, ops: seq<Op>): seq<Run> {
    if ops == [] then [] else After(capacity, Held(capacity, ops[..|ops| - 1]), ops[|ops| - 1])
  }

  /** The identifiers a history creates, oldest first. */
  function Created(ops: seq<Op>): seq<string> {
    if ops == [] then []
    else
      var last := ops[|ops| - 1];
      Created(ops[..|ops| - 1]) + if AddsRun(last) then [last.id] else []
  }

  ghost predicate DistinctIds(ids: seq<string>) {
    forall i, j | 0 <= i < j < |ids| :: ids[i] != ids[j]
  }

  function Ids(runs: seq<Run>): seq<string> {
    seq(|runs|, i requires 0 <= i < |runs| => runs[i].id)
  }

  lemma IdsOfNewest(runs: seq<Run>, capacity: nat)
    ensures Ids(Newest(runs, capacity)) == Newest(Ids(runs), capacity)
  {
  }

  /** What one call does to the identifiers held. */
  lemma IdsAfter(capacity: nat, runs: seq<Run>, op: Op)
    ensures Ids(After(capacity, runs, op)) == if AddsRun(op) then Newest(Ids(runs) + [op.id], capacity) else Ids(runs)
  {
    if AddsRun(op) {
      IdsOfNewest(runs + [NewRun(op)], capacity);
      assert Ids(runs + [NewRun(op)]) == Ids(runs) + [op.id];
    } else if op.Append? && Respond(runs, op).Stored? {
      var i := IndexOf(runs, op.id);
      assert Ids(runs[i := WithEvent(runs[i], op.event)]) == Ids(runs);
    }
  }

  lemma SoundAfter(capacity: nat, runs: seq<Run>, op: Op)
    requires forall r | r in runs :: Sound(r)
    ensures forall r | r in After(capacity, runs, op) :: Sound(r)
  {
    if op.Append? && Respond(runs, op).Stored? {
      var i := IndexOf(runs, op.id);
      assert runs[i] in runs;
      AppendKeepsSound(runs[i], op.event);
    } else if AddsRun(op) {
      assert Sound(NewRun(op));
    }
  }

  lemma DistinctPrefix(ops: seq<Op>)
    requires ops != [] && DistinctIds(Created(ops))
    ensures DistinctIds(Created(ops[..|ops| - 1]))
  {
    var before := Created(ops[..|ops| - 1]);
    assert forall i | 0 <= i < |before| :: before[i] == Created(ops)[i];
  }

  /**
   Over every history with fresh identifiers the store holds exactly the newest `capacity` runs created,
   in creation order, and every one of them is sound.
   */
  lemma {:induction false} HistoryKeepsNewestSoundRuns(capacity: nat, ops: seq<Op>)
    requires capacity >= 1 && DistinctIds(Created(ops))
    ensures Ids(Held(capacity, ops)) == Newest(Created(ops), capacity)
    ensures forall r | r in Held(capacity, ops) :: Sound(r)
  {
    if ops != [] {
      var before, op := ops[..|ops| - 1], ops[|ops| - 1];
      DistinctPrefix(ops);
      HistoryKeepsNewestSoundRuns(capacity, before);
      IdsAfter(capacity, Held(capacity, before), op);
      SoundAfter(capacity, Held(capacity, before), op);
      if AddsRun(op) {
        NewestOfAppended(Created(before), op.id, capacity);
      }
    }
  }

  // ----- what a history does to one run

  /** The same run with more events. */
  predicate Extends(run: Run, later: Run) {
    later == run.(events := later.events) && run.events <= later.events
  }

  ghost predicate HoldsExtended(runs: seq<Run>, run: Run) {
    exists later :: later in runs && Extends(run, later)
  }

  /** A call extends a held run or leaves it alone, unless it pushes it out. */
  lemma CallExtends(capacity: nat, runs: seq<Run>, op: Op, run: Run)
    requires run in runs && DistinctIds(Ids(runs)) && (AddsRun(op) ==> op.id !in Ids(runs))
    ensures run.id in Ids(After(capacity, runs, op)) ==> HoldsExtended(After(capacity, runs, op), run)
  {
    var after := After(capacity, runs, op);
    var k :| 0 <= k < |runs| && runs[k] == run;
    if AddsRun(op) {
      if run.id in Ids(after) {
        var all := runs + [NewRun(op)];
        var j :| 0 <= j < |after| && Ids(after)[j] == run.id;
        NewestHoldsRun(runs, NewRun(op), capacity, k, j);
        assert Extends(run, after[j]);
      }
    } else if op.Append? && Respond(runs, op).Stored? {
      assert Extends(run, after[k]);
    } else {
      assert Extends(run, run);
    }
  }

  /** What the newest runs hold under an earlier run's identifier is that run. */
  lemma NewestHoldsRun(runs: seq<Run>, added: Run, capacity: nat, k: nat, j: nat)
    requires DistinctIds(Ids(runs)) && added.id !in Ids(runs) && k < |runs|
    requires j < |Newest(runs + [added], capacity)| && Newest(runs + [added], capacity)[j].id == runs[k].id
    ensures Newest(runs + [added], capacity)[j] == runs[k]
  {
    var newest := Newest(runs + [added], capacity);
    var m := |runs| + 1 - |newest| + j;
    assert newest[j] == (runs + [added])[m];
    assert Ids(runs)[k] == runs[k].id;
    assert m < |runs| ==> Ids(runs)[m] == Ids(runs)[k];
  }

  /** A run that left the newest does not come back. */
  lemma GoneStaysGone(capacity: nat, ops: seq<Op>, id: string)
    requires capacity >= 1 && ops != [] && DistinctIds(Created(ops))
    requires id in Created(ops[..|ops| - 1]) && id !in Newest(Created(ops[..|ops| - 1]), capacity)
    ensures id !in Newest(Created(ops), capacity)
  {
    var before, op := Created(ops[..|ops| - 1]), ops[|ops| - 1];
    if AddsRun(op) {
      AddedIsNew(ops);
      NewestOfAppended(before, op.id, capacity);
      NewestAreMembers(Newest(before, capacity) + [op.id], capacity);
    }
  }

  lemma NewestAreMembers<T>(s: seq<T>, n: nat)
    ensures forall x | x in Newest(s, n) :: x in s
  {
  }

  lemma NewestIsDistinct(ids: seq<string>, capacity: nat)
    requires DistinctIds(ids)
    ensures DistinctIds(Newest(ids, capacity))
  {
  }

  lemma AddedIsNew(ops: seq<Op>)
    requires ops != [] && DistinctIds(Created(ops)) && AddsRun(ops[|ops| - 1])
    ensures ops[|ops| - 1].id !in Created(ops[..|ops| - 1])
  {
    var before := Created(ops[..|ops| - 1]);
    assert Created(ops)[|before|] == ops[|ops| - 1].id && forall i | 0 <= i < |before| :: Created(ops)[i] == before[i];
  }

  lemma ExtensionStep(capacity: nat, ops: seq<Op>, run: Run)
    requires capacity >= 1 && ops != [] && DistinctIds(Created(ops))
    requires HoldsExtended(Held(capacity, ops[..|ops| - 1]), run) && run.id in Newest(Created(ops), capacity)
    ensures HoldsExtended(Held(capacity, ops), run)
  {
    var before, op := ops[..|ops| - 1], ops[|ops| - 1];
    DistinctPrefix(ops);
    HistoryKeepsNewestSoundRuns(capacity, before);
    HistoryKeepsNewestSoundRuns(capacity, ops);
    NewestIsDistinct(Created(before), capacity);
    NewestAreMembers(Created(before), capacity);
    if AddsRun(op) {
      AddedIsNew(ops);
    }
    var later :| later in Held(capacity, before) && Extends(run, later);
    CallExtends(capacity, Held(capacity, before), op, later);
    var latest :| latest in Held(capacity, ops) && Extends(later, latest);
    assert Extends(run, latest);
  }

  /**
   Over every later history a run once held only gains events, and it is held, so extended, exactly while
   it is among the newest created.
   */
  lemma {:induction false} HeldRunsOnlyGrow(capacity: nat, ops: seq<Op>, n: nat, run: Run)
    requires capacity >= 1 && DistinctIds(Created(ops)) && n <= |ops| && run in Held(capacity, ops[..n])
    ensures run.id in Created(ops)
    ensures HoldsExtended(Held(capacity, ops), run) <==> run.id in Newest(Created(ops), capacity)
    decreases |ops|
  {
    HistoryKeepsNewestSoundRuns(capacity, ops);
    if n == |ops| {
      assert ops[..n] == ops;
      HeldIsCreated(capacity, ops, run);
      assert Extends(run, run);
    } else {
      var before := ops[..|ops| - 1];
      assert before[..n] == ops[..n];
      DistinctPrefix(ops);
      HeldRunsOnlyGrow(capacity, before, n, run);
      if run.id !in Newest(Created(before), capacity) {
        GoneStaysGone(capacity, ops, run.id);
      } else if run.id in Newest(Created(ops), capacity) {
        ExtensionStep(capacity, ops, run);
      }
      if HoldsExtended(Held(capacity, ops), run) {
        var later :| later in Held(capacity, ops) && Extends(run, later);
        HeldIsCreated(capacity, ops, later);
      }
    }
  }

  lemma HeldIsCreated(capacity: nat, ops: seq<Op>, run: Run)
    requires capacity >= 1 && DistinctIds(Created(ops)) && run in Held(capacity, ops)
    ensures run.id in Newest(Created(ops), capacity) && run.id in Created(ops)
  {
    HistoryKeepsNewestSoundRuns(capacity, ops);
    var k :| 0 <= k < |Held(capacity, ops)| && Held(capacity, ops)[k] == run;
    assert Ids(Held(capacity, ops))[k] == run.id;
    NewestAreMembers(Created(ops), capacity);
  }

  /** A complete run has no room for another event. */
  lemma CompleteExtendsOnlyItself(run: Run, later: Run)
    requires Sound(run) && Complete(run) && Sound(later) && Extends(run, later)
    ensures later == run
  {
    CompleteAtRequiredCount(run);
    CompleteAtRequiredCount(later);
    assert later.events[..|run.events|] == run.events;
  }

  /**
   Over every later history a run once complete is held exactly as it was, until `capacity` younger runs
   push it out.
   */
  lemma CompleteRunsAreFrozen(capacity: nat, ops: seq<Op>, n: nat, run: Run)
    requires capacity >= 1 && DistinctIds(Created(ops)) && n <= |ops| && run in Held(capacity, ops[..n])
             && Complete(run)
    ensures run in Held(capacity, ops) <==> run.id in Newest(Created(ops), capacity)
    ensures run in Held(capacity, ops) <==> run.id in Ids(Held(capacity, ops))
  {
    HeldRunsOnlyGrow(capacity, ops, n, run);
    HistoryKeepsNewestSoundRuns(capacity, ops);
    CreatedPrefixIsDistinct(ops, n);
    HistoryKeepsNewestSoundRuns(capacity, ops[..n]);
    if run in Held(capacity, ops) {
      HeldIsCreated(capacity, ops, run);
    }
    if HoldsExtended(Held(capacity, ops), run) {
      var later :| later in Held(capacity, ops) && Extends(run, later);
      CompleteExtendsOnlyItself(run, later);
    }
  }

  lemma {:induction false} CreatedPrefixIsDistinct(ops: seq<Op>, n: nat)
    requires n <= |ops| && DistinctIds(Created(ops))
    ensures DistinctIds(Created(ops[..n]))
    decreases |ops|
  {
    if n == |ops| {
      assert ops[..n] == ops;
    } else {
      assert ops[..|ops| - 1][..n] == ops[..n];
      DistinctPrefix(ops);
      CreatedPrefixIsDistinct(ops[..|ops| - 1], n);
    }
  }
  // ----- what each call is answered, over every history

  /** A creation is refused for its profile, else for an empty endpoint, else for a time without a zone. */
  lemma CreationAnswer(runs: seq<Run>, id: string, profile: Profile, source: string, target: string,
                       startedAt: Timestamp)
    ensures var answer := Respond(runs, Create(id, profile, source, target, startedAt));
            if profile != OspfOnly && profile != Bfd100x3 then answer == CreateRefused(UnsupportedProfile)
            else if source == "" || target == "" then answer == CreateRefused(EmptyEndpoint)
            else if startedAt.Naive? then answer == CreateRefused(NaiveStart)
            else answer == Stored(Run(id, profile, source, target, startedAt, []))
  {
  }

  lemma LastOfNewest(runs: seq<Run>, capacity: nat, ids: seq<string>)
    requires capacity >= 1 && Ids(runs) == Newest(ids, capacity)
    ensures |runs| == 0 <==> ids == []
    ensures ids != [] ==> runs[|runs| - 1].id == ids[|ids| - 1]
  {
    if ids != [] {
      assert Ids(runs)[|runs| - 1] == runs[|runs| - 1].id;
    }
  }

  /** The latest run is the one created last, as it is held, and there is none exactly before the first creation. */
  lemma LatestAnswer(capacity: nat, ops: seq<Op>)
    requires capacity >= 1 && DistinctIds(Created(ops))
    ensures var answer, created := Respond(Held(capacity, ops), Latest), Created(ops);
            if created == [] then answer == NoRun
            else answer.Stored? && answer.run in Held(capacity, ops) && answer.run.id == created[|created| - 1]
  {
    HistoryKeepsNewestSoundRuns(capacity, ops);
    LastOfNewest(Held(capacity, ops), capacity, Created(ops));
  }

  /** A run is found exactly while it is among the newest created, and is then given as it is held. */
  lemma GetAnswer(capacity: nat, ops: seq<Op>, id: string)
    requires capacity >= 1 && DistinctIds(Created(ops))
    ensures var answer := Respond(Held(capacity, ops), Get(id));
            if id in Newest(Created(ops), capacity) then
              answer.Stored? && answer.run in Held(capacity, ops) && answer.run.id == id
            else answer == AppendRefused(RunNotFound(id))
  {
    HistoryKeepsNewestSoundRuns(capacity, ops);
    var held := Held(capacity, ops);
    var i := IndexOf(held, id);
    assert forall j | 0 <= j < |held| :: Ids(held)[j] == held[j].id;
  }

  ghost predicate AnswersAppend(run: Run, event: Event, answer: Answer) {
    match answer
    case Stored(after) => after == run.(events := run.events + [event]) && Sound(after)
    case AppendRefused(e) => e.Rejected? && FirstViolated(run, event, e.error)
    case _ => false
  }

  /** An event goes to the run of its identifier, if that is held, and the answer is that run with the event. */
  lemma AppendAnswer(capacity: nat, ops: seq<Op>, id: string, event: Event)
    requires capacity >= 1 && DistinctIds(Created(ops))
    ensures var answer, held := Respond(Held(capacity, ops), Append(id, event)), Held(capacity, ops);
            if id !in Newest(Created(ops), capacity) then answer == AppendRefused(RunNotFound(id))
            else exists run :: run in held && run.id == id && AnswersAppend(run, event, answer)
  {
    GetAnswer(capacity, ops, id);
    HistoryKeepsNewestSoundRuns(capacity, ops);
    if id in Newest(Created(ops), capacity) {
      var run := Respond(Held(capacity, ops), Get(id)).run;
      RefusalNamesFirstViolation(run, event);
      if ValidateEvent(run, event).None? {
        AppendKeepsSound(run, event);
      }
      assert Held(capacity, ops)[IndexOf(Held(capacity, ops), id)] == run;
      assert AnswersAppend(run, event, Respond(Held(capacity, ops), Append(id, event)));
    }
  }

  // ----- when an event is refused, and why

  /** The order in which the rules are checked. */
  function Rank(error: EventError): nat {
    match error
    case NegativeOffset => 0
    case NaiveTimestamp => 1
    case MetricRequired => 2
    case SequenceRequired => 3
    case NotInProfile => 4
    case BlackholeFirst => 5
    case DuplicateEvent => 6
    case NotMonotonic => 7
  }

  /** The event breaks the rule. */
  ghost predicate Violates(run: Run, event: Event, rule: EventError) {
    match rule
    case NegativeOffset => event.offsetMs < 0
    case NaiveTimestamp => event.observedAt.Naive?
    case MetricRequired => event.kind == RouteFailover && !exists m :: m >= 1 && event.routeMetric == Some(m)
    case SequenceRequired => event.kind == DataPlaneRecovered && !exists n :: n >= 0 && event.icmpSequence == Some(n)
    case NotInProfile =>
      run.profile.Unsupported? || (run.profile == OspfOnly && event.kind == BfdDown)
    case BlackholeFirst => run.events == [] && event.kind != BlackholeInjected
    case DuplicateEvent => event.kind in Kinds(run.events)
    case NotMonotonic => run.events != [] && event.offsetMs < run.events[|run.events| - 1].offsetMs
  }

  ghost predicate FirstViolated(run: Run, event: Event, rule: EventError) {
    Violates(run, event, rule) && forall other | Rank(other) < Rank(rule) :: !Violates(run, event, other)
  }

  /** An event is refused exactly when it breaks a rule, and the first rule it breaks is named. */
  lemma RefusalNamesFirstViolation(run: Run, event: Event)
    ensures match ValidateEvent(run, event)
            case None => forall rule :: !Violates(run, event, rule)
            case Some(rule) => FirstViolated(run, event, rule)
  {
    KindsAreThose(run, event);
    assert event.routeMetric.Some? && event.routeMetric.value >= 1 ==>
        event.routeMetric == Some(event.routeMetric.value);
    assert event.icmpSequence.Some? && event.icmpSequence.value >= 0 ==>
        event.icmpSequence == Some(event.icmpSequence.value);
  }

  lemma KindsAreThose(run: Run, event: Event)
    ensures (exists e | e in run.events :: e.kind == event.kind) <==> event.kind in Kinds(run.events)
  {
  }

  /** On a sound run: accepted exactly when the extended run is sound again and the time carries its zone. */
  lemma AcceptedIffStaysSound(run: Run, event: Event)
    requires Sound(run)
    ensures ValidateEvent(run, event).None? <==> event.observedAt.Aware? && Sound(WithEvent(run, event))
  {
    var after := WithEvent(run, event);
    assert after.events[|run.events|] == event && event in after.events;
    assert event.kind in Kinds(after.events);
    if ValidateEvent(run, event).None? {
      AppendKeepsSound(run, event);
    } else if Sound(after) {
      assert forall i | 0 <= i < |run.events| :: after.events[i] == run.events[i];
      assert forall e | e in run.events :: exists i :: 0 <= i < |run.events| && run.events[i] == e;
      if run.events != [] {
        assert after.events[0].offsetMs <= after.events[|run.events|].offsetMs;
      }
    }
  }

  ghost predicate Occurs(run: Run, kind: Kind) {
    exists e :: e in run.events && e.kind == kind
  }

  /** A run is complete exactly when every kind of event has occurred, BFD's own only where the profile has BFD. */
  lemma CompleteMeans(run: Run)
    requires Sound(run)
    ensures Complete(run) <==>
            forall kind: Kind | kind != BfdDown || run.profile == Bfd100x3 :: Occurs(run, kind)
  {
    forall kind: Kind ensures kind in Kinds(run.events) <==> Occurs(run, kind) {
    }
    forall kind: Kind ensures kind in Required(run.profile) <==> kind != BfdDown || run.profile == Bfd100x3 {
    }
  }
}
