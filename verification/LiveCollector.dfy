/**
 The live collector: continuous ping replies and router samples are polled, detected transitions are
 posted to the API, and the API appends them to the stored run.  The collector assumes the API never
 refuses it; the main result says exactly when that holds.
 */
module LiveCollector {
  import opened Wrappers
  import opened Collections
  import opened Convergence
  import opened Detector

  // ----- ping replies

  /** One line of ping output, with the sequence number it reports, if it is a reply. */
  datatype PingLine = PingLine(sequence: Option<nat>, observedNs: int)

  class PingRecoveryTracker {
    var lastSequence: Option<nat>
    var injectedNs: Option<int>

    constructor ()
      ensures lastSequence == None && injectedNs == None
    {
      lastSequence, injectedNs := None, None;
    }

    method ObserveReply(line: PingLine) returns (recovery: Option<nat>)
      modifies this`lastSequence
      ensures recovery == if Recovers(line, injectedNs) then line.sequence else None
      ensures lastSequence == if line.sequence.Some? then line.sequence else old(lastSequence)
    {
      if line.sequence.None? {
        return None;
      }
      lastSequence := line.sequence;
      if injectedNs.None? || line.observedNs < injectedNs.value {
        return None;
      }
      return line.sequence;
    }

    method MarkInjected(observedNs: int)
      modifies this`injectedNs
      ensures injectedNs == Some(observedNs)
    {
      injectedNs := Some(observedNs);
    }
  }

  /** A reply seen at or after the injection. */
  predicate Recovers(line: PingLine, injectedNs: Option<int>) {
    line.sequence.Some? && injectedNs.Some? && injectedNs.value <= line.observedNs
  }

  /** The latest recovery among the drained lines. */
  function LastRecovery(lines: seq<PingLine>, injectedNs: Option<int>): Option<nat> {
    if lines == [] then None
    else
      var last := lines[|lines| - 1];
      if Recovers(last, injectedNs) then last.sequence else LastRecovery(lines[..|lines| - 1], injectedNs)
  }

  /** A reply, seen at the time or later. */
  predicate RepliesFrom(line: PingLine, time: int) {
    line.sequence != None && time <= line.observedNs
  }

  /**
   Before the injection nothing is a recovery.  After it a recovery is reported exactly when some drained reply
   was seen at the injection or later, and it is the last such reply's.
   */
  lemma {:induction false} RecoveryIffReplyAfterInjection(lines: seq<PingLine>, injected: int)
    ensures LastRecovery(lines, None) == None
    ensures match LastRecovery(lines, Some(injected))
            case None => forall l | l in lines :: !RepliesFrom(l, injected)
            case Some(sequence) => exists i | 0 <= i < |lines| ::
              && RepliesFrom(lines[i], injected) && lines[i].sequence == Some(sequence)
              && forall j | i < j < |lines| :: !RepliesFrom(lines[j], injected)
  {
    if lines != [] {
      var before, last := lines[..|lines| - 1], lines[|lines| - 1];
      RecoveryIffReplyAfterInjection(before, injected);
      assert lines == before + [last];
    }
  }

  method DrainPing(lines: seq<PingLine>, tracker: PingRecoveryTracker) returns (recovery: Option<nat>)
    modifies tracker`lastSequence
    ensures recovery == LastRecovery(lines, tracker.injectedNs)
  {
    recovery := None;
    for i := 0 to |lines|
      invariant recovery == LastRecovery(lines[..i], tracker.injectedNs)
    {
      assert lines[..i + 1][..i] == lines[..i];
      var detected := tracker.ObserveReply(lines[i]);
      if detected.Some? {
        recovery := detected;
      }
    }
    assert lines[..|lines|] == lines;
  }

  // ----- the clock

  /** Python's `round` of a quotient: to the nearest integer, ties to the even one. */
  function RoundHalfEven(n: int, d: int): int
    requires d > 0
  {
    var q, r := n / d, n % d;
    if 2 * r < d || (2 * r == d && q % 2 == 0) then q else q + 1
  }

  const NS_PER_MS := 1_000_000

  function OffsetMs(faultNs: int, nowNs: int): int {
    var rounded := RoundHalfEven(nowNs - faultNs, NS_PER_MS);
    if rounded < 0 then 0 else rounded
  }

  lemma RoundIsNearest(n: int)
    ensures var r := RoundHalfEven(n, 1_000_000);
            && 2 * n - 1_000_000 <= 2_000_000 * r <= 2 * n + 1_000_000
            && (2_000_000 * r in {2 * n - 1_000_000, 2 * n + 1_000_000} ==> r % 2 == 0)
  {
  }

  /** An offset is the elapsed time to the nearest millisecond, and 0 for a clock that ran backwards. */
  lemma OffsetIsElapsed(faultNs: int, nowNs: int)
    ensures nowNs <= faultNs ==> OffsetMs(faultNs, nowNs) == 0
    ensures faultNs <= nowNs ==>
              var twice := 2 * (nowNs - faultNs);
              twice - 1_000_000 <= 2_000_000 * OffsetMs(faultNs, nowNs) <= twice + 1_000_000
  {
    RoundIsNearest(nowNs - faultNs);
  }

  /** A monotone clock gives monotone, non-negative offsets. */
  lemma OffsetsAreMonotone(faultNs: int, a: int, b: int)
    requires a <= b
    ensures 0 <= OffsetMs(faultNs, a) <= OffsetMs(faultNs, b)
  {
    var x, y := a - faultNs, b - faultNs;
    if x / NS_PER_MS == y / NS_PER_MS {
      assert x % NS_PER_MS <= y % NS_PER_MS;
    } else {
      assert x / NS_PER_MS + 1 <= y / NS_PER_MS;
    }
  }

  // ----- posting an event

  datatype PostError = Unprocessable | Conflict(error: AppendError)

  const MAX_OFFSET_MS := 60_000
  const MAX_METRIC := 65_535

  /** The API's own field bounds, checked before the store sees the event. */
  predicate Admissible(t: Transition) {
    && 0 <= t.offsetMs <= MAX_OFFSET_MS
    && (t.routeMetric.Some? ==> 1 <= t.routeMetric.value <= MAX_METRIC)
    && (t.icmpSequence.Some? ==> 0 <= t.icmpSequence.value)
  }

  function EventOf(t: Transition, at: Timestamp): Event {
    Event(t.event, t.offsetMs, at, t.routeMetric, t.icmpSequence)
  }

  /** The service's side of one post: the field bounds, then the store's own answer. */
  method RecordEvent(capacity: nat, runs: seq<Run>, id: string, t: Transition, at: Timestamp)
    returns (refused: Option<PostError>, after: seq<Run>)
    ensures !Admissible(t) || at.Naive? ==> refused == Some(Unprocessable) && after == runs
    ensures Admissible(t) && at.Aware? ==>
              && after == After(capacity, runs, Append(id, EventOf(t, at)))
              && refused == match Respond(runs, Append(id, EventOf(t, at)))
                            case AppendRefused(e) => Some(Conflict(e))
                            case _ => None
  {
    if !Admissible(t) || at.Naive? {
      return Some(Unprocessable), runs;
    }
    after := After(capacity, runs, Append(id, EventOf(t, at)));
    match Respond(runs, Append(id, EventOf(t, at))) {
      case AppendRefused(e) => refused := Some(Conflict(e));
      case _ => refused := None;
    }
  }

  // ----- the collector's own run inside the store

  /** The order in which a run of the profile takes its events. */
  const ORDER: seq<Kind> := [BlackholeInjected, BfdDown, OspfNeighborDown, RouteFailover, DataPlaneRecovered]

  const BLACKHOLE := Transition(BlackholeInjected, 0, None, None)

  /** The transition can be the `n`-th event. */
  predicate Fits(t: Transition, n: nat) {
    n < 5 && t.event == ORDER[n] && (n == 3 ==> t.routeMetric.Some?) && (n == 4 ==> t.icmpSequence.Some?)
  }

  /** The first `n` events in order, none later than `latest`. */
  ghost predicate OnTimeline(run: Run, n: nat, latest: int) {
    && run.profile == Bfd100x3 && |run.events| == n <= 5
    && (forall i | 0 <= i < n :: run.events[i].kind == ORDER[i])
    && (n > 0 ==> run.events[n - 1].offsetMs <= latest)
  }

  lemma OrderFacts()
    ensures forall i, j | 0 <= i < 5 && 0 <= j < 5 && ORDER[i] == ORDER[j] :: i == j
    ensures forall i | 0 <= i < 5 :: ORDER[i] in Required(Bfd100x3)
    ensures forall kind | kind in Required(Bfd100x3) :: exists i :: 0 <= i < 5 && ORDER[i] == kind
    ensures forall i | 0 <= i < 4 :: ORDER[i + 1] == STAGES[i]
  {
    assert ORDER[0] == BlackholeInjected && ORDER[1] == BfdDown && ORDER[2] == OspfNeighborDown;
    assert ORDER[3] == RouteFailover && ORDER[4] == DataPlaneRecovered;
  }

  lemma TimelineKinds(run: Run, n: nat, latest: int)
    requires OnTimeline(run, n, latest)
    ensures forall i | 0 <= i < 5 :: ORDER[i] in Kinds(run.events) <==> i < n
    ensures Complete(run) <==> n == 5
  {
    OrderFacts();
    assert forall m | 0 <= m < n :: run.events[m].kind in Kinds(run.events);
    forall kind | kind in Kinds(run.events) ensures exists i :: 0 <= i < n && ORDER[i] == kind {
      var i :| 0 <= i < n && run.events[i].kind == kind;
      assert ORDER[i] == kind;
    }
    assert forall i | 0 <= i < n :: run.events[i].kind == ORDER[i];
    if n < 5 {
      assert ORDER[n] in Required(Bfd100x3) && ORDER[n] !in Kinds(run.events);
    }
  }

  /** The next event in order is accepted by the store, whatever its admissible content. */
  lemma NextIsAccepted(run: Run, n: nat, latest: int, t: Transition, at: Timestamp)
    requires OnTimeline(run, n, latest) && Fits(t, n) && Admissible(t) && at.Aware? && latest <= t.offsetMs
    ensures ValidateEvent(run, EventOf(t, at)).None?
    ensures OnTimeline(WithEvent(run, EventOf(t, at)), n + 1, t.offsetMs)
  {
    OrderFacts();
    TimelineKinds(run, n, latest);
    assert forall e | e in run.events :: e.kind in Kinds(run.events);
  }

  // ----- the run among other clients' runs

  /** The store holds the run, with exactly `younger` runs after it. */
  ghost predicate Tracks(runs: seq<Run>, capacity: nat, run: Run, younger: nat) {
    var p := IndexOf(runs, run.id);
    && p < |runs| <= capacity && runs[p] == run && |runs| - 1 - p == younger
    && (forall j | p < j < |runs| :: runs[j].id != run.id)
  }

  lemma IndexOfIs(runs: seq<Run>, id: string, p: nat)
    requires p < |runs| && runs[p].id == id && forall j | 0 <= j < p :: runs[j].id != id
    ensures IndexOf(runs, id) == p
  {
  }

  /** The call neither posts to the run nor draws its identifier. */
  predicate KeepsOut(op: Op, id: string) {
    op.Append? || op.Create? ==> op.id != id
  }

  /** Another client's call leaves the run alone while fewer than `capacity` runs are younger. */
  lemma CallKeepsTrack(runs: seq<Run>, capacity: nat, run: Run, younger: nat, op: Op)
    requires Tracks(runs, capacity, run, younger) && KeepsOut(op, run.id) && (AddsRun(op) ==> younger + 1 < capacity)
    ensures Tracks(After(capacity, runs, op), capacity, run, if AddsRun(op) then younger + 1 else younger)
  {
    var p := IndexOf(runs, run.id);
    var after := After(capacity, runs, op);
    if AddsRun(op) {
      var q := if |runs| < capacity then p else p - 1;
      assert after[q] == runs[p];
      IndexOfIs(after, run.id, q);
    } else if op.Append? && Respond(runs, op).Stored? {
      assert IndexOf(runs, op.id) != p;
      IndexOfIs(after, run.id, p);
    }
  }

  /** With the run added that makes `capacity` younger ones, the run is pushed out. */
  lemma CallPushesOut(runs: seq<Run>, capacity: nat, run: Run, younger: nat, op: Op)
    requires Tracks(runs, capacity, run, younger) && AddsRun(op) && op.id != run.id && younger + 1 == capacity
    ensures run.id !in Ids(After(capacity, runs, op))
  {
    assert IndexOf(runs, run.id) == 0 && |runs| == capacity;
    assert After(capacity, runs, op) == runs[1..] + [NewRun(op)];
  }

  lemma LostIndex(runs: seq<Run>, id: string)
    requires id !in Ids(runs)
    ensures IndexOf(runs, id) == |runs|
  {
    assert forall j | 0 <= j < |runs| :: Ids(runs)[j] == runs[j].id;
  }

  /** A run that was pushed out stays out. */
  lemma CallKeepsLost(runs: seq<Run>, capacity: nat, id: string, op: Op)
    requires id !in Ids(runs) && KeepsOut(op, id)
    ensures id !in Ids(After(capacity, runs, op))
  {
    IdsAfter(capacity, runs, op);
  }

  function AfterAll(capacity: nat, runs: seq<Run>, ops: seq<Op>): seq<Run> {
    if ops == [] then runs else After(capacity, AfterAll(capacity, runs, ops[..|ops| - 1]), ops[|ops| - 1])
  }

  /** How many runs the calls add. */
  function Added(ops: seq<Op>): nat {
    if ops == [] then 0 else Added(ops[..|ops| - 1]) + if AddsRun(ops[|ops| - 1]) then 1 else 0
  }

  /** Whatever other clients call, a run is held just as it was exactly while fewer than `capacity` runs are younger. */
  lemma {:induction false} OthersPushOutIff(capacity: nat, runs: seq<Run>, run: Run, younger: nat, ops: seq<Op>)
    requires Tracks(runs, capacity, run, younger) && forall op | op in ops :: KeepsOut(op, run.id)
    ensures run.id in Ids(AfterAll(capacity, runs, ops)) <==> younger + Added(ops) < capacity
    ensures younger + Added(ops) < capacity ==>
              Tracks(AfterAll(capacity, runs, ops), capacity, run, younger + Added(ops))
  {
    if ops == [] {
      TrackedIsHeld(runs, capacity, run, younger);
    } else {
      var before, op := ops[..|ops| - 1], ops[|ops| - 1];
      assert op in ops && forall o | o in before :: o in ops;
      OthersPushOutIff(capacity, runs, run, younger, before);
      var now := AfterAll(capacity, runs, before);
      if younger + Added(before) >= capacity {
        CallKeepsLost(now, capacity, run.id, op);
      } else if AddsRun(op) && younger + Added(before) + 1 == capacity {
        CallPushesOut(now, capacity, run, younger + Added(before), op);
      } else {
        CallKeepsTrack(now, capacity, run, younger + Added(before), op);
        TrackedIsHeld(AfterAll(capacity, runs, ops), capacity, run, younger + Added(ops));
      }
    }
  }

  lemma TrackedIsHeld(runs: seq<Run>, capacity: nat, run: Run, younger: nat)
    requires Tracks(runs, capacity, run, younger)
    ensures run.id in Ids(runs) && younger < capacity
  {
    assert Ids(runs)[IndexOf(runs, run.id)] == run.id;
  }

  lemma AcceptedAppend(runs: seq<Run>, capacity: nat, run: Run, younger: nat, event: Event)
    requires Tracks(runs, capacity, run, younger) && ValidateEvent(run, event).None?
    ensures Respond(runs, Append(run.id, event)).Stored?
    ensures Tracks(After(capacity, runs, Append(run.id, event)), capacity, WithEvent(run, event), younger)
  {
    var p := IndexOf(runs, run.id);
    IndexOfIs(runs[p := WithEvent(run, event)], run.id, p);
  }

  /** The freshly created run. */
  lemma NewRunIsTracked(runs: seq<Run>, capacity: nat, op: Op)
    requires capacity >= 1 && |runs| <= capacity && AddsRun(op) && op.id !in Ids(runs)
    ensures Tracks(After(capacity, runs, op), capacity, NewRun(op), 0)
  {
    var created := After(capacity, runs, op);
    assert created == Newest(runs + [NewRun(op)], capacity);
    assert forall j | 0 <= j < |runs| :: runs[j].id == Ids(runs)[j];
    IndexOfIs(created, op.id, |created| - 1);
  }

  // ----- the collector's requests and what comes between them

  /**
   What surrounds one request of the collector: the calls of other clients that reach the service before it,
   since the collector's last request, and the time that the collector sends with it.
   */
  datatype Turn = Turn(before: seq<Op>, at: Timestamp)

  /** Requests 0 to 4 post the run's events and request 5 reads the run. */
  ghost predicate Surroundings(turns: seq<Turn>, id: string) {
    |turns| == 6 && forall k | 0 <= k < 6 :: turns[k].at.Aware? && forall op | op in turns[k].before :: KeepsOut(op, id)
  }

  /** How many runs other clients add before the collector's `k`-th request gets its answer, counted from one. */
  function Younger(turns: seq<Turn>, k: nat): nat
    requires k <= |turns|
  {
    if k == 0 then 0 else Younger(turns, k - 1) + Added(turns[k - 1].before)
  }

  lemma {:induction false} YoungerGrows(turns: seq<Turn>, j: nat, k: nat)
    requires j <= k <= |turns|
    ensures Younger(turns, j) <= Younger(turns, k)
  {
    if j < k {
      YoungerGrows(turns, j, k - 1);
    }
  }

  /** The run with what was posted so far, under the times sent. */
  function RunOf(base: Run, turns: seq<Turn>, posts: seq<Transition>): Run
    requires |posts| <= |turns|
  {
    base.(events := seq(|posts|, i requires 0 <= i < |posts| => EventOf(posts[i], turns[i].at)))
  }

  /** The store holds the collector's run with what was posted so far, and only what other clients added is younger. */
  ghost predicate Records(runs: seq<Run>, capacity: nat, base: Run, turns: seq<Turn>, posts: seq<Transition>,
                          latest: int)
    requires |turns| == 6
  {
    && |posts| <= 5 && OnTimeline(RunOf(base, turns, posts), |posts|, latest)
    && Tracks(runs, capacity, RunOf(base, turns, posts), Younger(turns, |posts|))
  }

  /** How the service answers a post. */
  function PostAnswer(held: bool, id: string, t: Transition): Option<PostError> {
    if !Admissible(t) then Some(Unprocessable) else if held then None else Some(Conflict(RunNotFound(id)))
  }

  /** The answer to the `k`-th post: the run is held while fewer than `capacity` younger runs were added. */
  function AnswerTo(capacity: nat, id: string, turns: seq<Turn>, posts: seq<Transition>, k: nat): Option<PostError>
    requires k < |posts| <= |turns|
  {
    PostAnswer(Younger(turns, k + 1) < capacity, id, posts[k])
  }

  ghost predicate Accepted(capacity: nat, id: string, turns: seq<Turn>, posts: seq<Transition>, n: nat)
    requires n <= |posts| <= |turns|
  {
    forall k | 0 <= k < n :: AnswerTo(capacity, id, turns, posts, k).None?
  }

  /** The first post that is not accepted is answered with the error. */
  ghost predicate FirstRefused(capacity: nat, id: string, turns: seq<Turn>, posts: seq<Transition>, error: PostError)
    requires |posts| <= |turns|
  {
    exists k | 0 <= k < |posts| :: Accepted(capacity, id, turns, posts, k)
        && AnswerTo(capacity, id, turns, posts, k) == Some(error)
  }

  lemma RefusedInPrefix(capacity: nat, id: string, turns: seq<Turn>, posts: seq<Transition>, more: seq<Transition>,
                        error: PostError)
    requires posts <= more && |more| <= |turns| && FirstRefused(capacity, id, turns, posts, error)
    ensures FirstRefused(capacity, id, turns, more, error)
  {
    var k :| 0 <= k < |posts| && Accepted(capacity, id, turns, posts, k)
        && AnswerTo(capacity, id, turns, posts, k) == Some(error);
    forall j | 0 <= j <= k ensures AnswerTo(capacity, id, turns, more, j) == AnswerTo(capacity, id, turns, posts, j) {
      assert more[j] == posts[j];
    }
  }

  lemma AcceptedOneMore(capacity: nat, id: string, turns: seq<Turn>, posts: seq<Transition>, t: Transition)
    requires |posts| < |turns| && Accepted(capacity, id, turns, posts, |posts|)
    ensures Accepted(capacity, id, turns, posts + [t], |posts|)
    ensures AnswerTo(capacity, id, turns, posts + [t], |posts|)
              == PostAnswer(Younger(turns, |posts| + 1) < capacity, id, t)
    ensures var answer := PostAnswer(Younger(turns, |posts| + 1) < capacity, id, t);
            if answer.None? then Accepted(capacity, id, turns, posts + [t], |posts| + 1)
            else FirstRefused(capacity, id, turns, posts + [t], answer.value)
  {
    forall k | 0 <= k < |posts| ensures AnswerTo(capacity, id, turns, posts + [t], k)
        == AnswerTo(capacity, id, turns, posts, k) {
      assert (posts + [t])[k] == posts[k];
    }
  }

  /** An accepted post. */
  lemma PostIsRecorded(runs: seq<Run>, capacity: nat, base: Run, turns: seq<Turn>, posts: seq<Transition>,
                       t: Transition, latest: int)
    requires |turns| == 6 && |posts| < 5 && OnTimeline(RunOf(base, turns, posts), |posts|, latest)
    requires Tracks(runs, capacity, RunOf(base, turns, posts), Younger(turns, |posts| + 1))
    requires Fits(t, |posts|) && Admissible(t) && latest <= t.offsetMs && turns[|posts|].at.Aware?
    ensures var op := Append(base.id, EventOf(t, turns[|posts|].at));
            Respond(runs, op).Stored? && Records(After(capacity, runs, op), capacity, base, turns, posts + [t],
                                                 t.offsetMs)
  {
    var run, event := RunOf(base, turns, posts), EventOf(t, turns[|posts|].at);
    NextIsAccepted(run, |posts|, latest, t, turns[|posts|].at);
    AcceptedAppend(runs, capacity, run, Younger(turns, |posts| + 1), event);
    assert RunOf(base, turns, posts + [t]).events == run.events + [event];
  }

  /** One post, after whatever other clients did since the last one. */
  method PostOne(capacity: nat, runs: seq<Run>, ghost base: Run, id: string, turns: seq<Turn>, k: nat, t: Transition,
                 ghost posts: seq<Transition>, ghost latest: int)
    returns (refused: Option<PostError>, after: seq<Run>)
    requires id == base.id && Surroundings(turns, id) && k == |posts| < 5
    requires Records(runs, capacity, base, turns, posts, latest) && Fits(t, k) && latest <= t.offsetMs
    ensures refused == PostAnswer(Younger(turns, k + 1) < capacity, id, t)
    ensures refused.None? ==> Records(after, capacity, base, turns, posts + [t], t.offsetMs)
  {
    after := AfterAll(capacity, runs, turns[k].before);
    OthersPushOutIff(capacity, runs, RunOf(base, turns, posts), Younger(turns, k), turns[k].before);
    if Younger(turns, k + 1) >= capacity {
      LostIndex(after, id);
    } else if Admissible(t) {
      PostIsRecorded(after, capacity, base, turns, posts, t, latest);
    }
    refused, after := RecordEvent(capacity, after, id, t, turns[k].at);
  }

  /** The transitions of one poll continue what has been posted. */
  ghost predicate Continues(transitions: seq<Transition>, n: nat, offsetMs: int) {
    && n + |transitions| <= 5
    && forall i | 0 <= i < |transitions| :: Fits(transitions[i], n + i) && transitions[i].offsetMs == offsetMs
  }

  /** Posting the transitions of one poll, up to the first refusal. */
  method PostAll(capacity: nat, runs: seq<Run>, ghost base: Run, id: string, turns: seq<Turn>, k: nat,
                 transitions: seq<Transition>, ghost posts: seq<Transition>, ghost latest: int, ghost offsetMs: int)
    returns (refused: Option<PostError>, after: seq<Run>)
    requires id == base.id && Surroundings(turns, id) && k == |posts| && Continues(transitions, k, offsetMs)
    requires Records(runs, capacity, base, turns, posts, latest) && latest <= offsetMs
    requires Accepted(capacity, id, turns, posts, k)
    ensures refused.Some? ==> FirstRefused(capacity, id, turns, posts + transitions, refused.value)
    ensures refused.None? ==>
              && Accepted(capacity, id, turns, posts + transitions, k + |transitions|)
              && Records(after, capacity, base, turns, posts + transitions, offsetMs)
  {
    ghost var seen, time := posts, latest;
    after := runs;
    assert posts + transitions[..0] == posts;
    for i := 0 to |transitions|
      invariant seen == posts + transitions[..i] && time <= offsetMs
      invariant Accepted(capacity, id, turns, seen, |seen|) && Records(after, capacity, base, turns, seen, time)
    {
      PrefixThen(posts, transitions, i);
      AcceptedOneMore(capacity, id, turns, seen, transitions[i]);
      refused, after := PostOne(capacity, after, base, id, turns, k + i, transitions[i], seen, time);
      if refused.Some? {
        RefusedInPrefix(capacity, id, turns, seen + [transitions[i]], posts + transitions, refused.value);
        return;
      }
      seen, time := seen + [transitions[i]], offsetMs;
    }
    assert transitions[..|transitions|] == transitions;
    refused := None;
  }

  lemma PrefixThen<T>(a: seq<T>, b: seq<T>, i: nat)
    requires i < |b|
    ensures a + b[..i + 1] == a + b[..i] + [b[i]] <= a + b
  {
  }

  // ----- the polls

  datatype Poll = Poll(lines: seq<PingLine>, bfdUp: bool, ospfFull: bool, routeMetric: Option<int>, nowNs: int)

  datatype Outcome =
    | Completed(run: Run)
    | NotMarkedComplete
    | Vanished
    | Refused(error: PostError)
    | TimedOut(missing: set<Kind>)

  function SampleOf(poll: Poll, faultNs: int): Sample {
    Sample(poll.bfdUp, poll.ospfFull, poll.routeMetric, LastRecovery(poll.lines, Some(faultNs)))
  }

  function Samples(polls: seq<Poll>, faultNs: int): seq<Sample> {
    seq(|polls|, i requires 0 <= i < |polls| => SampleOf(polls[i], faultNs))
  }

  function Offsets(polls: seq<Poll>, faultNs: int): seq<int> {
    seq(|polls|, i requires 0 <= i < |polls| => OffsetMs(faultNs, polls[i].nowNs))
  }

  function Detected(polls: seq<Poll>, faultNs: int, metric: int): seq<Transition> {
    Output(metric, Samples(polls, faultNs), Offsets(polls, faultNs))
  }

  /** What the collector posts: the injection, then everything it detects. */
  function Posts(polls: seq<Poll>, faultNs: int, metric: int): (posts: seq<Transition>)
    ensures 1 <= |posts| <= 5
  {
    OutputIsCausalPrefix(metric, Samples(polls, faultNs), Offsets(polls, faultNs));
    [BLACKHOLE] + Detected(polls, faultNs, metric)
  }

  /** What one more poll adds to the posts. */
  lemma PollStep(polls: seq<Poll>, poll: Poll, faultNs: int, metric: int)
    ensures var k := Stage(metric, Samples(polls, faultNs));
            var sample, offset := SampleOf(poll, faultNs), OffsetMs(faultNs, poll.nowNs);
            && Posts(polls + [poll], faultNs, metric)
               == Posts(polls, faultNs, metric) + Emits(metric, sample, offset, k)
            && Stage(metric, Samples(polls + [poll], faultNs)) == Advance(metric, sample, k)
            && |Posts(polls, faultNs, metric)| == k + 1
            && Continues(Emits(metric, sample, offset, k), k + 1, offset)
  {
    var samples, offsets := Samples(polls, faultNs), Offsets(polls, faultNs);
    var sample, offset := SampleOf(poll, faultNs), OffsetMs(faultNs, poll.nowNs);
    assert Samples(polls + [poll], faultNs) == samples + [sample]
           && Offsets(polls + [poll], faultNs) == offsets + [offset];
    assert (samples + [sample])[..|samples|] == samples && (offsets + [offset])[..|samples|] == offsets;
    OutputIsCausalPrefix(metric, samples, offsets);
    EmitsContinue(metric, sample, offset, Stage(metric, samples));
    assert Detected(polls + [poll], faultNs, metric)
        == Detected(polls, faultNs, metric) + Emits(metric, sample, offset, Stage(metric, samples));
  }

  lemma EmitsContinue(metric: int, sample: Sample, offsetMs: int, k: nat)
    requires k <= 4
    ensures Continues(Emits(metric, sample, offsetMs, k), k + 1, offsetMs)
  {
    OrderFacts();
    var emitted := Emits(metric, sample, offsetMs, k);
    forall i | 0 <= i < |emitted| ensures Fits(emitted[i], k + 1 + i) && emitted[i].offsetMs == offsetMs {
      assert Observed(metric, k + i, sample) && emitted[i] == TransitionAt(k + i, sample, offsetMs);
      assert ORDER[(k + i) + 1] == STAGES[k + i];
    }
  }

  /** The posts only grow with the polls. */
  lemma {:induction false} PostsGrow(polls: seq<Poll>, faultNs: int, metric: int, n: nat)
    requires n <= |polls|
    ensures Posts(polls[..n], faultNs, metric) <= Posts(polls, faultNs, metric)
    decreases |polls|
  {
    if n == |polls| {
      assert polls[..n] == polls;
    } else {
      var before := polls[..|polls| - 1];
      assert before[..n] == polls[..n];
      PostsGrow(before, faultNs, metric, n);
      PollStep(before, polls[|polls| - 1], faultNs, metric);
      assert polls == before + [polls[|polls| - 1]];
    }
  }

  function TransitionKinds(transitions: seq<Transition>): set<Kind> {
    set t | t in transitions :: t.event
  }

  lemma EmittedKinds(metric: int, sample: Sample, offsetMs: int, k: nat)
    requires k <= 4
    ensures FirstStages(Advance(metric, sample, k))
              == FirstStages(k) + TransitionKinds(Emits(metric, sample, offsetMs, k))
  {
    var emitted, n := Emits(metric, sample, offsetMs, k), Advance(metric, sample, k);
    forall i | 0 <= i < |emitted| ensures emitted[i] in emitted && emitted[i].event == STAGES[k + i] && k + i < n {
      assert emitted[i] == TransitionAt(k + i, sample, offsetMs);
    }
    forall i | k <= i < n ensures STAGES[i] in TransitionKinds(emitted) {
      assert emitted[i - k].event == STAGES[k + (i - k)];
    }
  }

  /** The monotonic clock never runs backwards, from the injection on. */
  ghost predicate ClockMonotone(polls: seq<Poll>, faultNs: int) {
    && (forall i | 0 <= i < |polls| :: faultNs <= polls[i].nowNs)
    && forall i, j | 0 <= i < j < |polls| :: polls[i].nowNs <= polls[j].nowNs
  }

  ghost predicate LatestBefore(latest: int, polls: seq<Poll>, faultNs: int, i: nat) {
    forall j | i <= j < |polls| :: latest <= OffsetMs(faultNs, polls[j].nowNs)
  }

  lemma LatestStep(polls: seq<Poll>, faultNs: int, i: nat)
    requires ClockMonotone(polls, faultNs) && i < |polls|
    ensures LatestBefore(OffsetMs(faultNs, polls[i].nowNs), polls, faultNs, i + 1)
  {
    forall j | i + 1 <= j < |polls| ensures OffsetMs(faultNs, polls[i].nowNs) <= OffsetMs(faultNs, polls[j].nowNs) {
      OffsetsAreMonotone(faultNs, polls[i].nowNs, polls[j].nowNs);
    }
  }

  // ----- the whole loop

  /** What the outcome says about everything the collector posts and what other clients do meanwhile. */
  ghost predicate Explains(outcome: Outcome, capacity: nat, base: Run, turns: seq<Turn>, posts: seq<Transition>)
    requires |posts| <= 5 && |turns| == 6
  {
    match outcome
    case Completed(run) =>
      |posts| == 5 && Accepted(capacity, base.id, turns, posts, 5) && Younger(turns, 6) < capacity
          && run == RunOf(base, turns, posts)
    case Vanished =>
      |posts| == 5 && Accepted(capacity, base.id, turns, posts, 5) && Younger(turns, 6) >= capacity
    case TimedOut(missing) =>
      |posts| < 5 && Accepted(capacity, base.id, turns, posts, |posts|)
          && missing == set i | |posts| <= i < 5 :: ORDER[i]
    case Refused(error) => FirstRefused(capacity, base.id, turns, posts, error)
    case NotMarkedComplete => false
  }

  lemma {:induction false} AcceptedOrRefused(capacity: nat, id: string, turns: seq<Turn>, posts: seq<Transition>,
                                             n: nat)
    requires n <= |posts| <= |turns|
    ensures Accepted(capacity, id, turns, posts, n) || exists error :: FirstRefused(capacity, id, turns, posts, error)
  {
    if n > 0 {
      AcceptedOrRefused(capacity, id, turns, posts, n - 1);
      var answer := AnswerTo(capacity, id, turns, posts, n - 1);
      if Accepted(capacity, id, turns, posts, n - 1) && answer.Some? {
        assert FirstRefused(capacity, id, turns, posts, answer.value);
      }
    }
  }

  /** Exactly one outcome goes with what is posted, what other clients do meanwhile, and the capacity. */
  lemma OutcomeIsDetermined(capacity: nat, base: Run, turns: seq<Turn>, posts: seq<Transition>)
    requires |posts| <= 5 && |turns| == 6
    ensures exists outcome :: Explains(outcome, capacity, base, turns, posts)
    ensures forall a, b | Explains(a, capacity, base, turns, posts) && Explains(b, capacity, base, turns, posts) ::
              a == b
  {
    AcceptedOrRefused(capacity, base.id, turns, posts, |posts|);
    if error :| FirstRefused(capacity, base.id, turns, posts, error) {
      assert Explains(Refused(error), capacity, base, turns, posts);
    } else if |posts| < 5 {
      assert Explains(TimedOut(set i | |posts| <= i < 5 :: ORDER[i]), capacity, base, turns, posts);
    } else if Younger(turns, 6) < capacity {
      assert Explains(Completed(RunOf(base, turns, posts)), capacity, base, turns, posts);
    } else {
      assert Explains(Vanished, capacity, base, turns, posts);
    }
  }

  /** The loop's state before poll `i`. */
  ghost predicate InLoop(runs: seq<Run>, capacity: nat, base: Run, turns: seq<Turn>, polls: seq<Poll>, i: nat,
                         faultNs: int, metric: int, latest: int)
    requires |turns| == 6
  {
    && i <= |polls| && LatestBefore(latest, polls, faultNs, i) && Stage(metric, Samples(polls[..i], faultNs)) < 4
    && Records(runs, capacity, base, turns, Posts(polls[..i], faultNs, metric), latest)
    && Accepted(capacity, base.id, turns, Posts(polls[..i], faultNs, metric), |Posts(polls[..i], faultNs, metric)|)
  }

  /**
   One poll: drain the ping output, sample, detect, post.  It is refused exactly with the answer to the first
   post that is inadmissible or comes after the run was pushed out.
   */
  method PollOnce(capacity: nat, runs: seq<Run>, ghost base: Run, id: string, turns: seq<Turn>, k: nat,
                  tracker: PingRecoveryTracker, detector: LiveTransitionDetector, ghost polls: seq<Poll>, poll: Poll,
                  faultNs: int, ghost latest: int)
    returns (refused: Option<PostError>, transitions: seq<Transition>, after: seq<Run>)
    requires id == base.id && Surroundings(turns, id) && tracker.injectedNs == Some(faultNs)
    requires latest <= OffsetMs(faultNs, poll.nowNs)
             && detector.AtStage(Stage(detector.failoverMetric, Samples(polls, faultNs)))
    requires k == |Posts(polls, faultNs, detector.failoverMetric)|
    requires Accepted(capacity, id, turns, Posts(polls, faultNs, detector.failoverMetric), k)
    requires Records(runs, capacity, base, turns, Posts(polls, faultNs, detector.failoverMetric), latest)
    modifies tracker`lastSequence, detector
    ensures detector.AtStage(Stage(detector.failoverMetric, Samples(polls + [poll], faultNs)))
    ensures detector.recorded == old(detector.recorded) + TransitionKinds(transitions)
    ensures Posts(polls + [poll], faultNs, detector.failoverMetric)
              == Posts(polls, faultNs, detector.failoverMetric) + transitions
    ensures var posts := Posts(polls + [poll], faultNs, detector.failoverMetric);
            if refused.Some? then FirstRefused(capacity, id, turns, posts, refused.value)
            else
              && Accepted(capacity, id, turns, posts, |posts|)
              && Records(after, capacity, base, turns, posts, OffsetMs(faultNs, poll.nowNs))
  {
    ghost var metric := detector.failoverMetric;
    ghost var stage := Stage(metric, Samples(polls, faultNs));
    var sequence := DrainPing(poll.lines, tracker);
    var sample := Sample(poll.bfdUp, poll.ospfFull, poll.routeMetric, sequence);
    var offset := OffsetMs(faultNs, poll.nowNs);
    transitions := detector.Observe(sample, offset, stage);
    PollStep(polls, poll, faultNs, metric);
    EmittedKinds(metric, sample, offset, stage);
    refused, after := PostAll(capacity, runs, base, id, turns, k, transitions, Posts(polls, faultNs, metric), latest,
                              offset);
  }

  /** The set of recorded kinds says whether the last stage is reached. */
  lemma AllRecorded(k: nat)
    requires k <= 4
    ensures FirstStages(k) == {BfdDown, OspfNeighborDown, RouteFailover, DataPlaneRecovered} <==> k == 4
    ensures {BfdDown, OspfNeighborDown, RouteFailover, DataPlaneRecovered} - FirstStages(k)
              == set i | k + 1 <= i < 5 :: ORDER[i]
  {
    StagesDistinct();
    OrderFacts();
    assert STAGES[3] in FirstStages(k) <==> 3 < k;
    forall kind ensures kind in {BfdDown, OspfNeighborDown, RouteFailover, DataPlaneRecovered} - FirstStages(k)
                   <==> kind in set i | k + 1 <= i < 5 :: ORDER[i] {
      if i :| k + 1 <= i < 5 && ORDER[i] == kind {
        assert STAGES[i - 1] == kind;
      }
      if kind in {BfdDown, OspfNeighborDown, RouteFailover, DataPlaneRecovered} - FirstStages(k) {
        var i :| 0 <= i < 4 && STAGES[i] == kind;
        assert ORDER[i + 1] == kind;
      }
    }
  }

  /** All posts went through: what reading the run gives. */
  method ReadRun(capacity: nat, runs: seq<Run>, ghost base: Run, id: string, turns: seq<Turn>,
                 ghost posts: seq<Transition>, ghost latest: int)
    returns (outcome: Outcome)
    requires id == base.id && Surroundings(turns, id) && |posts| == 5
    requires Records(runs, capacity, base, turns, posts, latest) && Accepted(capacity, id, turns, posts, 5)
    ensures Explains(outcome, capacity, base, turns, posts)
  {
    var held := AfterAll(capacity, runs, turns[5].before);
    OthersPushOutIff(capacity, runs, RunOf(base, turns, posts), Younger(turns, 5), turns[5].before);
    TimelineKinds(RunOf(base, turns, posts), 5, latest);
    if Younger(turns, 6) >= capacity {
      LostIndex(held, id);
    }
    match Respond(held, Get(id)) {
      case Stored(run) => return if Complete(run) then Completed(run) else NotMarkedComplete;
      case _ => return Vanished;
    }
  }

  /** One turn of the polling loop: post what the poll detects, and finish once everything is recorded. */
  method PollTurn(capacity: nat, runs: seq<Run>, ghost base: Run, id: string, turns: seq<Turn>,
                  tracker: PingRecoveryTracker, detector: LiveTransitionDetector, recorded: set<Kind>, k: nat,
                  polls: seq<Poll>, i: nat, faultNs: int, ghost latest: int)
    returns (outcome: Option<Outcome>, after: seq<Run>, all: set<Kind>, n: nat)
    requires id == base.id && Surroundings(turns, id) && ClockMonotone(polls, faultNs) && i < |polls|
    requires tracker.injectedNs == Some(faultNs) && recorded == detector.recorded
    requires InLoop(runs, capacity, base, turns, polls, i, faultNs, detector.failoverMetric, latest)
    requires k == |Posts(polls[..i], faultNs, detector.failoverMetric)|
    requires detector.AtStage(Stage(detector.failoverMetric, Samples(polls[..i], faultNs)))
    modifies tracker`lastSequence, detector
    ensures outcome.Some? ==> Explains(outcome.value, capacity, base, turns,
                                       Posts(polls, faultNs, detector.failoverMetric))
    ensures outcome.None? ==>
              && InLoop(after, capacity, base, turns, polls, i + 1, faultNs, detector.failoverMetric,
                        OffsetMs(faultNs, polls[i].nowNs))
              && n == |Posts(polls[..i + 1], faultNs, detector.failoverMetric)| && all == detector.recorded
              && detector.AtStage(Stage(detector.failoverMetric, Samples(polls[..i + 1], faultNs)))
  {
    ghost var metric := detector.failoverMetric;
    PrefixStep(polls, i);
    PostsGrow(polls, faultNs, metric, i + 1);
    var refused, transitions;
    refused, transitions, after := PollOnce(capacity, runs, base, id, turns, k, tracker, detector, polls[..i],
                                            polls[i], faultNs, latest);
    all, n := recorded + TransitionKinds(transitions), k + |transitions|;
    ghost var posts := Posts(polls[..i + 1], faultNs, metric);
    if refused.Some? {
      RefusedInPrefix(capacity, id, turns, posts, Posts(polls, faultNs, metric), refused.value);
      return Some(Refused(refused.value)), after, all, n;
    }
    AllRecorded(Stage(metric, Samples(polls[..i + 1], faultNs)));
    PostCount(polls[..i + 1], faultNs, metric);
    if all == {BfdDown, OspfNeighborDown, RouteFailover, DataPlaneRecovered} {
      assert posts == Posts(polls, faultNs, metric);
      var result := ReadRun(capacity, after, base, id, turns, posts, OffsetMs(faultNs, polls[i].nowNs));
      return Some(result), after, all, n;
    }
    LatestStep(polls, faultNs, i);
    outcome := None;
  }

  lemma PostCount(polls: seq<Poll>, faultNs: int, metric: int)
    ensures |Posts(polls, faultNs, metric)| == Stage(metric, Samples(polls, faultNs)) + 1
  {
    OutputIsCausalPrefix(metric, Samples(polls, faultNs), Offsets(polls, faultNs));
  }

  /**
   The collector against a service that other clients use too, before and between its requests.  With a
   monotone clock it never finds its run unmarked.  It completes when all four events are detected and
   admissible and its run is held at every request; it ends with the first refusal, or times out.
   */
  method CollectLive(capacity: nat, held: seq<Run>, id: string, source: string, target: string, startedAt: Timestamp,
                     failoverMetric: int, faultNs: int, polls: seq<Poll>, turns: seq<Turn>)
    returns (outcome: Outcome)
    requires capacity >= 1 && |held| <= capacity && id !in Ids(held) && source != "" && target != "" && startedAt.Aware?
    requires Surroundings(turns, id) && ClockMonotone(polls, faultNs)
    ensures Explains(outcome, capacity, Run(id, Bfd100x3, source, target, startedAt, []), turns,
                     Posts(polls, faultNs, failoverMetric))
  {
    ghost var base := Run(id, Bfd100x3, source, target, startedAt, []);
    var refused;
    var runs := After(capacity, held, Create(id, Bfd100x3, source, target, startedAt));
    StartRecords(capacity, held, base, turns);
    var tracker := new PingRecoveryTracker();
    tracker.MarkInjected(faultNs);
    refused, runs := PostOne(capacity, runs, base, id, turns, 0, BLACKHOLE, [], 0);
    InjectionStep(capacity, id, turns, polls, faultNs, failoverMetric);
    if refused.Some? {
      return Refused(refused.value);
    }
    var detector := new LiveTransitionDetector(failoverMetric);
    var recorded: set<Kind>, k := {}, 1;
    ghost var latest := 0;
    for i := 0 to |polls|
      invariant tracker.injectedNs == Some(faultNs) && fresh(tracker) && fresh(detector)
                && detector.failoverMetric == failoverMetric
      invariant InLoop(runs, capacity, base, turns, polls, i, faultNs, failoverMetric, latest)
      invariant k == |Posts(polls[..i], faultNs, failoverMetric)| && recorded == detector.recorded
      invariant detector.AtStage(Stage(failoverMetric, Samples(polls[..i], faultNs)))
    {
      var ended;
      ended, runs, recorded, k := PollTurn(capacity, runs, base, id, turns, tracker, detector, recorded, k, polls, i,
                                           faultNs, latest);
      if ended.Some? {
        return ended.value;
      }
      latest := OffsetMs(faultNs, polls[i].nowNs);
    }
    assert polls[..|polls|] == polls;
    PostCount(polls, faultNs, failoverMetric);
    AllRecorded(Stage(failoverMetric, Samples(polls, faultNs)));
    return TimedOut({BfdDown, OspfNeighborDown, RouteFailover, DataPlaneRecovered} - recorded);
  }

  /** The created run, before anything is posted. */
  lemma StartRecords(capacity: nat, held: seq<Run>, base: Run, turns: seq<Turn>)
    requires capacity >= 1 && |held| <= capacity && base.id !in Ids(held) && |turns| == 6
    requires base.profile == Bfd100x3 && base.source != "" && base.target != "" && base.startedAt.Aware?
             && base.events == []
    ensures Records(After(capacity, held, Create(base.id, Bfd100x3, base.source, base.target, base.startedAt)),
                    capacity, base, turns, [], 0)
  {
    NewRunIsTracked(held, capacity, Create(base.id, Bfd100x3, base.source, base.target, base.startedAt));
    assert RunOf(base, turns, []) == base;
  }

  /** What the answer to the injection's post means for the whole run. */
  lemma InjectionStep(capacity: nat, id: string, turns: seq<Turn>, polls: seq<Poll>, faultNs: int, metric: int)
    requires |turns| == 6 && ClockMonotone(polls, faultNs)
    ensures Posts(polls[..0], faultNs, metric) == [BLACKHOLE] == [] + [BLACKHOLE]
    ensures Stage(metric, Samples(polls[..0], faultNs)) == 0 && LatestBefore(0, polls, faultNs, 0)
    ensures var answer := PostAnswer(Younger(turns, 1) < capacity, id, BLACKHOLE);
            if answer.None? then Accepted(capacity, id, turns, [BLACKHOLE], 1)
            else FirstRefused(capacity, id, turns, Posts(polls, faultNs, metric), answer.value)
  {
    assert polls[..0] == [] && [] + [BLACKHOLE] == [BLACKHOLE];
    AcceptedOneMore(capacity, id, turns, [], BLACKHOLE);
    var answer := PostAnswer(Younger(turns, 1) < capacity, id, BLACKHOLE);
    if answer.Some? {
      RefusedInPrefix(capacity, id, turns, [BLACKHOLE], Posts(polls, faultNs, metric), answer.value);
    }
    forall j | 0 <= j < |polls| ensures 0 <= OffsetMs(faultNs, polls[j].nowNs) {
      OffsetsAreMonotone(faultNs, faultNs, polls[j].nowNs);
    }
  }

  // ----- when the collector is refused, and when it completes

  predicate AllAdmissible(transitions: seq<Transition>) {
    forall t | t in transitions :: Admissible(t)
  }

  /** Nothing posted is inadmissible exactly when it comes within a minute and the failover metric is a legal one. */
  lemma RefusalCondition(polls: seq<Poll>, faultNs: int, metric: int)
    ensures var posts := Posts(polls, faultNs, metric);
            AllAdmissible(posts) <==>
              (forall t | t in posts :: t.offsetMs <= 60_000) && (|posts| >= 4 ==> 1 <= metric <= 65_535)
  {
    var posts := Posts(polls, faultNs, metric);
    forall j | 0 <= j < |posts|
      ensures Admissible(posts[j]) <==> posts[j].offsetMs <= MAX_OFFSET_MS && (j == 3 ==> 1 <= metric <= MAX_METRIC)
    {
      AdmissiblePost(polls, faultNs, metric, j);
    }
    assert |posts| >= 4 ==> posts[3] in posts && (Admissible(posts[3]) ==> 1 <= metric <= MAX_METRIC);
    if (forall t | t in posts :: t.offsetMs <= MAX_OFFSET_MS) && (|posts| >= 4 ==> 1 <= metric <= MAX_METRIC) {
      forall t | t in posts ensures Admissible(t) {
        var j :| 0 <= j < |posts| && posts[j] == t;
      }
    }
  }

  lemma AdmissiblePost(polls: seq<Poll>, faultNs: int, metric: int, j: nat)
    requires j < |Posts(polls, faultNs, metric)|
    ensures var t := Posts(polls, faultNs, metric)[j];
            Admissible(t) <==> t.offsetMs <= MAX_OFFSET_MS && (j == 3 ==> 1 <= metric <= MAX_METRIC)
  {
    var samples := Samples(polls, faultNs);
    OutputIsCausalPrefix(metric, samples, Offsets(polls, faultNs));
    if j > 0 {
      EmissionsAreCausal(metric, samples, j - 1, j - 1);
    }
  }

  /** The run was pushed out before the `k`-th post, and nothing up to it is inadmissible. */
  ghost predicate ComesTooLate(capacity: nat, turns: seq<Turn>, posts: seq<Transition>, k: nat)
    requires |posts| <= |turns|
  {
    k < |posts| && AllAdmissible(posts[..k + 1]) && Younger(turns, k + 1) >= capacity
  }

  /**
   The collector is told that its run does not exist exactly when some post comes too late for it, before
   any is inadmissible.
   */
  lemma PushedOutIff(outcome: Outcome, capacity: nat, base: Run, turns: seq<Turn>, posts: seq<Transition>)
    requires |posts| <= 5 && |turns| == 6 && Explains(outcome, capacity, base, turns, posts)
    ensures outcome == Refused(Conflict(RunNotFound(base.id))) <==> exists k :: ComesTooLate(capacity, turns, posts, k)
  {
    if outcome.Refused? {
      var k :| 0 <= k < |posts| && Accepted(capacity, base.id, turns, posts, k)
               && AnswerTo(capacity, base.id, turns, posts, k) == Some(outcome.error);
      if outcome.error.Conflict? {
        forall t | t in posts[..k + 1] ensures Admissible(t) {
          var j :| 0 <= j <= k && posts[j] == t;
          assert j < k ==> AnswerTo(capacity, base.id, turns, posts, j).None?;
        }
        assert ComesTooLate(capacity, turns, posts, k);
      }
    }
    if k :| ComesTooLate(capacity, turns, posts, k) {
      forall j | 0 <= j <= k ensures Admissible(posts[j]) {
        assert posts[..k + 1][j] in posts[..k + 1];
      }
      assert AnswerTo(capacity, base.id, turns, posts, k).Some?;
    }
  }

  /** The collector's samples explain the four events in causal order. */
  ghost predicate Explained(polls: seq<Poll>, faultNs: int, metric: int) {
    exists times: seq<nat> :: |times| == 4 && Causal(metric, Samples(polls, faultNs), times)
  }

  /**
   With a legal failover metric and every poll within a minute of the fault, the outcome depends only on
   whether the samples explain the four events, and on when `capacity` younger runs have been added: before
   some post, it is refused; later, before the final read, the run has vanished; otherwise it completes or
   times out.
   */
  lemma CollectorCompletesIffExplained(outcome: Outcome, capacity: nat, base: Run, turns: seq<Turn>, polls: seq<Poll>,
                                       faultNs: int, metric: int)
    requires |turns| == 6 && Explains(outcome, capacity, base, turns, Posts(polls, faultNs, metric))
    requires 1 <= metric <= 65_535 && forall o | o in Offsets(polls, faultNs) :: o <= 60_000
    ensures var explained, n := Explained(polls, faultNs, metric), |Posts(polls, faultNs, metric)|;
            && (outcome.Completed? <==> explained && Younger(turns, 6) < capacity)
            && (outcome.Vanished? <==> explained && Younger(turns, 5) < capacity <= Younger(turns, 6))
            && (outcome.TimedOut? <==> !explained && Younger(turns, n) < capacity)
            && (outcome.Refused? <==> Younger(turns, n) >= capacity)
            && (outcome.Refused? ==> outcome == Refused(Conflict(RunNotFound(base.id))))
  {
    var posts := Posts(polls, faultNs, metric);
    WithinBounds(polls, faultNs, metric);
    PostCount(polls, faultNs, metric);
    EmittedIffExplained(metric, Samples(polls, faultNs), 4);
    YoungerGrows(turns, |posts|, 6);
    YoungerGrows(turns, 5, 6);
    AcceptedIffHeld(capacity, base.id, turns, posts);
  }

  lemma WithinBounds(polls: seq<Poll>, faultNs: int, metric: int)
    requires 1 <= metric <= MAX_METRIC && forall o | o in Offsets(polls, faultNs) :: o <= MAX_OFFSET_MS
    ensures AllAdmissible(Posts(polls, faultNs, metric))
  {
    var samples, offsets, posts := Samples(polls, faultNs), Offsets(polls, faultNs), Posts(polls, faultNs, metric);
    OutputIsCausalPrefix(metric, samples, offsets);
    forall t | t in posts ensures t.offsetMs <= MAX_OFFSET_MS {
      var j :| 0 <= j < |posts| && posts[j] == t;
      if j > 0 {
        assert offsets[EmissionIndex(metric, samples, j - 1)] in offsets;
      }
    }
    RefusalCondition(polls, faultNs, metric);
  }

  /** When nothing is inadmissible, the run being held at the last post decides. */
  lemma AcceptedIffHeld(capacity: nat, id: string, turns: seq<Turn>, posts: seq<Transition>)
    requires 1 <= |posts| <= 5 && |turns| == 6 && AllAdmissible(posts)
    ensures Accepted(capacity, id, turns, posts, |posts|) <==> Younger(turns, |posts|) < capacity
    ensures forall k | 0 <= k < |posts| ::
              AnswerTo(capacity, id, turns, posts, k) in {None, Some(Conflict(RunNotFound(id)))}
  {
    forall k | 0 <= k < |posts|
      ensures posts[k] in posts && Younger(turns, k + 1) <= Younger(turns, |posts|)
    {
      YoungerGrows(turns, k + 1, |posts|);
    }
    if Accepted(capacity, id, turns, posts, |posts|) {
      assert AnswerTo(capacity, id, turns, posts, |posts| - 1).None?;
    }
  }

  /** What a completed run holds: the injection, then each event with its sample's own readings and the time sent. */
  lemma CompletedRunContents(run: Run, capacity: nat, base: Run, turns: seq<Turn>, polls: seq<Poll>, faultNs: int,
                             metric: int)
    requires |turns| == 6 && Explains(Completed(run), capacity, base, turns, Posts(polls, faultNs, metric))
    ensures (run.id, run.profile, run.source, run.target, run.startedAt)
         == (base.id, base.profile, base.source, base.target, base.startedAt)
    ensures |run.events| == 5 && run.events[0] == Event(BlackholeInjected, 0, turns[0].at, None, None)
    ensures Stage(metric, Samples(polls, faultNs)) == 4
    ensures var samples, offsets := Samples(polls, faultNs), Offsets(polls, faultNs);
            var a, b, c, d := EmissionIndex(metric, samples, 0), EmissionIndex(metric, samples, 1),
                EmissionIndex(metric, samples, 2), EmissionIndex(metric, samples, 3);
            && run.events[1] == Event(BfdDown, offsets[a], turns[1].at, None, None)
            && run.events[2] == Event(OspfNeighborDown, offsets[b], turns[2].at, None, None)
            && run.events[3] == Event(RouteFailover, offsets[c], turns[3].at, Some(metric), None)
            && run.events[4] == Event(DataPlaneRecovered, offsets[d], turns[4].at, None, samples[d].icmpSequence)
  {
    var samples, offsets := Samples(polls, faultNs), Offsets(polls, faultNs);
    PostCount(polls, faultNs, metric);
    EmissionCarriesItsSample(metric, samples, offsets, 0);
    EmissionCarriesItsSample(metric, samples, offsets, 1);
    EmissionCarriesItsSample(metric, samples, offsets, 2);
    EmissionCarriesItsSample(metric, samples, offsets, 3);
  }

  /** A poll just past the minute is refused although the stored run itself would accept its event. */
  lemma LatePollIsRefused(faultNs: int, at: Timestamp)
    requires at.Aware?
    ensures var late := Poll([], false, true, None, faultNs + 60_001 * NS_PER_MS);
            var posts := Posts([late], faultNs, 140);
            posts == [BLACKHOLE, Transition(BfdDown, 60_001, None, None)] && !AllAdmissible(posts)
    ensures var run := Run("r", Bfd100x3, "s", "t", at, [EventOf(BLACKHOLE, at)]);
            ValidateEvent(run, EventOf(Transition(BfdDown, 60_001, None, None), at)).None?
  {
    var late := Poll([], false, true, None, faultNs + 60_001 * NS_PER_MS);
    PollStep([], late, faultNs, 140);
    assert [] + [late] == [late];
    assert OffsetMs(faultNs, late.nowNs) == 60_001;
    var sample := SampleOf(late, faultNs);
    assert Advance(140, sample, 0) == 1 by {
      assert Observed(140, 0, sample) && !Observed(140, 1, sample);
    }
    assert Emits(140, sample, 60_001, 0) == [TransitionAt(0, sample, 60_001)];
    assert Posts([], faultNs, 140) == [BLACKHOLE];
    assert Posts([late], faultNs, 140) == [BLACKHOLE] + [Transition(BfdDown, 60_001, None, None)];
    assert Transition(BfdDown, 60_001, None, None) in Posts([late], faultNs, 140);
  }
}
