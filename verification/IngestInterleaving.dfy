/**
 Concurrent ingest requests.  The handler holds no lock across its store calls, so each request is a sequence
 of atomic steps, and the steps of any number of requests, and saves made elsewhere, interleave freely.
 */
module IngestInterleaving {
  import opened Wrappers
  import opened Collections
  import opened IsoTime
  import opened TelemetryModels
  import opened TelemetryStore
  import opened Ingest

  /** Where a request stands; `read` is the latest snapshot it saw. */
  datatype Phase = Pending | Checked(read: Option<Snapshot>) | Unsaved | Answered(status: Status)

  /** A store, given by the saves it has received, and the requests under way. */
  datatype World = World(saves: seq<Snapshot>, phases: seq<Phase>)

  datatype Action = Elsewhere(s: Snapshot) | Proceed(request: nat)

  /** The retained snapshots. */
  ghost function Retained(capacity: nat, w: World): (held: set<Snapshot>)
    requires capacity >= 1
    ensures UniqueIds(held)
  {
    Held(capacity, w.saves)
  }

  ghost function NextPhase(held: set<Snapshot>, capacity: nat, s: Snapshot, phase: Phase): Phase
    requires UniqueIds(held)
  {
    match phase
    case Pending =>
      var latest := LatestOf(held, Some(s.fingerprint));
      if NotNewer(latest, s) then Answered(Conflict409) else Checked(latest)
    case Checked(_) =>
      (match AnswerTo(held, capacity, s)
       case Saved => Answered(Created201)
       case ConflictingId => Answered(Conflict409)
       case NotSaved => Unsaved)
    case Unsaved => Answered(if RetriesIn(held, s.fingerprint, s) then Ok200 else Conflict409)
    case Answered(_) => phase
  }

  ghost function Step(capacity: nat, requests: seq<Snapshot>, w: World, a: Action): (next: World)
    requires capacity >= 1 && |w.phases| == |requests|
    ensures |next.phases| == |requests|
  {
    match a
    case Elsewhere(s) => w.(saves := w.saves + [s])
    case Proceed(i) =>
      if i >= |requests| then w
      else
        World(
          if w.phases[i].Checked? then w.saves + [requests[i]] else w.saves,
          w.phases[i := NextPhase(Retained(capacity, w), capacity, requests[i], w.phases[i])])
  }

  function Start(requests: seq<Snapshot>): World {
    World([], seq(|requests|, i => Pending))
  }

  ghost function After(capacity: nat, requests: seq<Snapshot>, actions: seq<Action>): (w: World)
    requires capacity >= 1
    ensures |w.phases| == |requests|
  {
    if actions == [] then Start(requests)
    else Step(capacity, requests, After(capacity, requests, actions[..|actions| - 1]), actions[|actions| - 1])
  }

  // ----- the latest snapshot never moves back

  lemma {:induction false} SavesGrow(capacity: nat, requests: seq<Snapshot>, actions: seq<Action>, n: nat)
    requires capacity >= 1 && n <= |actions|
    ensures var early, late := After(capacity, requests, actions[..n]).saves, After(capacity, requests, actions).saves;
            |early| <= |late| && late[..|early|] == early
    decreases |actions|
  {
    if n == |actions| {
      assert actions[..n] == actions;
    } else {
      var before := actions[..|actions| - 1];
      assert before[..n] == actions[..n];
      SavesGrow(capacity, requests, before, n);
      var early := After(capacity, requests, actions[..n]).saves;
      var mid, late := After(capacity, requests, before).saves, After(capacity, requests, actions).saves;
      assert late[..|mid|] == mid;
      assert late[..|early|] == mid[..|early|];
    }
  }

  /**
   In every interleaving, whatever is saved or evicted in between, a later look at the latest snapshot of a
   fingerprint shows the same one or one that outranks it.
   */
  lemma LatestNeverRegresses(capacity: nat, requests: seq<Snapshot>, actions: seq<Action>, n: nat, fingerprint: string)
    requires capacity >= 1 && n <= |actions|
    ensures var early := LatestOf(Retained(capacity, After(capacity, requests, actions[..n])), Some(fingerprint));
            var late := LatestOf(Retained(capacity, After(capacity, requests, actions)), Some(fingerprint));
            early.Some? && late.Some? ==> early == late || KeyLess(early.value, late.value)
  {
    SavesGrow(capacity, requests, actions, n);
    var early, late := After(capacity, requests, actions[..n]).saves, After(capacity, requests, actions).saves;
    LatestNeverMovesBack(capacity, late, |early|, Some(fingerprint));
  }

  // ----- a snapshot is created at most once

  lemma OfferedIsNotSavedAgain(capacity: nat, saves: seq<Snapshot>, s: Snapshot)
    requires capacity >= 1 && s in Offered(capacity, saves)
    ensures !AnswerTo(Held(capacity, saves), capacity, s).Saved?
  {
    HistoryKeepsTop(capacity, saves);
    var held := Held(capacity, saves);
    if s !in held {
      forall h | h in held ensures !KeyLess(h, s) {
        KeyTotal(h, s);
      }
    }
  }

  lemma OfferedNow(capacity: nat, saves: seq<Snapshot>, s: Snapshot)
    requires capacity >= 1
    ensures Offered(capacity, saves) <= Offered(capacity, saves + [s])
    ensures AnswerTo(Held(capacity, saves), capacity, s).Saved? ==> s in Offered(capacity, saves + [s])
    ensures Held(capacity, saves + [s]) == AfterSave(Held(capacity, saves), capacity, s)
  {
    assert (saves + [s])[..|saves|] == saves;
  }

  predicate IsCreated(w: World, i: int) {
    0 <= i < |w.phases| && w.phases[i] == Answered(Created201)
  }

  ghost predicate CreatedOnce(capacity: nat, requests: seq<Snapshot>, w: World)
    requires capacity >= 1
  {
    && (forall i | IsCreated(w, i) && i < |requests| :: requests[i] in Offered(capacity, w.saves))
    && (forall i, j | IsCreated(w, i) && IsCreated(w, j) && i < |requests| && j < |requests| && i != j ::
        requests[i] != requests[j])
  }

  lemma CreatedOnceStep(capacity: nat, requests: seq<Snapshot>, w: World, a: Action)
    requires capacity >= 1 && |w.phases| == |requests| && CreatedOnce(capacity, requests, w)
    ensures CreatedOnce(capacity, requests, Step(capacity, requests, w, a))
  {
    var next := Step(capacity, requests, w, a);
    match a
    case Elsewhere(s) =>
      OfferedNow(capacity, w.saves, s);
      CreatedOnceCarries(capacity, requests, w, next);
    case Proceed(k) =>
      if k < |requests| && w.phases[k].Checked? {
        OfferedNow(capacity, w.saves, requests[k]);
        if IsCreated(next, k) {
          CreatedByStep(capacity, requests, w, k);
        } else {
          CreatedOnceCarries(capacity, requests, w, next);
        }
      } else {
        CreatedOnceCarries(capacity, requests, w, next);
      }
  }

  lemma CreatedOnceCarries(capacity: nat, requests: seq<Snapshot>, w: World, next: World)
    requires capacity >= 1 && CreatedOnce(capacity, requests, w)
             && Offered(capacity, w.saves) <= Offered(capacity, next.saves)
    requires forall i | IsCreated(next, i) :: IsCreated(w, i)
    ensures CreatedOnce(capacity, requests, next)
  {
  }

  /** A save that creates is the first offer of its snapshot. */
  lemma CreatedByStep(capacity: nat, requests: seq<Snapshot>, w: World, k: nat)
    requires capacity >= 1 && k < |requests| == |w.phases| && w.phases[k].Checked? && CreatedOnce(capacity, requests, w)
    requires AnswerTo(Retained(capacity, w), capacity, requests[k]).Saved?
    ensures CreatedOnce(capacity, requests, World(w.saves + [requests[k]], w.phases[k := Answered(Created201)]))
  {
    var next := World(w.saves + [requests[k]], w.phases[k := Answered(Created201)]);
    OfferedNow(capacity, w.saves, requests[k]);
    if requests[k] in Offered(capacity, w.saves) {
      OfferedIsNotSavedAgain(capacity, w.saves, requests[k]);
    }
    assert forall i | IsCreated(next, i) && i != k :: IsCreated(w, i);
  }

  /** In every interleaving, of the requests that carry one snapshot at most one is answered 201. */
  lemma {:induction false} CreatedAtMostOnce(capacity: nat, requests: seq<Snapshot>, actions: seq<Action>)
    requires capacity >= 1
    ensures CreatedOnce(capacity, requests, After(capacity, requests, actions))
  {
    if actions != [] {
      var before := actions[..|actions| - 1];
      CreatedAtMostOnce(capacity, requests, before);
      CreatedOnceStep(capacity, requests, After(capacity, requests, before), actions[|actions| - 1]);
    }
  }

  // ----- what 201 and 200 still mean

  /** A 201 makes the snapshot the latest exactly when no better one of its fingerprint is retained at its save. */
  lemma CreatedBecomesLatest(capacity: nat, requests: seq<Snapshot>, actions: seq<Action>, i: nat)
    requires capacity >= 1 && i < |requests|
    requires After(capacity, requests, actions).phases[i].Checked?
    requires var w := After(capacity, requests, actions);
             IsCreated(Step(capacity, requests, w, Proceed(i)), i)
    ensures var w := After(capacity, requests, actions);
            var s, now := requests[i], LatestOf(Retained(capacity, w), Some(requests[i].fingerprint));
            LatestOf(Retained(capacity, Step(capacity, requests, w, Proceed(i))), Some(s.fingerprint)) == Some(s)
            <==> now.None? || KeyLess(now.value, s)
  {
    var w := After(capacity, requests, actions);
    HistoryKeepsTop(capacity, w.saves);
    OfferedNow(capacity, w.saves, requests[i]);
    SavedBecomesLatest(Retained(capacity, w), Offered(capacity, w.saves), capacity, requests[i]);
  }

  /** What a checked request has established about the latest snapshot it read. */
  ghost predicate ChecksHold(requests: seq<Snapshot>, w: World) {
    |w.phases| == |requests| && forall i | 0 <= i < |requests| && w.phases[i].Checked? ::
        !NotNewer(w.phases[i].read, requests[i])
  }

  lemma {:induction false} ChecksAlwaysHold(capacity: nat, requests: seq<Snapshot>, actions: seq<Action>)
    requires capacity >= 1
    ensures ChecksHold(requests, After(capacity, requests, actions))
  {
    if actions != [] {
      ChecksAlwaysHold(capacity, requests, actions[..|actions| - 1]);
    }
  }

  /** When the latest snapshot is still the one read, a 201 is strictly newer than it and becomes the latest. */
  lemma UndisturbedCreation(capacity: nat, requests: seq<Snapshot>, actions: seq<Action>, i: nat)
    requires capacity >= 1 && i < |requests|
    requires var w := After(capacity, requests, actions);
             && w.phases[i] == Checked(LatestOf(Retained(capacity, w), Some(requests[i].fingerprint)))
             && IsCreated(Step(capacity, requests, w, Proceed(i)), i)
    ensures var w := After(capacity, requests, actions);
            var s, now := requests[i], LatestOf(Retained(capacity, w), Some(requests[i].fingerprint));
            && (now.Some? ==> Earlier(now.value.observedAt, s.observedAt))
            && LatestOf(Retained(capacity, Step(capacity, requests, w, Proceed(i))), Some(s.fingerprint)) == Some(s)
  {
    ChecksAlwaysHold(capacity, requests, actions);
    CreatedBecomesLatest(capacity, requests, actions, i);
    var w := After(capacity, requests, actions);
    LatestFacts(Retained(capacity, w), requests[i].fingerprint);
    assert !HasId(Retained(capacity, w), requests[i].id);
  }

  /** Three steps in a row are the uninterrupted call. */
  lemma UninterruptedCall(capacity: nat, s: Snapshot, w: World)
    requires capacity >= 1 && w.phases == [Pending]
    ensures var end := Step(capacity, [s], Step(capacity, [s], Step(capacity, [s], w, Proceed(0)), Proceed(0)),
                            Proceed(0));
            && end.phases[0] == Answered(StatusOf(Retained(capacity, w), capacity, s))
            && Retained(capacity, end) == RetainedAfter(Retained(capacity, w), capacity, s)
  {
    var held := Retained(capacity, w);
    var first := Step(capacity, [s], w, Proceed(0));
    var second := Step(capacity, [s], first, Proceed(0));
    OneRequestStep(capacity, s, w);
    if NotNewer(LatestOf(held, Some(s.fingerprint)), s) {
      NotNewerIsConflict(held, capacity, s);
      AnsweredStays(capacity, s, first);
    } else {
      OneRequestStep(capacity, s, first);
      OneRequestStep(capacity, s, second);
      OfferedNow(capacity, w.saves, s);
      AfterTheSave(held, capacity, s);
      RetainedIsSaved(held, capacity, s);
    }
  }

  lemma OneRequestStep(capacity: nat, s: Snapshot, w: World)
    requires capacity >= 1 && |w.phases| == 1
    ensures Step(capacity, [s], w, Proceed(0))
            == World(if w.phases[0].Checked? then w.saves + [s]
                     else w.saves, [NextPhase(Retained(capacity, w), capacity, s, w.phases[0])])
  {
  }

  lemma AnsweredStays(capacity: nat, s: Snapshot, w: World)
    requires capacity >= 1 && |w.phases| == 1 && w.phases[0].Answered?
    ensures Step(capacity, [s], w, Proceed(0)) == w
  {
    OneRequestStep(capacity, s, w);
  }

  /** The save and the last read of a request, from the store it was checked against. */
  lemma AfterTheSave(held: set<Snapshot>, capacity: nat, s: Snapshot)
    requires capacity >= 1 && UniqueIds(held) && !NotNewer(LatestOf(held, Some(s.fingerprint)), s)
    ensures UniqueIds(AfterSave(held, capacity, s))
    ensures var saved := NextPhase(held, capacity, s, Checked(LatestOf(held, Some(s.fingerprint))));
            NextPhase(AfterSave(held, capacity, s), capacity, s, saved) == Answered(StatusOf(held, capacity, s))
  {
    AfterSaveUnique(held, capacity, s);
    SavedIsCreated(held, capacity, s);
    if AnswerTo(held, capacity, s).NotSaved? {
      assert AfterSave(held, capacity, s) == held;
    }
  }

  lemma RetainedIsSaved(held: set<Snapshot>, capacity: nat, s: Snapshot)
    requires capacity >= 1 && UniqueIds(held) && !NotNewer(LatestOf(held, Some(s.fingerprint)), s)
    ensures RetainedAfter(held, capacity, s) == AfterSave(held, capacity, s)
  {
    SavedIsCreated(held, capacity, s);
  }

  // ----- two interleavings the uninterrupted law does not survive

  function At(id: string, second: int, fingerprint: string): Snapshot {
    Snapshot(id, Utc(2026, 1, 1, 0, 0, second, 0), fingerprint, [])
  }

  lemma EmptyStore(fingerprint: string)
    ensures UniqueIds({}) && LatestOf({}, Some(fingerprint)) == None
  {
    assert Matching({}, Some(fingerprint)) == {};
  }

  lemma RoomKeepsAll(held: set<Snapshot>, capacity: nat, s: Snapshot)
    requires UniqueIds(held) && !HasId(held, s.id) && |held| < capacity
    ensures AnswerTo(held, capacity, s).Saved? && AfterSave(held, capacity, s) == held + {s}
  {
    InsertKeepsUnique(held, s);
    RankedPrefixIsTop(held + {s}, capacity);
    var after := Elements(Leading(Ranked(held + {s}), capacity));
    SmallerSubset(after, held + {s});
  }

  lemma CheckStep(capacity: nat, requests: seq<Snapshot>, w: World, i: nat)
    requires capacity >= 1 && i < |requests| == |w.phases| && w.phases[i].Pending?
    requires LatestOf(Retained(capacity, w), Some(requests[i].fingerprint)) == None
    ensures Step(capacity, requests, w, Proceed(i)) == World(w.saves, w.phases[i := Checked(None)])
  {
  }

  lemma SaveStep(capacity: nat, requests: seq<Snapshot>, w: World, i: nat)
    requires capacity >= 1 && i < |requests| == |w.phases| && w.phases[i].Checked?
    requires !AnswerTo(Retained(capacity, w), capacity, requests[i]).ConflictingId?
    ensures var next := if AnswerTo(Retained(capacity, w), capacity, requests[i]).Saved? then Answered(Created201)
            else Unsaved;
            Step(capacity, requests, w, Proceed(i)) == World(w.saves + [requests[i]], w.phases[i := next])
  {
  }

  /** A run is what its last step makes of the run before it. */
  lemma LastStep(capacity: nat, requests: seq<Snapshot>, before: seq<Action>, a: Action)
    requires capacity >= 1
    ensures After(capacity, requests, before + [a]) == Step(capacity, requests, After(capacity, requests, before), a)
    ensures After(capacity, requests, []) == Start(requests)
  {
    assert (before + [a])[..|before|] == before;
  }

  lemma BothChecked(older: Snapshot, newer: Snapshot)
    ensures After(2, [older, newer], [Proceed(0), Proceed(1)]) == World([], [Checked(None), Checked(None)])
  {
    var requests := [older, newer];
    EmptyStore(older.fingerprint);
    EmptyStore(newer.fingerprint);
    LastStep(2, requests, [], Proceed(0));
    LastStep(2, requests, [Proceed(0)], Proceed(1));
    var w := Start(requests);
    assert w == World([], [Pending, Pending]);
    CheckStep(2, requests, w, 0);
    CheckStep(2, requests, World([], [Checked(None), Pending]), 1);
    assert [] + [Proceed(0)] == [Proceed(0)];
    assert [Proceed(0)] + [Proceed(1)] == [Proceed(0), Proceed(1)];
  }

  lemma BothSaved(older: Snapshot, newer: Snapshot)
    requires older.id != newer.id
    ensures After(2, [older, newer], [Proceed(0), Proceed(1), Proceed(1), Proceed(0)])
            == World([newer, older], [Answered(Created201), Answered(Created201)])
    ensures Held(2, [newer, older]) == {newer, older}
  {
    BothChecked(older, newer);
    SavesInTurn(older, newer);
    Continue(2, [older, newer], [Proceed(0), Proceed(1)], World([], [Checked(None), Checked(None)]), Proceed(1),
             Proceed(0), World([newer, older], [Answered(Created201), Answered(Created201)]));
    assert [Proceed(0), Proceed(1)] + [Proceed(1), Proceed(0)] == [Proceed(0), Proceed(1), Proceed(1), Proceed(0)];
  }

  lemma StoresOne(s: Snapshot)
    ensures AnswerTo(Held(2, []), 2, s).Saved? && Held(2, [s]) == {s}
  {
    OfferedNow(2, [], s);
    RoomKeepsAll({}, 2, s);
    assert [] + [s] == [s];
  }

  lemma StoresTwo(s: Snapshot, more: Snapshot)
    requires s.id != more.id
    ensures AnswerTo(Held(2, [s]), 2, more).Saved? && Held(2, [s, more]) == {s, more}
  {
    StoresOne(s);
    OfferedNow(2, [s], more);
    RoomKeepsAll({s}, 2, more);
    assert [s] + [more] == [s, more];
  }

  /** Both checked against an empty store, the second request saves before the first. */
  lemma SavesInTurn(first: Snapshot, second: Snapshot)
    requires first.id != second.id
    ensures Step(2, [first, second], Step(2, [first, second], World([], [Checked(None), Checked(None)]), Proceed(1)),
                 Proceed(0))
            == World([second, first], [Answered(Created201), Answered(Created201)])
    ensures Held(2, [second, first]) == {second, first}
  {
    StoresOne(second);
    StoresTwo(second, first);
    SaveStep(2, [first, second], World([], [Checked(None), Checked(None)]), 1);
    SaveStep(2, [first, second], World([second], [Checked(None), Answered(Created201)]), 0);
    assert [] + [second] == [second] && [second] + [first] == [second, first];
  }

  /**
   Two requests read an empty store; the newer one saves first.  The older one is still answered 201, and is
   not the latest.
   */
  lemma CreatedButNotLatest(fingerprint: string)
    ensures var older, newer := At("a", 1, fingerprint), At("b", 2, fingerprint);
            var end := After(2, [older, newer], [Proceed(0), Proceed(1), Proceed(1), Proceed(0)]);
            end.phases == [Answered(Created201), Answered(Created201)]
                && LatestOf(Retained(2, end), Some(fingerprint)) == Some(newer)
  {
    var older, newer := At("a", 1, fingerprint), At("b", 2, fingerprint);
    BothSaved(older, newer);
    LatestOfPair(older, newer);
  }

  lemma LatestOfPair(older: Snapshot, newer: Snapshot)
    requires older.id != newer.id && older.fingerprint == newer.fingerprint && KeyLess(older, newer)
    ensures UniqueIds({newer, older}) && LatestOf({newer, older}, Some(newer.fingerprint)) == Some(newer)
  {
    LatestIsUnique({newer, older}, newer.fingerprint, newer);
  }

  /** A full store gives up its only snapshot to a newer one. */
  lemma FullStoreReplaces(low: Snapshot, s: Snapshot)
    requires low.id != s.id && KeyLess(low, s)
    ensures UniqueIds({low}) && AnswerTo({low}, 1, s).Saved? && AfterSave({low}, 1, s) == {s}
  {
    SaveKeepsTop({low}, {low}, 1, s);
    SmallerSubset({s}, AfterSave({low}, 1, s));
  }

  lemma FullStoreRefuses(high: Snapshot, s: Snapshot)
    requires high.id != s.id && KeyLess(s, high)
    ensures UniqueIds({high}) && AnswerTo({high}, 1, s).NotSaved? && AfterSave({high}, 1, s) == {high}
  {
    KeyTotal(s, high);
  }

  lemma ForeignStore(foreign: Snapshot, fingerprint: string)
    requires foreign.fingerprint != fingerprint
    ensures UniqueIds({foreign}) && LatestOf({foreign}, Some(fingerprint)) == None
  {
    assert Matching({foreign}, Some(fingerprint)) == {};
  }

  lemma ForeignSaved(foreign: Snapshot)
    ensures Held(1, [foreign]) == {foreign}
  {
    OfferedNow(1, [], foreign);
    RoomKeepsAll({}, 1, foreign);
    assert [] + [foreign] == [foreign];
  }

  /** The first request is turned away by a store full of something newer from elsewhere. */
  lemma TurnedAway(early: Snapshot, late: Snapshot, foreign: Snapshot)
    requires early.fingerprint != foreign.fingerprint && early.id != foreign.id && KeyLess(early, foreign)
    ensures After(1, [early, late], [Elsewhere(foreign), Proceed(0), Proceed(0)])
              == World([foreign, early], [Unsaved, Pending])
    ensures Held(1, [foreign, early]) == {foreign}
  {
    ForeignSaved(foreign);
    RefusedSteps(early, late, foreign);
    StartThenForeign([early, late], foreign);
    ThreeMore(1, [early, late], [], Elsewhere(foreign), Proceed(0), Proceed(0));
    assert [] + [Elsewhere(foreign), Proceed(0), Proceed(0)] == [Elsewhere(foreign), Proceed(0), Proceed(0)];
  }

  lemma StartThenForeign(requests: seq<Snapshot>, foreign: Snapshot)
    requires |requests| == 2
    ensures Step(1, requests, After(1, requests, []), Elsewhere(foreign)) == World([foreign], [Pending, Pending])
  {
  }

  lemma TwoMore(capacity: nat, requests: seq<Snapshot>, before: seq<Action>, a: Action, b: Action)
    requires capacity >= 1
    ensures After(capacity, requests, before + [a, b])
            == Step(capacity, requests, Step(capacity, requests, After(capacity, requests, before), a), b)
  {
    LastStep(capacity, requests, before, a);
    LastStep(capacity, requests, before + [a], b);
    assert before + [a] + [b] == before + [a, b];
  }

  lemma RefusedSteps(early: Snapshot, late: Snapshot, foreign: Snapshot)
    requires early.fingerprint != foreign.fingerprint && early.id != foreign.id && KeyLess(early, foreign)
    requires Held(1, [foreign]) == {foreign}
    ensures var w := World([foreign], [Pending, Pending]);
            Step(1, [early, late], Step(1, [early, late], w, Proceed(0)), Proceed(0))
                == World([foreign, early], [Unsaved, Pending])
    ensures Held(1, [foreign, early]) == {foreign}
  {
    var requests := [early, late];
    ForeignStore(foreign, early.fingerprint);
    CheckStep(1, requests, World([foreign], [Pending, Pending]), 0);
    FullStoreRefuses(foreign, early);
    SaveStep(1, requests, World([foreign], [Checked(None), Pending]), 0);
    OfferedNow(1, [foreign], early);
    assert [foreign] + [early] == [foreign, early];
  }

  /** The second request, with the same identifier, is saved meanwhile. */
  lemma SavedMeanwhile(early: Snapshot, late: Snapshot, foreign: Snapshot)
    requires late.fingerprint != foreign.fingerprint && late.id != foreign.id && KeyLess(foreign, late)
    requires Held(1, [foreign, early]) == {foreign}
    ensures var w := World([foreign, early], [Unsaved, Pending]);
            Step(1, [early, late], Step(1, [early, late], w, Proceed(1)), Proceed(1))
            == World([foreign, early, late], [Unsaved, Answered(Created201)])
    ensures Held(1, [foreign, early, late]) == {late}
  {
    var requests := [early, late];
    ForeignStore(foreign, late.fingerprint);
    CheckStep(1, requests, World([foreign, early], [Unsaved, Pending]), 1);
    FullStoreReplaces(foreign, late);
    SaveStep(1, requests, World([foreign, early], [Unsaved, Checked(None)]), 1);
    OfferedNow(1, [foreign, early], late);
    assert [foreign, early] + [late] == [foreign, early, late];
  }

  /**
   A snapshot turned away by a store full of another fingerprint is answered 200 when, before the last read,
   a different snapshot with the same identifier is saved: the answer is 200, and what is retained is another payload.
   */
  lemma OkButNotRetained(fingerprint: string, other: string)
    requires fingerprint != other
    ensures var early, late, foreign := At("a", 1, fingerprint), At("a", 9, fingerprint), At("f", 5, other);
            var end := After(1, [early, late], [Elsewhere(foreign), Proceed(0), Proceed(0), Proceed(1), Proceed(1),
                                                Proceed(0)]);
            end.phases == [Answered(Ok200), Answered(Created201)] && Retained(1, end) == {late} && early != late
  {
    var early, late, foreign := At("a", 1, fingerprint), At("a", 9, fingerprint), At("f", 5, other);
    WholeRun(early, late, foreign);
  }

  lemma WholeRun(early: Snapshot, late: Snapshot, foreign: Snapshot)
    requires early.fingerprint == late.fingerprint != foreign.fingerprint
    requires early.id == late.id != foreign.id && KeyLess(early, foreign) && KeyLess(foreign, late)
    ensures After(1, [early, late], [Elsewhere(foreign), Proceed(0), Proceed(0), Proceed(1), Proceed(1), Proceed(0)])
            == World([foreign, early, late], [Answered(Ok200), Answered(Created201)])
    ensures Held(1, [foreign, early, late]) == {late}
  {
    TurnedAway(early, late, foreign);
    SavedMeanwhile(early, late, foreign);
    var saved, end := World([foreign, early, late], [Unsaved, Answered(Created201)]),
        World([foreign, early, late], [Answered(Ok200), Answered(Created201)]);
    LastRead(early, late, saved);
    ContinueThrough(1, [early, late], [Elsewhere(foreign), Proceed(0), Proceed(0)],
                    World([foreign, early], [Unsaved, Pending]), Proceed(1), Proceed(1), saved, Proceed(0), end);
    assert [Elsewhere(foreign), Proceed(0), Proceed(0)] + [Proceed(1), Proceed(1), Proceed(0)]
        == [Elsewhere(foreign), Proceed(0), Proceed(0), Proceed(1), Proceed(1), Proceed(0)];
  }

  lemma Continue(capacity: nat, requests: seq<Snapshot>, before: seq<Action>, w: World, a: Action, b: Action,
                 end: World)
    requires capacity >= 1 && After(capacity, requests, before) == w
    requires Step(capacity, requests, Step(capacity, requests, w, a), b) == end
    ensures After(capacity, requests, before + [a, b]) == end
  {
    TwoMore(capacity, requests, before, a, b);
  }

  lemma ContinueThrough(capacity: nat, requests: seq<Snapshot>, before: seq<Action>, w: World, a: Action, b: Action,
                        between: World, c: Action, end: World)
    requires capacity >= 1 && After(capacity, requests, before) == w
    requires Step(capacity, requests, Step(capacity, requests, w, a), b) == between
             && Step(capacity, requests, between, c) == end
    ensures After(capacity, requests, before + [a, b, c]) == end
  {
    ThreeMore(capacity, requests, before, a, b, c);
  }

  lemma ThreeMore(capacity: nat, requests: seq<Snapshot>, before: seq<Action>, a: Action, b: Action, c: Action)
    requires capacity >= 1
    ensures After(capacity, requests, before + [a, b, c])
            == Step(capacity, requests, Step(capacity, requests,
                                             Step(capacity, requests, After(capacity, requests, before), a), b), c)
  {
    TwoMore(capacity, requests, before, a, b);
    LastStep(capacity, requests, before + [a, b], c);
    assert before + [a, b] + [c] == before + [a, b, c];
  }

  /** The last read finds the identifier, under another payload. */
  lemma LastRead(early: Snapshot, late: Snapshot, w: World)
    requires w.phases == [Unsaved, Answered(Created201)] && Retained(1, w) == {late}
    requires late.id == early.id && late.fingerprint == early.fingerprint
    ensures Step(1, [early, late], w, Proceed(0)) == World(w.saves, [Answered(Ok200), Answered(Created201)])
  {
    assert late in {late};
  }

  // ----- when a 200 does mean that the payload is retained

  /** The next step of request `i` answers it 200. */
  ghost predicate AnswersOk(capacity: nat, requests: seq<Snapshot>, w: World, i: nat)
    requires capacity >= 1 && i < |requests| == |w.phases|
  {
    w.phases[i].Unsaved? && Step(capacity, requests, w, Proceed(i)).phases[i] == Answered(Ok200)
  }

  /** A 200 means that the payload is retained exactly when no other payload is retained under its identifier. */
  lemma OkMeansPayloadRetained(capacity: nat, requests: seq<Snapshot>, w: World, i: nat)
    requires capacity >= 1 && i < |requests| == |w.phases| && AnswersOk(capacity, requests, w, i)
    ensures requests[i] in Retained(capacity, w)
       <==> !exists c :: c in Retained(capacity, w) && c.id == requests[i].id && c != requests[i]
  {
    var held, s := Retained(capacity, w), requests[i];
    var c :| c in held && c.fingerprint == s.fingerprint && c.id == s.id;
    forall d | d in held && d.id == s.id && s in held ensures d == s {
      assert Agree(d, s);
    }
  }

  lemma {:induction false} HeldWasSaved(capacity: nat, saves: seq<Snapshot>, s: Snapshot)
    requires capacity >= 1 && s in Held(capacity, saves)
    ensures s in saves
  {
    if saves != [] {
      var before, last := saves[..|saves| - 1], saves[|saves| - 1];
      AfterSaveContents(Held(capacity, before), capacity, last);
      if s != last {
        HeldWasSaved(capacity, before, s);
      }
    }
  }

  /** No request, and no save made elsewhere, uses the identifier for another payload. */
  ghost predicate OwnsIdentifier(requests: seq<Snapshot>, actions: seq<Action>, s: Snapshot) {
    && (forall r | r in requests && r.id == s.id :: r == s)
    && (forall a | a in actions && a.Elsewhere? && a.s.id == s.id :: a.s == s)
  }

  lemma {:induction false} SavesComeFromOutside(capacity: nat, requests: seq<Snapshot>, actions: seq<Action>,
                                                s: Snapshot)
    requires capacity >= 1 && s in After(capacity, requests, actions).saves
    ensures s in requests || Elsewhere(s) in actions
  {
    if actions != [] {
      var before, a := actions[..|actions| - 1], actions[|actions| - 1];
      if s in After(capacity, requests, before).saves {
        SavesComeFromOutside(capacity, requests, before, s);
      }
    }
  }

  /** In every interleaving in which an identifier stands for one payload, a 200 means that the payload is retained. */
  lemma OkIsHonestForOwnIdentifiers(capacity: nat, requests: seq<Snapshot>, actions: seq<Action>, i: nat)
    requires capacity >= 1 && i < |requests| && AnswersOk(capacity, requests, After(capacity, requests, actions), i)
    requires OwnsIdentifier(requests, actions, requests[i])
    ensures requests[i] in Retained(capacity, After(capacity, requests, actions))
  {
    var w, s := After(capacity, requests, actions), requests[i];
    forall c | c in Retained(capacity, w) && c.id == s.id ensures c == s {
      HeldWasSaved(capacity, w.saves, c);
      SavesComeFromOutside(capacity, requests, actions, c);
    }
    OkMeansPayloadRetained(capacity, requests, w, i);
  }
}
