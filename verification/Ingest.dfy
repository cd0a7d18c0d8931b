/**
 The ingest endpoint: it checks a snapshot, reads the latest one, saves, and on an unsaved snapshot reads
 the recent ones.  First as one uninterrupted call, then as steps that other requests interleave with.
 */
module Ingest {
  import opened Wrappers
  import opened IsoTime
  import opened TelemetryModels
  import opened TelemetryConfig
  import opened TelemetryStore
  import opened TelemetryStores

  // ----- the three decisions

  datatype Status = Ok200 | Created201 | Conflict409

  /** The first decision: a snapshot no newer than the latest is refused, unless it repeats its identifier. */
  predicate NotNewer(latest: Option<Snapshot>, s: Snapshot) {
    latest.Some? && latest.value.id != s.id && !Earlier(latest.value.observedAt, s.observedAt)
  }

  predicate RetainedRetry(recent: seq<Snapshot>, s: Snapshot) {
    exists c :: c in recent && c.id == s.id
  }

  ghost predicate RetriesIn(held: set<Snapshot>, fingerprint: string, s: Snapshot) {
    exists c :: c in held && c.fingerprint == fingerprint && c.id == s.id
  }

  lemma RecentDecides(held: set<Snapshot>, fingerprint: string, s: Snapshot)
    requires UniqueIds(held)
    ensures RetainedRetry(RecentOf(held, Some(fingerprint)), s) <==> RetriesIn(held, fingerprint, s)
  {
    var recent := RecentOf(held, Some(fingerprint));
    assert forall c :: c in recent <==> c in Elements(recent);
  }

  // ----- the latest snapshot

  lemma LatestFacts(held: set<Snapshot>, fingerprint: string)
    requires UniqueIds(held)
    ensures var latest := LatestOf(held, Some(fingerprint));
            if latest.None? then forall c | c in held :: c.fingerprint != fingerprint
            else IsLatest(held, fingerprint, latest.value)
  {
    var latest := LatestOf(held, Some(fingerprint));
    if latest.None? {
      forall c | c in held ensures c.fingerprint != fingerprint {
        assert c !in Matching(held, Some(fingerprint));
      }
    } else {
      assert IsMax(latest.value, Matching(held, Some(fingerprint)));
    }
  }

  /** `m` is retained and every other retained snapshot of the fingerprint ranks below it. */
  ghost predicate IsLatest(held: set<Snapshot>, fingerprint: string, m: Snapshot) {
    && m in held && m.fingerprint == fingerprint
    && forall c | c in held && c.fingerprint == fingerprint && c != m :: KeyLess(c, m)
  }

  lemma LatestIsUnique(held: set<Snapshot>, fingerprint: string, m: Snapshot)
    requires UniqueIds(held) && IsLatest(held, fingerprint, m)
    ensures LatestOf(held, Some(fingerprint)) == Some(m)
  {
    assert m in Matching(held, Some(fingerprint));
    MaxUnique(Matching(held, Some(fingerprint)), m, Max(Matching(held, Some(fingerprint))));
  }

  lemma AfterSaveContents(held: set<Snapshot>, capacity: nat, s: Snapshot)
    requires UniqueIds(held)
    ensures UniqueIds(AfterSave(held, capacity, s)) && AfterSave(held, capacity, s) <= held + {s}
  {
    AfterSaveUnique(held, capacity, s);
    if AnswerTo(held, capacity, s).Saved? {
      InsertKeepsUnique(held, s);
      RankedPrefixIsTop(held + {s}, capacity);
    }
  }

  lemma OutrankingIsLatest(held: set<Snapshot>, after: set<Snapshot>, before: Option<Snapshot>, s: Snapshot)
    requires UniqueIds(held) && UniqueIds(after) && after <= held + {s} && s in after
    requires before == LatestOf(held, Some(s.fingerprint)) && (before.None? || KeyLess(before.value, s))
    ensures LatestOf(after, Some(s.fingerprint)) == Some(s)
  {
    LatestFacts(held, s.fingerprint);
    forall c | c in after && c.fingerprint == s.fingerprint && c != s ensures KeyLess(c, s) {
      if c != before.value {
        KeyTransitive(c, before.value, s);
      }
    }
    LatestIsUnique(after, s.fingerprint, s);
  }

  /** A saved snapshot becomes the latest exactly when it outranks the one that was. */
  lemma SavedBecomesLatest(held: set<Snapshot>, offered: set<Snapshot>, capacity: nat, s: Snapshot)
    requires capacity >= 1 && UniqueIds(held) && IsTop(held, offered, capacity) && AnswerTo(held, capacity, s).Saved?
    ensures UniqueIds(AfterSave(held, capacity, s)) && s in AfterSave(held, capacity, s)
    ensures var before := LatestOf(held, Some(s.fingerprint));
            LatestOf(AfterSave(held, capacity, s), Some(s.fingerprint)) == Some(s)
            <==> before.None? || KeyLess(before.value, s)
  {
    SaveKeepsTop(held, offered, capacity, s);
    AfterSaveContents(held, capacity, s);
    var after := AfterSave(held, capacity, s);
    var before := LatestOf(held, Some(s.fingerprint));
    if before.None? || KeyLess(before.value, s) {
      OutrankingIsLatest(held, after, before, s);
    } else {
      LatestFacts(held, s.fingerprint);
      BetterStays(held, capacity, s, before.value);
      LatestFacts(after, s.fingerprint);
    }
  }

  /** A save never evicts what outranks the saved snapshot. */
  lemma BetterStays(held: set<Snapshot>, capacity: nat, s: Snapshot, better: Snapshot)
    requires capacity >= 1 && UniqueIds(held) && AnswerTo(held, capacity, s).Saved? && s in AfterSave(held, capacity, s)
    requires better in held && !KeyLess(better, s)
    ensures better in AfterSave(held, capacity, s)
  {
    RankedPrefixIsTop(held + {s}, capacity);
  }

  // ----- one uninterrupted call

  /** The status the call answers with, from the retained snapshots alone. */
  ghost function StatusOf(held: set<Snapshot>, capacity: nat, s: Snapshot): Status
    requires capacity >= 1 && UniqueIds(held)
  {
    var latest := LatestOf(held, Some(s.fingerprint));
    if latest == Some(s) then Ok200
    else if !HasId(held, s.id) && (if latest.None? then |held| < capacity || !Outranked(held, s)
                                   else Earlier(latest.value.observedAt, s.observedAt))
    then Created201
    else Conflict409
  }

  /** What the call leaves retained. */
  ghost function RetainedAfter(held: set<Snapshot>, capacity: nat, s: Snapshot): (after: set<Snapshot>)
    requires capacity >= 1 && UniqueIds(held)
    ensures UniqueIds(after)
  {
    AfterSaveUnique(held, capacity, s);
    if StatusOf(held, capacity, s).Created201? then AfterSave(held, capacity, s) else held
  }

  /** The decision law: what each status says about the store before and after the call. */
  lemma DecisionLaw(held: set<Snapshot>, offered: set<Snapshot>, capacity: nat, s: Snapshot)
    requires capacity >= 1 && UniqueIds(held) && IsTop(held, offered, capacity)
    ensures var before, after := LatestOf(held, Some(s.fingerprint)),
            LatestOf(RetainedAfter(held, capacity, s), Some(s.fingerprint));
            match StatusOf(held, capacity, s)
            case Ok200 => before == Some(s) && after == Some(s)
            case Created201 =>
              && s !in held && after == Some(s) && (before.Some? ==> Earlier(before.value.observedAt, s.observedAt))
              && IsTop(RetainedAfter(held, capacity, s), offered + {s}, capacity)
            case Conflict409 =>
              && before != Some(s) && after == before
              && (NotNewer(before, s) || HasId(held, s.id)
                  || (before.None? && |held| == capacity && Outranked(held, s)))
  {
    LatestFacts(held, s.fingerprint);
    var before := LatestOf(held, Some(s.fingerprint));
    if StatusOf(held, capacity, s).Created201? {
      NewerIsSaved(held, capacity, s);
      SaveKeepsTop(held, offered, capacity, s);
      SavedBecomesLatest(held, offered, capacity, s);
    } else if before.Some? && before.value.id == s.id {
      assert HasId(held, s.id);
    }
  }

  lemma NewerIsSaved(held: set<Snapshot>, capacity: nat, s: Snapshot)
    requires capacity >= 1 && UniqueIds(held) && StatusOf(held, capacity, s).Created201?
    ensures AnswerTo(held, capacity, s).Saved?
  {
    LatestFacts(held, s.fingerprint);
    assert s in held ==> HasId(held, s.id);
    var latest := LatestOf(held, Some(s.fingerprint));
    if latest.Some? {
      assert KeyLess(latest.value, s);
    }
  }

  lemma ConflictIsNotSaved(held: set<Snapshot>, capacity: nat, s: Snapshot)
    requires capacity >= 1 && UniqueIds(held) && StatusOf(held, capacity, s).Conflict409?
    requires !NotNewer(LatestOf(held, Some(s.fingerprint)), s)
    ensures !AnswerTo(held, capacity, s).Saved?
    ensures AnswerTo(held, capacity, s).NotSaved? ==> !RetriesIn(held, s.fingerprint, s)
  {
    LatestFacts(held, s.fingerprint);
    var latest := LatestOf(held, Some(s.fingerprint));
    if latest.Some? && latest.value.id == s.id {
      assert HasId(held, s.id);
      assert s in held ==> Agree(latest.value, s);
    }
  }

  lemma OkIsRetained(held: set<Snapshot>, capacity: nat, s: Snapshot)
    requires capacity >= 1 && UniqueIds(held) && StatusOf(held, capacity, s).Ok200?
    ensures AnswerTo(held, capacity, s).NotSaved? && RetriesIn(held, s.fingerprint, s)
            && !NotNewer(LatestOf(held, Some(s.fingerprint)), s)
  {
    LatestFacts(held, s.fingerprint);
  }

  lemma NotNewerIsConflict(held: set<Snapshot>, capacity: nat, s: Snapshot)
    requires capacity >= 1 && UniqueIds(held) && NotNewer(LatestOf(held, Some(s.fingerprint)), s)
    ensures StatusOf(held, capacity, s).Conflict409?
  {
  }

  lemma SavedIsCreated(held: set<Snapshot>, capacity: nat, s: Snapshot)
    requires capacity >= 1 && UniqueIds(held) && !NotNewer(LatestOf(held, Some(s.fingerprint)), s)
    ensures AnswerTo(held, capacity, s).Saved? ==> StatusOf(held, capacity, s).Created201?
    ensures AnswerTo(held, capacity, s).ConflictingId? ==> StatusOf(held, capacity, s).Conflict409?
    ensures AnswerTo(held, capacity, s).NotSaved? ==>
              StatusOf(held, capacity, s) == if RetriesIn(held, s.fingerprint, s) then Ok200 else Conflict409
  {
    var status := StatusOf(held, capacity, s);
    LatestFacts(held, s.fingerprint);
    if status.Ok200? {
      OkIsRetained(held, capacity, s);
    } else if status.Created201? {
      NewerIsSaved(held, capacity, s);
    } else {
      ConflictIsNotSaved(held, capacity, s);
    }
  }

  /**
   A snapshot offered before, whether still retained or evicted since, is answered 200 exactly while it is
   the latest retained one of its fingerprint, and 409 otherwise: a retry never creates.
   */
  lemma RetryIsAcceptedWhileLatest(held: set<Snapshot>, offered: set<Snapshot>, capacity: nat, s: Snapshot)
    requires capacity >= 1 && UniqueIds(held) && IsTop(held, offered, capacity) && s in offered
    ensures StatusOf(held, capacity, s) == if IsLatest(held, s.fingerprint, s) then Ok200 else Conflict409
    ensures RetainedAfter(held, capacity, s) == held
  {
    LatestFacts(held, s.fingerprint);
    if IsLatest(held, s.fingerprint, s) {
      LatestIsUnique(held, s.fingerprint, s);
    }
    if s in held {
      assert HasId(held, s.id);
    } else {
      EvictedIsOutranked(held, offered, capacity, s);
    }
  }

  /** What was offered and is not retained ranks below everything retained. */
  lemma EvictedIsOutranked(held: set<Snapshot>, offered: set<Snapshot>, capacity: nat, s: Snapshot)
    requires IsTop(held, offered, capacity) && s in offered - held
    ensures |held| == capacity && Outranked(held, s)
    ensures forall h | h in held :: !Earlier(h.observedAt, s.observedAt)
  {
    forall h | h in held ensures !KeyLess(h, s) {
      KeyTotal(h, s);
    }
  }

  /** The handler, over the memory store. */
  method IngestSnapshot(store: MemoryTelemetryStore, b: Binding, s: Snapshot, now: int) returns (status: Status)
    requires store.Valid() && SnapshotOk(s) && b.Valid()
    modifies store
    ensures store.Valid()
    ensures status == if Admitted(s, b, now) then StatusOf(old(store.View()), store.capacity, s) else Conflict409
    ensures store.View() ==
            if Admitted(s, b, now) then RetainedAfter(old(store.View()), store.capacity, s) else old(store.View())
  {
    ghost var held := store.View();
    var problem := ValidateIngest(s, b, now);
    if problem.Some? {
      return Conflict409;
    }
    var latest := store.LatestSnapshot(Some(b.fingerprint));
    if NotNewer(latest, s) {
      NotNewerIsConflict(held, store.capacity, s);
      return Conflict409;
    }
    SavedIsCreated(held, store.capacity, s);
    var answer := store.Save(s);
    if answer.ConflictingId? {
      return Conflict409;
    }
    if answer.NotSaved? {
      var recent := store.Recent(Some(b.fingerprint));
      RecentDecides(held, b.fingerprint, s);
      return if RetainedRetry(recent, s) then Ok200 else Conflict409;
    }
    return Created201;
  }
}
