/**
 What the incident desk records: a bounded queue of incidents with two side indexes, sliding-window
 deduplication and one-shot approval.  The service class is proved against this specification.
 */
module Incidents {
  import opened Wrappers
  import opened Collections
  import opened Audit
  import opened FailureDomain

  datatype Status = AwaitingApproval | Approved

  /** An incident identifier is a fresh value. */
  datatype Id = Inc(number: int)

  /** A digest determines the text it was computed from. */
  datatype Digest = Sha256(text: string)

  datatype NetworkEvent = NetworkEvent(linkId: string, eventType: string)

  datatype Entry = Entry(id: Id, fingerprint: Digest, event: NetworkEvent, analysis: ImpactAnalysis, status: Status)

  /** `order` is the insertion order of `entries`. */
  datatype Desk = Desk(order: seq<Id>, entries: map<Id, Entry>, newest: map<Digest, Id>, lastSeen: map<Digest, int>)

  datatype Limits = Limits(window: int, capacity: nat) {
    predicate Valid() {
      window > 0 && capacity > 0
    }
  }

  const EMPTY: Desk := Desk([], map[], map[], map[])

  // ----- fingerprints

  function Hashed(e: NetworkEvent): string {
    e.eventType + ":" + e.linkId
  }

  function Fingerprint(e: NetworkEvent): Digest {
    Sha256(Hashed(e))
  }

  /** The type of `b` is that of `a` with more after a colon, which the link of `a` starts with. */
  ghost predicate Splits(a: NetworkEvent, b: NetworkEvent) {
    exists middle :: SplitsAt(a, b, middle)
  }

  predicate SplitsAt(a: NetworkEvent, b: NetworkEvent, middle: string) {
    b.eventType == a.eventType + ":" + middle && a.linkId == middle + ":" + b.linkId
  }

  lemma SplitEventsCollide(a: NetworkEvent, b: NetworkEvent, middle: string)
    requires SplitsAt(a, b, middle)
    ensures Hashed(a) == Hashed(b) && a != b
  {
    assert a.eventType + ":" + (middle + ":" + b.linkId) == a.eventType + ":" + middle + ":" + b.linkId;
    assert |b.eventType| > |a.eventType|;
  }

  lemma LongerTypeSplits(a: NetworkEvent, b: NetworkEvent)
    requires Hashed(a) == Hashed(b) && |a.eventType| < |b.eventType|
    ensures Splits(a, b)
  {
    var s, n, m := Hashed(a), |a.eventType|, |b.eventType|;
    var middle := s[n + 1..m];
    assert s[..n] == a.eventType && s[n] == ':' && s[n + 1..] == a.linkId;
    assert Hashed(b)[..m] == b.eventType && Hashed(b)[m] == ':' && Hashed(b)[m + 1..] == b.linkId;
    assert b.eventType == a.eventType + ":" + middle;
    assert a.linkId == middle + ":" + b.linkId;
    assert SplitsAt(a, b, middle);
  }

  /**
   Two events are taken for one exactly when they are one, or one type extends the other past a colon that
   its link makes up for.
   */
  lemma SameFingerprintIff(a: NetworkEvent, b: NetworkEvent)
    ensures Fingerprint(a) == Fingerprint(b) <==> a == b || Splits(a, b) || Splits(b, a)
  {
    if Hashed(a) == Hashed(b) {
      var n, m := |a.eventType|, |b.eventType|;
      if n < m {
        LongerTypeSplits(a, b);
      } else if m < n {
        LongerTypeSplits(b, a);
      } else {
        assert Hashed(a)[..n] == a.eventType && Hashed(b)[..n] == b.eventType;
        assert Hashed(a)[n + 1..] == a.linkId && Hashed(b)[n + 1..] == b.linkId;
      }
    }
    if middle :| SplitsAt(a, b, middle) {
      SplitEventsCollide(a, b, middle);
    }
    if middle :| SplitsAt(b, a, middle) {
      SplitEventsCollide(b, a, middle);
    }
  }

  ghost predicate TypesCollide(x: string, y: string) {
    exists k, l :: Hashed(NetworkEvent(k, x)) == Hashed(NetworkEvent(l, y))
  }

  lemma ExtensionCollides(x: string, y: string)
    requires x + ":" <= y
    ensures TypesCollide(x, y)
  {
    var middle := y[|x| + 1..];
    assert y == x + ":" + middle;
    var a, b := NetworkEvent(middle + ":", x), NetworkEvent("", y);
    assert middle + ":" == middle + ":" + "";
    SplitEventsCollide(a, b, middle);
  }

  /** Different event types can be taken for one another exactly when one, with a colon, begins the other. */
  lemma TypesCollideIff(x: string, y: string)
    requires x != y
    ensures TypesCollide(x, y) <==> x + ":" <= y || y + ":" <= x
  {
    if k, l :| Hashed(NetworkEvent(k, x)) == Hashed(NetworkEvent(l, y)) {
      SameFingerprintIff(NetworkEvent(k, x), NetworkEvent(l, y));
    }
    if x + ":" <= y {
      ExtensionCollides(x, y);
    }
    if y + ":" <= x {
      ExtensionCollides(y, x);
      var k, l :| Hashed(NetworkEvent(k, y)) == Hashed(NetworkEvent(l, x));
      assert Hashed(NetworkEvent(l, x)) == Hashed(NetworkEvent(k, y));
    }
  }

  // ----- the maps stay in step

  predicate Carries(d: Desk, id: Id, fingerprint: Digest) {
    id in d.entries && d.entries[id].fingerprint == fingerprint
  }

  predicate Apart(order: seq<Id>, i: int, j: int) {
    0 <= i < j < |order| ==> order[i] != order[j]
  }

  /** `id` stands at `k`, and no incident of its fingerprint stands after it. */
  ghost predicate HoldsLast(d: Desk, fingerprint: Digest, id: Id, k: int) {
    && 0 <= k < |d.order| && d.order[k] == id && Carries(d, id, fingerprint)
    && forall j | k < j < |d.order| :: !Carries(d, d.order[j], fingerprint)
  }

  /** `id` is the last retained incident of the fingerprint. */
  ghost predicate IsNewest(d: Desk, fingerprint: Digest, id: Id) {
    exists k :: HoldsLast(d, fingerprint, id, k)
  }

  ghost predicate EntryOk(d: Desk, id: Id) {
    && (id in d.order <==> id in d.entries)
    && (id in d.entries ==> d.entries[id].id == id && d.entries[id].fingerprint in d.newest)
  }

  ghost predicate IndexOk(d: Desk, fingerprint: Digest) {
    && (fingerprint in d.newest <==> fingerprint in d.lastSeen)
    && (fingerprint in d.newest ==> IsNewest(d, fingerprint, d.newest[fingerprint]))
  }

  /** Order and entries hold the same incidents; both side maps have exactly the retained fingerprints. */
  ghost predicate InSync(d: Desk) {
    && (forall i, j :: Apart(d.order, i, j))
    && (forall id :: EntryOk(d, id))
    && (forall f :: IndexOk(d, f))
  }

  lemma IndexDomain(d: Desk, fingerprint: Digest)
    requires InSync(d)
    ensures fingerprint in d.newest <==> exists id :: Carries(d, id, fingerprint)
    ensures fingerprint in d.newest <==> fingerprint in d.lastSeen
    ensures fingerprint in d.newest ==> Carries(d, d.newest[fingerprint], fingerprint)
  {
    assert IndexOk(d, fingerprint);
    if id :| Carries(d, id, fingerprint) {
      assert EntryOk(d, id);
    }
  }

  lemma RetainedCount(d: Desk)
    requires InSync(d)
    ensures |d.entries| == |d.order|
  {
    forall i, j | 0 <= i < j < |d.order| ensures d.order[i] != d.order[j] {
      assert Apart(d.order, i, j);
    }
    DistinctCount(d.order);
    forall id ensures id in d.order <==> id in d.entries {
      assert EntryOk(d, id);
    }
    assert d.entries.Keys == set id | id in d.order;
  }

  // ----- insertion and eviction

  function Insert(d: Desk, e: Entry, now: int): Desk {
    Desk(d.order + [e.id], d.entries[e.id := e], d.newest[e.fingerprint := e.id], d.lastSeen[e.fingerprint := now])
  }

  function DropOldest(d: Desk): Desk
    requires d.order != [] && d.order[0] in d.entries
  {
    var id := d.order[0];
    var f := d.entries[id].fingerprint;
    var current := f in d.newest && d.newest[f] == id;
    Desk(
      d.order[1..],
      d.entries - {id},
      if current then d.newest - {f} else d.newest,
      if current then d.lastSeen - {f} else d.lastSeen)
  }

  lemma InsertKeepsIndex(d: Desk, e: Entry, now: int, f: Digest)
    requires InSync(d) && e.id !in d.entries && f in Insert(d, e, now).newest
    ensures IsNewest(Insert(d, e, now), f, Insert(d, e, now).newest[f])
  {
    var next := Insert(d, e, now);
    if f == e.fingerprint {
      assert HoldsLast(next, f, e.id, |d.order|);
    } else {
      assert IndexOk(d, f);
      var k :| HoldsLast(d, f, d.newest[f], k);
      forall j | 0 <= j < |d.order| ensures next.order[j] == d.order[j] && next.order[j] != e.id {
        assert EntryOk(d, d.order[j]);
      }
      assert HoldsLast(next, f, d.newest[f], k);
    }
  }

  lemma InsertKeepsApart(d: Desk, e: Entry, now: int, i: int, j: int)
    requires InSync(d) && e.id !in d.entries
    ensures Apart(Insert(d, e, now).order, i, j)
  {
    assert Apart(d.order, i, j);
    if 0 <= i < |d.order| {
      assert EntryOk(d, d.order[i]);
    }
  }

  lemma InsertKeepsSync(d: Desk, e: Entry, now: int)
    requires InSync(d) && e.id !in d.entries
    ensures InSync(Insert(d, e, now))
  {
    var next := Insert(d, e, now);
    forall i, j ensures Apart(next.order, i, j) {
      InsertKeepsApart(d, e, now, i, j);
    }
    forall id ensures EntryOk(next, id) {
      assert EntryOk(d, id);
    }
    forall f ensures IndexOk(next, f) {
      assert IndexOk(d, f);
      if f in next.newest {
        InsertKeepsIndex(d, e, now, f);
      }
    }
  }

  lemma DropKeepsOrder(d: Desk, id: Id)
    requires InSync(d) && d.order != []
    ensures d.order[0] in d.entries && (id in DropOldest(d).order <==> id in d.order && id != d.order[0])
  {
    var first := d.order[0];
    assert EntryOk(d, first);
    var rest := d.order[1..];
    assert d.order == [first] + rest;
    if id in rest {
      var k :| 0 <= k < |rest| && rest[k] == id;
      assert Apart(d.order, 0, k + 1);
    }
  }

  /** No retained incident of a fingerprint stands after its newest one. */
  lemma NewestComesLast(d: Desk, f: Digest, i: int, j: int)
    requires InSync(d) && f in d.newest && 0 <= i < |d.order| && 0 <= j < |d.order|
    requires d.order[i] == d.newest[f] && Carries(d, d.order[j], f)
    ensures j <= i
  {
    assert IndexOk(d, f);
    var k :| HoldsLast(d, f, d.newest[f], k);
    assert Apart(d.order, i, k) && Apart(d.order, k, i);
  }

  /** Dropping the oldest removes a fingerprint from the side maps exactly when its last incident goes. */
  lemma OthersKeepFingerprint(d: Desk, id: Id)
    requires InSync(d) && d.order != [] && d.order[0] in d.entries && id in d.entries && id != d.order[0]
    ensures d.entries[id].fingerprint in DropOldest(d).newest
  {
    var f := d.entries[id].fingerprint;
    assert EntryOk(d, id);
    if d.newest[f] == d.order[0] {
      var j :| 0 <= j < |d.order| && d.order[j] == id;
      NewestComesLast(d, f, 0, j);
    }
  }

  lemma DropKeepsIndex(d: Desk, f: Digest)
    requires InSync(d) && d.order != [] && d.order[0] in d.entries && f in DropOldest(d).newest
    ensures IsNewest(DropOldest(d), f, DropOldest(d).newest[f])
  {
    var next := DropOldest(d);
    var id := d.newest[f];
    assert IndexOk(d, f);
    var k :| HoldsLast(d, f, id, k);
    assert k != 0;
    forall j | 0 < j < |d.order| ensures next.order[j - 1] == d.order[j] && d.order[j] != d.order[0] {
      assert Apart(d.order, 0, j);
    }
    assert HoldsLast(next, f, id, k - 1);
  }

  lemma DropKeepsSync(d: Desk)
    requires InSync(d) && d.order != []
    ensures d.order[0] in d.entries && InSync(DropOldest(d))
  {
    DropKeepsOrder(d, d.order[0]);
    var next := DropOldest(d);
    forall i, j ensures Apart(next.order, i, j) {
      assert Apart(d.order, i + 1, j + 1);
    }
    forall id ensures EntryOk(next, id) {
      assert EntryOk(d, id);
      DropKeepsOrder(d, id);
      if id in next.entries {
        OthersKeepFingerprint(d, id);
      }
    }
    forall f ensures IndexOk(next, f) {
      assert IndexOk(d, f);
      if f in next.newest {
        DropKeepsIndex(d, f);
      }
    }
  }

  /** The eviction loop. */
  function Evict(d: Desk, capacity: nat): (r: Desk)
    requires InSync(d)
    ensures InSync(r) && |r.order| <= capacity
    decreases |d.order|
  {
    if |d.order| <= capacity then d
    else
      DropKeepsSync(d);
      Evict(DropOldest(d), capacity)
  }

  // ----- the operations

  type Diagnosis = Result<ImpactAnalysis, ImpactError>

  /** A repeat of an incident that still awaits approval, within the window of its last sighting. */
  predicate IsRepeat(d: Desk, limits: Limits, fingerprint: Digest, now: int)
    requires InSyncLookup(d, fingerprint)
  {
    && fingerprint in d.newest
    && d.entries[d.newest[fingerprint]].status == AwaitingApproval
    && 0 <= now - d.lastSeen[fingerprint] <= limits.window
  }

  /** The lookups made through the indexes cannot fail. */
  predicate InSyncLookup(d: Desk, fingerprint: Digest) {
    fingerprint in d.newest ==> d.newest[fingerprint] in d.entries && fingerprint in d.lastSeen
  }

  lemma LookupsSucceed(d: Desk, fingerprint: Digest)
    requires InSync(d)
    ensures InSyncLookup(d, fingerprint)
  {
    IndexDomain(d, fingerprint);
  }

  datatype Op =
    | Ingest(event: NetworkEvent, now: int, newId: Id, diagnosis: Diagnosis)
    | Approve(id: Id)

  datatype Answer = Returned(id: Id) | Rejected(error: ImpactError) | NotFound | NotAwaiting

  function NewEntry(id: Id, event: NetworkEvent, analysis: ImpactAnalysis): Entry {
    Entry(id, Fingerprint(event), event, analysis, AwaitingApproval)
  }

  predicate Fresh(d: Desk, op: Op) {
    op.Ingest? ==> op.newId !in d.entries
  }

  function Respond(d: Desk, limits: Limits, op: Op): Answer
    requires InSync(d)
  {
    match op
    case Ingest(event, now, newId, diagnosis) =>
      LookupsSucceed(d, Fingerprint(event));
      if IsRepeat(d, limits, Fingerprint(event), now) then Returned(d.newest[Fingerprint(event)])
      else if diagnosis.Failure? then Rejected(diagnosis.error)
      else Returned(newId)
    case Approve(id) =>
      if id !in d.entries then NotFound
      else if d.entries[id].status != AwaitingApproval then NotAwaiting
      else Returned(id)
  }

  function Next(d: Desk, limits: Limits, op: Op): (r: Desk)
    requires InSync(d) && Fresh(d, op)
    ensures InSync(r) && (|d.order| <= limits.capacity ==> |r.order| <= limits.capacity)
  {
    match op
    case Ingest(event, now, newId, diagnosis) =>
      LookupsSucceed(d, Fingerprint(event));
      if IsRepeat(d, limits, Fingerprint(event), now) then Resight(d, Fingerprint(event), now)
      else if diagnosis.Failure? then d
      else Enroll(d, limits, NewEntry(newId, event, diagnosis.value), now)
    case Approve(id) =>
      if id in d.entries && d.entries[id].status == AwaitingApproval then MarkApproved(d, id) else d
  }

  function Enroll(d: Desk, limits: Limits, e: Entry, now: int): (r: Desk)
    requires InSync(d) && e.id !in d.entries
    ensures InSync(r) && |r.order| <= limits.capacity
  {
    InsertKeepsSync(d, e, now);
    Evict(Insert(d, e, now), limits.capacity)
  }

  function Resight(d: Desk, fingerprint: Digest, now: int): (r: Desk)
    requires InSync(d) && fingerprint in d.newest
    ensures InSync(r) && r.order == d.order
  {
    var r := d.(lastSeen := d.lastSeen[fingerprint := now]);
    IndexDomain(d, fingerprint);
    assert forall i :: SameEntry(d, r, i);
    SameShape(d, r);
    r
  }

  function MarkApproved(d: Desk, id: Id): (r: Desk)
    requires InSync(d) && id in d.entries
    ensures InSync(r) && r.order == d.order
  {
    var r := d.(entries := d.entries[id := d.entries[id].(status := Approved)]);
    assert forall i :: SameEntry(d, r, i);
    SameShape(d, r);
    r
  }

  predicate SameEntry(d: Desk, r: Desk, id: Id) {
    && (id in d.entries <==> id in r.entries)
    && (id in d.entries ==>
          r.entries[id].id == d.entries[id].id && r.entries[id].fingerprint == d.entries[id].fingerprint)
  }

  /** Neither sighting times nor statuses bear on the maps being in step. */
  lemma SameShape(d: Desk, r: Desk)
    requires InSync(d) && r.order == d.order && r.newest == d.newest && r.lastSeen.Keys == d.lastSeen.Keys
    requires forall id :: SameEntry(d, r, id)
    ensures InSync(r)
  {
    forall id ensures EntryOk(r, id) {
      assert EntryOk(d, id) && SameEntry(d, r, id);
    }
    forall f ensures IndexOk(r, f) {
      assert IndexOk(d, f);
      if f in d.newest {
        var k :| HoldsLast(d, f, d.newest[f], k);
        assert forall id :: SameEntry(d, r, id) ==> (Carries(d, id, f) <==> Carries(r, id, f));
        assert HoldsLast(r, f, r.newest[f], k) by {
          assert SameEntry(d, r, d.newest[f]);
          forall j | k < j < |d.order| ensures !Carries(r, r.order[j], f) {
            assert SameEntry(d, r, d.order[j]);
          }
        }
      }
    }
  }

  // ----- what one operation does to one incident, and to one fingerprint

  ghost predicate Approves(d: Desk, limits: Limits, op: Op, id: Id)
    requires InSync(d)
  {
    op == Approve(id) && Respond(d, limits, op) == Returned(id)
  }

  lemma {:induction false} EvictOnlyRemoves(d: Desk, capacity: nat, id: Id)
    requires InSync(d)
    ensures id in Evict(d, capacity).entries ==> id in d.entries && Evict(d, capacity).entries[id] == d.entries[id]
    decreases |d.order|
  {
    if |d.order| > capacity {
      DropKeepsSync(d);
      EvictOnlyRemoves(DropOldest(d), capacity, id);
    }
  }

  lemma EnrolledEntry(d: Desk, limits: Limits, e: Entry, now: int, id: Id)
    requires InSync(d) && e.id !in d.entries
    ensures var r := Enroll(d, limits, e, now);
            id in r.entries ==> if id == e.id then r.entries[id] == e
                else id in d.entries && r.entries[id] == d.entries[id]
  {
    InsertKeepsSync(d, e, now);
    EvictOnlyRemoves(Insert(d, e, now), limits.capacity, id);
  }

  ghost predicate IsNewEntry(e: Entry, op: Op) {
    && op.Ingest? && op.diagnosis.Success? && e.status == AwaitingApproval
    && e.id == op.newId && e.event == op.event && e.fingerprint == Fingerprint(op.event)
    && e.analysis == op.diagnosis.value
  }

  /** Nothing but the new incident appears, and a retained one changes only by being approved. */
  lemma NextEntry(d: Desk, limits: Limits, op: Op, id: Id)
    requires InSync(d) && Fresh(d, op) && id in Next(d, limits, op).entries
    ensures var now := Next(d, limits, op).entries[id];
            if op.Ingest? && id == op.newId then IsNewEntry(now, op)
            else if Approves(d, limits, op, id) then id in d.entries && now == d.entries[id].(status := Approved)
            else id in d.entries && now == d.entries[id]
  {
    match op
    case Ingest(event, now, newId, diagnosis) =>
      LookupsSucceed(d, Fingerprint(event));
      if !IsRepeat(d, limits, Fingerprint(event), now) && diagnosis.Success? {
        EnrolledEntry(d, limits, NewEntry(newId, event, diagnosis.value), now, id);
      }
    case Approve(_) =>
  }

  /** A retained index entry is the last one written. */
  lemma {:induction false} EvictKeepsIndex(d: Desk, capacity: nat, f: Digest)
    requires InSync(d) && f in Evict(d, capacity).newest
    ensures SameIndex(d, Evict(d, capacity), f)
    decreases |d.order|
  {
    assert IndexOk(d, f);
    if |d.order| > capacity {
      DropKeepsSync(d);
      EvictKeepsIndex(DropOldest(d), capacity, f);
    }
  }

  predicate SameIndex(d: Desk, r: Desk, f: Digest) {
    && f in d.newest && f in r.newest && f in d.lastSeen && f in r.lastSeen
    && d.newest[f] == r.newest[f] && d.lastSeen[f] == r.lastSeen[f]
  }

  lemma EnrolledIndex(d: Desk, limits: Limits, e: Entry, now: int, f: Digest)
    requires InSync(d) && e.id !in d.entries && f in Enroll(d, limits, e, now).newest
    ensures var r := Enroll(d, limits, e, now);
            if f == e.fingerprint then f in r.lastSeen && r.newest[f] == e.id && r.lastSeen[f] == now
            else SameIndex(d, r, f)
  {
    InsertKeepsSync(d, e, now);
    EvictKeepsIndex(Insert(d, e, now), limits.capacity, f);
  }

  /** The operation recorded a sighting of the fingerprint: it created or returned an incident for it. */
  ghost predicate Sights(d: Desk, limits: Limits, op: Op, fingerprint: Digest)
    requires InSync(d)
  {
    op.Ingest? && Fingerprint(op.event) == fingerprint && Respond(d, limits, op).Returned?
  }

  /** The operation created an incident for the fingerprint. */
  ghost predicate Creates(d: Desk, limits: Limits, op: Op, fingerprint: Digest)
    requires InSync(d)
  {
    Sights(d, limits, op, fingerprint) && Respond(d, limits, op) == Returned(op.newId)
  }

  ghost predicate IndexMoves(d: Desk, r: Desk, op: Op, f: Digest, sights: bool, creates: bool) {
    && f in r.newest && f in r.lastSeen
    && (if sights then op.Ingest? && r.lastSeen[f] == op.now else f in d.lastSeen && r.lastSeen[f] == d.lastSeen[f])
    && (if creates then op.Ingest? && r.newest[f] == op.newId else f in d.newest && r.newest[f] == d.newest[f])
  }

  lemma NextIndex(d: Desk, limits: Limits, op: Op, f: Digest)
    requires InSync(d) && Fresh(d, op) && f in Next(d, limits, op).newest
    ensures IndexMoves(d, Next(d, limits, op), op, f, Sights(d, limits, op, f), Creates(d, limits, op, f))
  {
    IndexDomain(d, f);
    match op
    case Ingest(event, now, newId, diagnosis) =>
      LookupsSucceed(d, Fingerprint(event));
      if !IsRepeat(d, limits, Fingerprint(event), now) && diagnosis.Success? {
        EnrolledIndex(d, limits, NewEntry(newId, event, diagnosis.value), now, f);
      }
    case Approve(_) =>
  }

  // ----- runs

  /** Every new identifier in the run is used once. */
  predicate FreshIds(ops: seq<Op>) {
    forall i, j | 0 <= i < j < |ops| && ops[i].Ingest? && ops[j].Ingest? :: ops[i].newId != ops[j].newId
  }

  predicate Offers(ops: seq<Op>, id: Id) {
    exists i :: 0 <= i < |ops| && ops[i].Ingest? && ops[i].newId == id
  }

  ghost predicate AllOffered(d: Desk, ops: seq<Op>) {
    forall id | id in d.entries :: Offers(ops, id)
  }

  lemma NextAllOffered(d: Desk, limits: Limits, ops: seq<Op>)
    requires ops != [] && InSync(d) && Fresh(d, ops[|ops| - 1]) && AllOffered(d, ops[..|ops| - 1])
    ensures AllOffered(Next(d, limits, ops[|ops| - 1]), ops)
  {
    forall id | id in Next(d, limits, ops[|ops| - 1]).entries ensures Offers(ops, id) {
      NextEntry(d, limits, ops[|ops| - 1], id);
    }
  }

  /** The desk after a run: it is in step and within capacity. */
  ghost function After(limits: Limits, ops: seq<Op>): (d: Desk)
    requires limits.Valid() && FreshIds(ops)
    ensures InSync(d) && |d.order| <= limits.capacity && AllOffered(d, ops)
  {
    if ops == [] then EMPTY
    else
      var d := After(limits, ops[..|ops| - 1]);
      NextAllOffered(d, limits, ops);
      Next(d, limits, ops[|ops| - 1])
  }

  // ----- each incident is approved at most once

  ghost function Approvals(limits: Limits, ops: seq<Op>, id: Id): nat
    requires limits.Valid() && FreshIds(ops)
  {
    if ops == [] then 0
    else
      Approvals(limits, ops[..|ops| - 1], id)
      + if Approves(After(limits, ops[..|ops| - 1]), limits, ops[|ops| - 1], id) then 1 else 0
  }

  ghost predicate StatusIsHistory(d: Desk, ops: seq<Op>, id: Id, approvals: nat) {
    && approvals <= 1 && (approvals == 1 ==> Offers(ops, id))
    && (id in d.entries ==> (d.entries[id].status == Approved <==> approvals == 1))
  }

  lemma StatusStep(d: Desk, limits: Limits, ops: seq<Op>, id: Id, approvals: nat)
    requires ops != [] && FreshIds(ops) && InSync(d) && AllOffered(d, ops[..|ops| - 1]) && Fresh(d, ops[|ops| - 1])
    requires StatusIsHistory(d, ops[..|ops| - 1], id, approvals)
    ensures var op := ops[|ops| - 1];
            StatusIsHistory(Next(d, limits, op), ops, id, approvals + if Approves(d, limits, op, id) then 1 else 0)
  {
    var op := ops[|ops| - 1];
    if id in Next(d, limits, op).entries {
      NextEntry(d, limits, op, id);
    }
    if Approves(d, limits, op, id) {
    }
  }

  /** Over any run an incident is approved at most once, and its status says whether it has been. */
  lemma {:induction false} ApprovedAtMostOnce(limits: Limits, ops: seq<Op>, id: Id)
    requires limits.Valid() && FreshIds(ops)
    ensures StatusIsHistory(After(limits, ops), ops, id, Approvals(limits, ops, id))
  {
    if ops != [] {
      ApprovedAtMostOnce(limits, ops[..|ops| - 1], id);
      StatusStep(After(limits, ops[..|ops| - 1]), limits, ops, id, Approvals(limits, ops[..|ops| - 1], id));
    }
  }

  // ----- what the window is measured from

  ghost function LastSighting(limits: Limits, ops: seq<Op>, fingerprint: Digest): Option<int>
    requires limits.Valid() && FreshIds(ops)
  {
    if ops == [] then None
    else
      var op := ops[|ops| - 1];
      if Sights(After(limits, ops[..|ops| - 1]), limits, op, fingerprint) then Some(op.now)
      else LastSighting(limits, ops[..|ops| - 1], fingerprint)
  }

  ghost function LastCreated(limits: Limits, ops: seq<Op>, fingerprint: Digest): Option<Id>
    requires limits.Valid() && FreshIds(ops)
  {
    if ops == [] then None
    else
      var op := ops[|ops| - 1];
      if Creates(After(limits, ops[..|ops| - 1]), limits, op, fingerprint) then Some(op.newId)
      else LastCreated(limits, ops[..|ops| - 1], fingerprint)
  }

  ghost predicate IndexIsHistory(d: Desk, f: Digest, seen: Option<int>, created: Option<Id>) {
    f in d.newest ==> f in d.lastSeen && seen == Some(d.lastSeen[f]) && created == Some(d.newest[f])
  }

  /** Over any run the side maps say when a fingerprint was last seen, and which incident it last created. */
  lemma {:induction false} IndexesAreHistory(limits: Limits, ops: seq<Op>, f: Digest)
    requires limits.Valid() && FreshIds(ops)
    ensures IndexIsHistory(After(limits, ops), f, LastSighting(limits, ops, f), LastCreated(limits, ops, f))
  {
    if ops != [] {
      IndexesAreHistory(limits, ops[..|ops| - 1], f);
      if f in After(limits, ops).newest {
        NextIndex(After(limits, ops[..|ops| - 1]), limits, ops[|ops| - 1], f);
      }
    }
  }

  ghost predicate CreatedCarries(d: Desk, ops: seq<Op>, f: Digest, created: Option<Id>) {
    created.Some? ==> Offers(ops, created.value) && (created.value in d.entries ==> Carries(d, created.value, f))
  }

  lemma CreatedStep(d: Desk, limits: Limits, ops: seq<Op>, f: Digest, created: Option<Id>)
    requires ops != [] && FreshIds(ops) && InSync(d) && Fresh(d, ops[|ops| - 1])
             && CreatedCarries(d, ops[..|ops| - 1], f, created)
    ensures var op := ops[|ops| - 1];
            CreatedCarries(Next(d, limits, op), ops, f, if Creates(d, limits, op, f) then Some(op.newId) else created)
  {
    var op := ops[|ops| - 1];
    var now := if Creates(d, limits, op, f) then Some(op.newId) else created;
    if now.Some? {
      if now.value in Next(d, limits, op).entries {
        NextEntry(d, limits, op, now.value);
      }
    }
  }

  /** A created incident carries its fingerprint for as long as it is retained. */
  lemma {:induction false} LastCreatedCarries(limits: Limits, ops: seq<Op>, f: Digest)
    requires limits.Valid() && FreshIds(ops)
    ensures CreatedCarries(After(limits, ops), ops, f, LastCreated(limits, ops, f))
  {
    if ops != [] {
      LastCreatedCarries(limits, ops[..|ops| - 1], f);
      CreatedStep(After(limits, ops[..|ops| - 1]), limits, ops, f, LastCreated(limits, ops[..|ops| - 1], f));
    }
  }

  /** An incident that was there before the operation answers it. */
  ghost predicate AnswersOld(d: Desk, limits: Limits, op: Op)
    requires InSync(d)
  {
    Respond(d, limits, op).Returned? && Respond(d, limits, op).id in d.entries
  }

  lemma OldAnswerIsRepeat(d: Desk, limits: Limits, op: Op)
    requires InSync(d) && op.Ingest? && Fresh(d, op)
    ensures InSyncLookup(d, Fingerprint(op.event))
    ensures AnswersOld(d, limits, op) <==> IsRepeat(d, limits, Fingerprint(op.event), op.now)
  {
    LookupsSucceed(d, Fingerprint(op.event));
  }

  /**
   An event is answered with an old incident exactly when the last incident created for its fingerprint is
   retained, still awaits approval, and was last seen no longer than the window ago.
   */
  lemma OldIncidentReturnedIff(limits: Limits, ops: seq<Op>, op: Op)
    requires limits.Valid() && FreshIds(ops) && op.Ingest? && !Offers(ops, op.newId)
    ensures var d, f := After(limits, ops), Fingerprint(op.event);
            var created, seen := LastCreated(limits, ops, f), LastSighting(limits, ops, f);
            AnswersOld(d, limits, op)
            <==> && created.Some? && seen.Some? && created.value in d.entries
                 && d.entries[created.value].status == AwaitingApproval && 0 <= op.now - seen.value <= limits.window
  {
    var d, f := After(limits, ops), Fingerprint(op.event);
    OldAnswerIsRepeat(d, limits, op);
    IndexesAreHistory(limits, ops, f);
    LastCreatedCarries(limits, ops, f);
    IndexDomain(d, f);
  }

  // ----- which events deduplication takes for one

  const LINK_DOWN := "link_down"

  /** Only link_down events on the given links are ever diagnosed, as the impact analysis has it. */
  ghost predicate Diagnosed(ops: seq<Op>, links: set<string>) {
    forall op | op in ops && op.Ingest? && op.diagnosis.Success? ::
        op.event.eventType == LINK_DOWN && op.event.linkId in links
  }

  ghost predicate IsLinkDown(e: Entry, links: set<string>) {
    e.event.eventType == LINK_DOWN && e.event.linkId in links && e.fingerprint == Fingerprint(e.event)
  }

  lemma {:induction false} RetainedAreLinkDowns(limits: Limits, ops: seq<Op>, links: set<string>, id: Id)
    requires limits.Valid() && FreshIds(ops) && Diagnosed(ops, links) && id in After(limits, ops).entries
    ensures IsLinkDown(After(limits, ops).entries[id], links)
  {
    var before, op := ops[..|ops| - 1], ops[|ops| - 1];
    assert op in ops;
    NextEntry(After(limits, before), limits, op, id);
    if id in After(limits, before).entries {
      RetainedAreLinkDowns(limits, before, links, id);
    }
  }

  lemma AnsweredFingerprint(limits: Limits, ops: seq<Op>, op: Op)
    requires limits.Valid() && FreshIds(ops) && op.Ingest? && !Offers(ops, op.newId)
             && AnswersOld(After(limits, ops), limits, op)
    ensures var d := After(limits, ops); d.entries[Respond(d, limits, op).id].fingerprint == Fingerprint(op.event)
  {
    OldAnswerIsRepeat(After(limits, ops), limits, op);
    IndexDomain(After(limits, ops), Fingerprint(op.event));
  }

  /** An event answered with an old incident is that incident's own, or splits the incident's link at a colon. */
  lemma OldAnswerIsSameOrSplits(limits: Limits, ops: seq<Op>, op: Op, links: set<string>)
    requires limits.Valid() && FreshIds(ops) && Diagnosed(ops, links)
    requires op.Ingest? && !Offers(ops, op.newId) && AnswersOld(After(limits, ops), limits, op)
    ensures var d := After(limits, ops);
            var event := d.entries[Respond(d, limits, op).id].event;
            event.eventType == LINK_DOWN && event.linkId in links && (op.event == event || Splits(event, op.event))
  {
    var d := After(limits, ops);
    var id := Respond(d, limits, op).id;
    RetainedAreLinkDowns(limits, ops, links, id);
    AnsweredFingerprint(limits, ops, op);
    SameFingerprintIff(d.entries[id].event, op.event);
    LinkDownSplitsNothing(op.event, d.entries[id].event);
  }

  lemma LinkDownSplitsNothing(a: NetworkEvent, b: NetworkEvent)
    requires b.eventType == LINK_DOWN
    ensures !Splits(a, b)
  {
    assert ':' !in LINK_DOWN;
    forall middle ensures !SplitsAt(a, b, middle) {
      if SplitsAt(a, b, middle) {
        SplitTypeHasColon(a, b, middle);
      }
    }
  }

  lemma SplitTypeHasColon(a: NetworkEvent, b: NetworkEvent, middle: string)
    requires SplitsAt(a, b, middle)
    ensures ':' in b.eventType
  {
    assert b.eventType[|a.eventType|] == ':';
  }

  /** After the run, the event is answered with the incident of another event. */
  ghost predicate Confuses(limits: Limits, links: set<string>, ops: seq<Op>, op: Op)
    requires limits.Valid()
  {
    && FreshIds(ops) && Diagnosed(ops, links) && op.Ingest? && !Offers(ops, op.newId)
       && AnswersOld(After(limits, ops), limits, op)
    && After(limits, ops).entries[Respond(After(limits, ops), limits, op).id].event != op.event
  }

  /** A stored incident on a link with a colon answers an event of another type, on what follows the colon. */
  lemma ColonLinkIsConfused(limits: Limits, x: string, y: string, analysis: ImpactAnalysis, diagnosis: Diagnosis)
    requires limits.Valid()
    ensures var first := Ingest(NetworkEvent(x + ":" + y, LINK_DOWN), 0, Inc(0), Success(analysis));
            var second := Ingest(NetworkEvent(y, LINK_DOWN + ":" + x), 0, Inc(1), diagnosis);
            && FreshIds([first]) && !Offers([first], Inc(1)) && second.event != first.event
            && AnswersOld(After(limits, [first]), limits, second)
            && Respond(After(limits, [first]), limits, second) == Returned(Inc(0))
            && After(limits, [first]).entries[Inc(0)].event == first.event
  {
    var first := Ingest(NetworkEvent(x + ":" + y, LINK_DOWN), 0, Inc(0), Success(analysis));
    var second := Ingest(NetworkEvent(y, LINK_DOWN + ":" + x), 0, Inc(1), diagnosis);
    assert SplitsAt(first.event, second.event, x);
    SplitEventsCollide(first.event, second.event, x);
    FirstIncident(limits, first.event, analysis);
  }

  lemma FirstIncident(limits: Limits, event: NetworkEvent, analysis: ImpactAnalysis)
    requires limits.Valid()
    ensures var first := Ingest(event, 0, Inc(0), Success(analysis));
            var e := NewEntry(Inc(0), event, analysis);
            FreshIds([first]) && After(limits, [first])
                == Desk([Inc(0)], map[Inc(0) := e], map[e.fingerprint := Inc(0)], map[e.fingerprint := 0])
  {
    var first := Ingest(event, 0, Inc(0), Success(analysis));
    assert [first][..0] == [];
    InsertKeepsSync(EMPTY, NewEntry(Inc(0), event, analysis), 0);
  }

  lemma SplitAtColon(link: string) returns (x: string, y: string)
    requires ':' in link
    ensures link == x + ":" + y
  {
    var i :| 0 <= i < |link| && link[i] == ':';
    x, y := link[..i], link[i + 1..];
  }

  /** Some run confuses two events exactly when some link identifier holds a colon. */
  lemma DeduplicationConfusesIff(limits: Limits, links: set<string>)
    requires limits.Valid()
    ensures (exists ops, op :: Confuses(limits, links, ops, op)) <==> exists l :: l in links && ':' in l
  {
    if ops, op :| Confuses(limits, links, ops, op) {
      OldAnswerIsSameOrSplits(limits, ops, op, links);
      var event := After(limits, ops).entries[Respond(After(limits, ops), limits, op).id].event;
      var middle :| SplitsAt(event, op.event, middle);
      assert event.linkId[|middle|] == ':';
    }
    if l :| l in links && ':' in l {
      var x, y := SplitAtColon(l);
      var analysis := ImpactAnalysis(l, [], [], RedundancyReduced);
      ColonLinkIsConfused(limits, x, y, analysis, Success(analysis));
      var first := Ingest(NetworkEvent(l, LINK_DOWN), 0, Inc(0), Success(analysis));
      var second := Ingest(NetworkEvent(y, LINK_DOWN + ":" + x), 0, Inc(1), Success(analysis));
      assert Diagnosed([first], links);
      assert Confuses(limits, links, [first], second);
    }
  }

  /** On links without a colon, as network intents demand, an old incident answers only its own event. */
  lemma ColonFreeDeduplicationIsSound(limits: Limits, ops: seq<Op>, op: Op, links: set<string>)
    requires limits.Valid() && FreshIds(ops) && Diagnosed(ops, links) && forall l | l in links :: ':' !in l
    requires op.Ingest? && !Offers(ops, op.newId) && AnswersOld(After(limits, ops), limits, op)
    ensures var d := After(limits, ops);
            op.event.eventType == LINK_DOWN && op.event == d.entries[Respond(d, limits, op).id].event
  {
    DeduplicationConfusesIff(limits, links);
    OldAnswerIsSameOrSplits(limits, ops, op, links);
    assert !Confuses(limits, links, ops, op);
  }

  // ----- which incidents are retained

  ghost function CreatedIds(limits: Limits, ops: seq<Op>): seq<Id>
    requires limits.Valid() && FreshIds(ops)
  {
    if ops == [] then []
    else
      var op := ops[|ops| - 1];
      CreatedIds(limits, ops[..|ops| - 1])
      + if op.Ingest? && Creates(After(limits, ops[..|ops| - 1]), limits, op, Fingerprint(op.event)) then [op.newId]
          else []
  }

  lemma {:induction false} EvictKeepsNewest(d: Desk, capacity: nat)
    requires InSync(d)
    ensures Evict(d, capacity).order == Newest(d.order, capacity)
    decreases |d.order|
  {
    if |d.order| > capacity {
      DropKeepsSync(d);
      EvictKeepsNewest(DropOldest(d), capacity);
    }
  }

  lemma NextOrder(d: Desk, limits: Limits, op: Op)
    requires InSync(d) && Fresh(d, op)
    ensures Next(d, limits, op).order
            == if op.Ingest? && Creates(d, limits, op, Fingerprint(op.event))
                then Newest(d.order + [op.newId], limits.capacity) else d.order
  {
    if op.Ingest? {
      OldAnswerIsRepeat(d, limits, op);
      if op.diagnosis.Success? && !IsRepeat(d, limits, Fingerprint(op.event), op.now) {
        var e := NewEntry(op.newId, op.event, op.diagnosis.value);
        InsertKeepsSync(d, e, op.now);
        EvictKeepsNewest(Insert(d, e, op.now), limits.capacity);
      }
    }
  }

  lemma CreatedIdsStep(limits: Limits, ops: seq<Op>)
    requires limits.Valid() && FreshIds(ops) && ops != []
    ensures var before, op := ops[..|ops| - 1], ops[|ops| - 1];
            CreatedIds(limits, ops) ==
            if op.Ingest? && Creates(After(limits, before), limits, op, Fingerprint(op.event))
                then CreatedIds(limits, before) + [op.newId]
            else CreatedIds(limits, before)
  {
  }

  /** Over any run the desk retains exactly the newest incidents created, in order. */
  lemma {:induction false} RetainsTheNewest(limits: Limits, ops: seq<Op>)
    requires limits.Valid() && FreshIds(ops)
    ensures After(limits, ops).order == Newest(CreatedIds(limits, ops), limits.capacity)
  {
    if ops != [] {
      var before, op := ops[..|ops| - 1], ops[|ops| - 1];
      RetainsTheNewest(limits, before);
      NextOrder(After(limits, before), limits, op);
      CreatedIdsStep(limits, ops);
      if op.Ingest? {
        NewestOfAppended(CreatedIds(limits, before), op.newId, limits.capacity);
      }
    }
  }
  // ----- what each call is answered, over every run

  /** An approval finds the incident exactly while it is among the newest created, and succeeds once. */
  lemma ApprovalAnswer(limits: Limits, ops: seq<Op>, id: Id)
    requires limits.Valid() && FreshIds(ops)
    ensures Respond(After(limits, ops), limits, Approve(id)) ==
            if id !in Newest(CreatedIds(limits, ops), limits.capacity) then NotFound
            else if Approvals(limits, ops, id) == 1 then NotAwaiting
            else Returned(id)
  {
    RetainsTheNewest(limits, ops);
    ApprovedAtMostOnce(limits, ops, id);
    assert EntryOk(After(limits, ops), id);
  }

  /** An event gets the last incident of its fingerprint, or its diagnosis's refusal, or an incident of its own. */
  lemma IngestAnswer(limits: Limits, ops: seq<Op>, op: Op)
    requires limits.Valid() && FreshIds(ops) && op.Ingest? && !Offers(ops, op.newId)
    ensures var d := After(limits, ops);
            match Respond(d, limits, op)
            case Returned(id) =>
              if AnswersOld(d, limits, op) then LastCreated(limits, ops, Fingerprint(op.event)) == Some(id)
              else id == op.newId && op.diagnosis.Success?
            case Rejected(error) => !AnswersOld(d, limits, op) && op.diagnosis == Failure(error)
            case _ => false
  {
    OldAnswerIsRepeat(After(limits, ops), limits, op);
    IndexesAreHistory(limits, ops, Fingerprint(op.event));
  }
}
