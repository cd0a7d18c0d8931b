/**
 The SQLite store of telemetry snapshots: one table keyed by snapshot id, ordered by the ISO text column.
 It is proved against the same specification as the memory store.
 */
module SqliteTelemetry {
  import opened Wrappers
  import opened Collections
  import Text
  import opened IsoTime
  import opened TelemetryModels
  import opened TelemetryStore
  import opened TelemetryStores

  datatype SnapshotRow = SnapshotRow(observedAt: string, payload: Snapshot)

  type Table = map<string, SnapshotRow>

  /** What every insert writes: the key and the text of its own payload. */
  ghost predicate GoodRows(rows: Table) {
    forall id | id in rows ::
      rows[id].payload.id == id && rows[id].payload.observedAt.Valid()
          && rows[id].observedAt == Iso(rows[id].payload.observedAt)
  }

  function Payloads(rows: Table, ids: set<string>): set<Snapshot> {
    set id | id in ids && id in rows :: rows[id].payload
  }

  lemma PayloadFacts(rows: Table, ids: set<string>)
    requires GoodRows(rows) && ids <= rows.Keys
    ensures UniqueIds(Payloads(rows, ids))
    ensures forall x :: x in Payloads(rows, ids) <==> x.id in ids && rows[x.id].payload == x
  {
  }

  lemma {:induction false} PayloadCount(rows: Table, ids: set<string>)
    requires GoodRows(rows) && ids <= rows.Keys
    ensures |Payloads(rows, ids)| == |ids|
  {
    if ids != {} {
      var id :| id in ids;
      PayloadCount(rows, ids - {id});
      PayloadFacts(rows, ids);
      assert Payloads(rows, ids) == Payloads(rows, ids - {id}) + {rows[id].payload};
    }
  }

  // ----- ORDER BY observed_at, snapshot_id

  predicate RowLess(rows: Table, i: string, j: string)
    requires i in rows && j in rows
  {
    || Text.Less(rows[i].observedAt, rows[j].observedAt)
    || (rows[i].observedAt == rows[j].observedAt && Text.Less(i, j))
  }

  lemma RowLessIsKeyLess(rows: Table, i: string, j: string)
    requires GoodRows(rows) && i in rows && j in rows
    ensures RowLess(rows, i, j) <==> KeyLess(rows[i].payload, rows[j].payload)
  {
    TextKeyAgrees(rows[i].payload, rows[j].payload);
  }

  predicate IsTextMax(rows: Table, ids: set<string>, m: string)
    requires ids <= rows.Keys
  {
    m in ids && forall i | i in ids && i != m :: RowLess(rows, i, m)
  }

  predicate IsTextMin(rows: Table, ids: set<string>, m: string)
    requires ids <= rows.Keys
  {
    m in ids && forall i | i in ids && i != m :: RowLess(rows, m, i)
  }

  lemma TextExtremesAreKeyExtremes(rows: Table, ids: set<string>, m: string)
    requires GoodRows(rows) && ids <= rows.Keys && m in ids
    ensures IsTextMax(rows, ids, m) <==> IsMax(rows[m].payload, Payloads(rows, ids))
    ensures IsTextMin(rows, ids, m) <==> IsMin(rows[m].payload, Payloads(rows, ids))
  {
    PayloadFacts(rows, ids);
    forall i | i in ids
      ensures RowLess(rows, i, m) <==> KeyLess(rows[i].payload, rows[m].payload)
      ensures RowLess(rows, m, i) <==> KeyLess(rows[m].payload, rows[i].payload)
    {
      RowLessIsKeyLess(rows, i, m);
      RowLessIsKeyLess(rows, m, i);
    }
    assert forall i | i in ids :: rows[i].payload in Payloads(rows, ids) && rows[i].payload.id == i;
  }

  lemma TextExtremesExist(rows: Table, ids: set<string>)
    requires GoodRows(rows) && ids <= rows.Keys && ids != {}
    ensures exists m :: IsTextMax(rows, ids, m)
    ensures exists m :: IsTextMin(rows, ids, m)
  {
    var id :| id in ids;
    PayloadFacts(rows, ids);
    assert rows[id].payload in Payloads(rows, ids);
    ExtremesExist(Payloads(rows, ids), rows[id].payload);
    var hi, lo :| IsMax(hi, Payloads(rows, ids)) && IsMin(lo, Payloads(rows, ids));
    TextExtremesAreKeyExtremes(rows, ids, hi.id);
    TextExtremesAreKeyExtremes(rows, ids, lo.id);
  }

  /** SELECT payload ... ORDER BY observed_at DESC, snapshot_id DESC. */
  method SelectNewestFirst(rows: Table) returns (r: seq<Snapshot>)
    requires GoodRows(rows)
    ensures UniqueIds(Payloads(rows, rows.Keys)) && r == Ranked(Payloads(rows, rows.Keys))
  {
    r := [];
    var ids := rows.Keys;
    PayloadFacts(rows, ids);
    ghost var all := Payloads(rows, ids);
    while ids != {}
      invariant ids <= rows.Keys && UniqueIds(Payloads(rows, ids))
      invariant r + Ranked(Payloads(rows, ids)) == Ranked(all)
      decreases ids
    {
      TextExtremesExist(rows, ids);
      var m :| m in ids && IsTextMax(rows, ids, m);
      TextExtremesAreKeyExtremes(rows, ids, m);
      RemovePayload(rows, ids, m);
      RankedStep(Payloads(rows, ids), rows[m].payload);
      Associate(r, rows[m].payload, Ranked(Payloads(rows, ids) - {rows[m].payload}));
      r := r + [rows[m].payload];
      ids := ids - {m};
    }
  }

  lemma RemovePayload(rows: Table, ids: set<string>, m: string)
    requires GoodRows(rows) && ids <= rows.Keys && m in ids
    ensures Payloads(rows, ids - {m}) == Payloads(rows, ids) - {rows[m].payload}
    ensures UniqueIds(Payloads(rows, ids - {m}))
  {
    PayloadFacts(rows, ids);
    PayloadFacts(rows, ids - {m});
  }

  function Identifiers(r: seq<Snapshot>): set<string> {
    set x | x in r :: x.id
  }

  function Keep(rows: Table, ids: set<string>): Table {
    map id | id in rows && id in ids :: rows[id]
  }

  lemma KeptRows(rows: Table, newest: seq<Snapshot>)
    requires GoodRows(rows) && Elements(newest) <= Payloads(rows, rows.Keys)
    ensures var kept := Keep(rows, Identifiers(newest));
            GoodRows(kept) && Payloads(kept, kept.Keys) == Elements(newest) && |kept| == |Elements(newest)|
  {
    var kept := Keep(rows, Identifiers(newest));
    PayloadCount(kept, kept.Keys);
    forall x ensures x in Payloads(kept, kept.Keys) <==> x in Elements(newest) {
      KeptPayload(rows, newest, x);
    }
    assert Payloads(kept, kept.Keys) == Elements(newest);
    assert |kept.Keys| == |kept|;
  }

  lemma KeptPayload(rows: Table, newest: seq<Snapshot>, x: Snapshot)
    requires GoodRows(rows) && Elements(newest) <= Payloads(rows, rows.Keys)
    ensures var kept := Keep(rows, Identifiers(newest)); x in Payloads(kept, kept.Keys) <==> x in Elements(newest)
  {
    var kept := Keep(rows, Identifiers(newest));
    PayloadFacts(rows, rows.Keys);
    PayloadFacts(kept, kept.Keys);
    assert x in newest <==> x in Elements(newest);
    assert x in newest ==> x.id in Identifiers(newest);
    if x in Payloads(kept, kept.Keys) {
      var y :| y in newest && y.id == x.id;
      assert y in Elements(newest);
    }
  }

  /** The rows that survive a prune to the newest `capacity`. */
  lemma KeptPayloads(rows: Table, capacity: nat)
    requires GoodRows(rows)
    ensures UniqueIds(Payloads(rows, rows.Keys))
    ensures var newest := Leading(Ranked(Payloads(rows, rows.Keys)), capacity);
            var kept := Keep(rows, Identifiers(newest));
            GoodRows(kept) && |kept| <= capacity && Payloads(kept, kept.Keys) == Elements(newest)
  {
    PayloadFacts(rows, rows.Keys);
    RankedPrefixIsTop(Payloads(rows, rows.Keys), capacity);
    KeptRows(rows, Leading(Ranked(Payloads(rows, rows.Keys)), capacity));
  }

  function Filtered(r: seq<Snapshot>, fingerprint: Option<string>): seq<Snapshot> {
    if r == [] then []
    else
      var last := r[|r| - 1];
      Filtered(r[..|r| - 1], fingerprint) + if Selects(fingerprint, last) then [last] else []
  }

  lemma {:induction false} FilteredFacts(r: seq<Snapshot>, fingerprint: Option<string>)
    requires Descending(r)
    ensures Descending(Filtered(r, fingerprint))
    ensures forall x :: x in Filtered(r, fingerprint) <==> x in r && Selects(fingerprint, x)
  {
    if r != [] {
      var before, last := r[..|r| - 1], r[|r| - 1];
      assert r == before + [last];
      FilteredFacts(before, fingerprint);
      var kept := Filtered(before, fingerprint);
      forall i | 0 <= i < |kept| ensures KeyLess(last, kept[i]) {
        assert kept[i] in before;
        var j :| 0 <= j < |before| && before[j] == kept[i];
        assert r[j] == kept[i];
      }
    }
  }

  /** Filtering a ranking ranks the filtered set. */
  lemma FilteredRanking(held: set<Snapshot>, fingerprint: Option<string>)
    requires UniqueIds(held)
    ensures UniqueIds(Matching(held, fingerprint))
    ensures Filtered(Ranked(held), fingerprint) == Ranked(Matching(held, fingerprint))
  {
    var r := Ranked(held);
    FilteredFacts(r, fingerprint);
    assert forall x :: x in r <==> x in Elements(r);
    assert Elements(Filtered(r, fingerprint)) == Matching(held, fingerprint);
    RankedUnique(Filtered(r, fingerprint), Matching(held, fingerprint));
  }

  class SqliteTelemetryStore {
    const capacity: nat
    var rows: Table

    ghost predicate Valid()
      reads this
    {
      1 <= capacity && |rows| <= capacity && GoodRows(rows)
    }

    ghost function View(): (v: set<Snapshot>)
      requires GoodRows(rows)
      reads this
      ensures UniqueIds(v) && |v| == |rows|
    {
      PayloadFacts(rows, rows.Keys);
      PayloadCount(rows, rows.Keys);
      Payloads(rows, rows.Keys)
    }

    /** Opening an existing table prunes it to the capacity asked for. */
    constructor Open(capacity: nat, rows: Table)
      requires capacity >= 1 && GoodRows(rows)
      ensures Valid() && this.capacity == capacity
      ensures UniqueIds(Payloads(rows, rows.Keys))
              && View() == Elements(Leading(Ranked(Payloads(rows, rows.Keys)), capacity))
    {
      this.capacity, this.rows := capacity, rows;
      new;
      Prune();
    }

    method Prune()
      requires 1 <= capacity && GoodRows(rows)
      modifies this
      ensures Valid() && View() == Elements(Leading(Ranked(old(View())), capacity))
    {
      var newest := SelectNewestFirst(rows);
      KeptPayloads(rows, capacity);
      rows := Keep(rows, Identifiers(Leading(newest, capacity)));
    }

    method Save(s: Snapshot) returns (answer: SaveAnswer)
      requires Valid() && s.observedAt.Valid()
      modifies this
      ensures Valid()
      ensures answer == AnswerTo(old(View()), capacity, s)
      ensures View() == AfterSave(old(View()), capacity, s)
      ensures answer != Saved ==> unchanged(this)
    {
      ghost var held := View();
      PayloadFacts(rows, rows.Keys);
      if s.id in rows {
        return if rows[s.id].payload != s then ConflictingId else NotSaved;
      }
      var refused := TurnsAway(s);
      if refused {
        return NotSaved;
      }
      Insert(s);
      return Saved;
    }

    /** A full table compares the candidate's text key with the oldest row's. */
    method TurnsAway(s: Snapshot) returns (refused: bool)
      requires Valid() && s.observedAt.Valid()
      ensures refused <==> |View()| >= capacity && Outranked(View(), s)
    {
      if |rows| < capacity {
        return false;
      }
      var oldest := Oldest();
      MinOutranks(View(), rows[oldest].payload, s);
      TextKeyAgrees(rows[oldest].payload, s);
      var text, candidate := rows[oldest].observedAt, Iso(s.observedAt);
      return !(Text.Less(text, candidate) || (text == candidate && Text.Less(oldest, s.id)));
    }

    method Insert(s: Snapshot)
      requires Valid() && s.observedAt.Valid() && s.id !in rows
      modifies this
      ensures !HasId(old(View()), s.id) && UniqueIds(old(View()) + {s})
      ensures Valid() && View() == Elements(Leading(Ranked(old(View()) + {s}), capacity))
    {
      InsertedRow(rows, s);
      InsertKeepsUnique(View(), s);
      rows := rows[s.id := SnapshotRow(Iso(s.observedAt), s)];
      Prune();
    }

    /** SELECT ... ORDER BY observed_at ASC, snapshot_id ASC LIMIT 1. */
    method Oldest() returns (m: string)
      requires Valid() && |rows| > 0
      ensures m in rows && IsMin(rows[m].payload, View())
    {
      assert rows.Keys != {};
      TextExtremesExist(rows, rows.Keys);
      m :| m in rows.Keys && IsTextMin(rows, rows.Keys, m);
      TextExtremesAreKeyExtremes(rows, rows.Keys, m);
    }

    method LoadRecent(limit: nat, fingerprint: Option<string>) returns (r: seq<Snapshot>)
      requires Valid()
      ensures r == Leading(RecentOf(View(), fingerprint), limit)
    {
      var ordered := SelectNewestFirst(rows);
      FilteredRanking(View(), fingerprint);
      r := Leading(Filtered(ordered, fingerprint), limit);
    }

    method LatestSnapshot(fingerprint: Option<string>) returns (r: Option<Snapshot>)
      requires Valid()
      ensures r == LatestOf(View(), fingerprint)
    {
      var newest := LoadRecent(1, fingerprint);
      return if newest != [] then Some(newest[0]) else None;
    }

    method Recent(fingerprint: Option<string>) returns (r: seq<Snapshot>)
      requires Valid()
      ensures r == RecentOf(View(), fingerprint)
    {
      r := LoadRecent(capacity, fingerprint);
      SmallerSubset(Matching(View(), fingerprint), View());
    }
  }

  lemma InsertedRow(rows: Table, s: Snapshot)
    requires GoodRows(rows) && s.id !in rows && s.observedAt.Valid()
    ensures var more := rows[s.id := SnapshotRow(Iso(s.observedAt), s)];
            GoodRows(more) && Payloads(more, more.Keys) == Payloads(rows, rows.Keys) + {s}
    ensures !HasId(Payloads(rows, rows.Keys), s.id)
  {
    var more := rows[s.id := SnapshotRow(Iso(s.observedAt), s)];
    PayloadFacts(rows, rows.Keys);
    PayloadFacts(more, more.Keys);
  }

  // ----- the two stores side by side

  datatype Call =
    | Save(snapshot: Snapshot)
    | Latest(fingerprint: Option<string>)
    | Recent(fingerprint: Option<string>)

  datatype Answer = Saving(answer: SaveAnswer) | Newest(snapshot: Option<Snapshot>) | Listed(snapshots: seq<Snapshot>)

  ghost function Respond(held: set<Snapshot>, capacity: nat, call: Call): Answer
    requires UniqueIds(held)
  {
    match call
    case Save(s) => Saving(AnswerTo(held, capacity, s))
    case Latest(fingerprint) => Newest(LatestOf(held, fingerprint))
    case Recent(fingerprint) => Listed(RecentOf(held, fingerprint))
  }

  function SavesOf(calls: seq<Call>): seq<Snapshot> {
    if calls == [] then []
    else
      var last := calls[|calls| - 1];
      SavesOf(calls[..|calls| - 1]) + if last.Save? then [last.snapshot] else []
  }

  /** What a store that keeps the top `capacity` of its saves answers to each call of a history. */
  ghost function Answers(capacity: nat, calls: seq<Call>): seq<Answer>
    requires capacity >= 1
  {
    if calls == [] then []
    else
      var before := calls[..|calls| - 1];
      Answers(capacity, before) + [Respond(Held(capacity, SavesOf(before)), capacity, calls[|calls| - 1])]
  }

  lemma CallStep(capacity: nat, calls: seq<Call>, i: nat)
    requires capacity >= 1 && i < |calls|
    ensures var held := Held(capacity, SavesOf(calls[..i]));
            && Answers(capacity, calls[..i + 1]) == Answers(capacity, calls[..i]) + [Respond(held, capacity, calls[i])]
            && Held(capacity, SavesOf(calls[..i + 1]))
               == if calls[i].Save? then AfterSave(held, capacity, calls[i].snapshot) else held
  {
    assert calls[..i + 1][..i] == calls[..i];
    var saves := SavesOf(calls[..i]);
    if calls[i].Save? {
      assert (saves + [calls[i].snapshot])[..|saves|] == saves;
    } else {
      assert saves + [] == saves;
    }
  }

  /** One call, put to both stores. */
  method AskBoth(memory: MemoryTelemetryStore, sqlite: SqliteTelemetryStore, call: Call) returns (a: Answer, b: Answer)
    requires memory.Valid() && sqlite.Valid() && memory.capacity == sqlite.capacity && memory.View() == sqlite.View()
    requires call.Save? ==> call.snapshot.observedAt.Valid()
    modifies memory, sqlite
    ensures memory.Valid() && sqlite.Valid() && a == b == Respond(old(memory.View()), memory.capacity, call)
    ensures memory.View() == sqlite.View()
    ensures memory.View() == if call.Save? then AfterSave(old(memory.View()), memory.capacity, call.snapshot)
            else old(memory.View())
  {
    match call
    case Save(s) =>
      var x := memory.Save(s);
      var y := sqlite.Save(s);
      a, b := Saving(x), Saving(y);
    case Latest(fingerprint) =>
      var x := memory.LatestSnapshot(fingerprint);
      var y := sqlite.LatestSnapshot(fingerprint);
      a, b := Newest(x), Newest(y);
    case Recent(fingerprint) =>
      var x := memory.Recent(fingerprint);
      var y := sqlite.Recent(fingerprint);
      a, b := Listed(x), Listed(y);
  }

  /** Any history of saves and queries gets the same answers from both stores, and leaves the same snapshots in both. */
  method Replay(memory: MemoryTelemetryStore, sqlite: SqliteTelemetryStore, calls: seq<Call>)
    returns (fromMemory: seq<Answer>, fromSqlite: seq<Answer>)
    requires memory.Valid() && sqlite.Valid() && memory.capacity == sqlite.capacity
    requires memory.View() == {} && sqlite.View() == {}
    requires forall call | call in calls && call.Save? :: call.snapshot.observedAt.Valid()
    modifies memory, sqlite
    ensures memory.Valid() && sqlite.Valid()
    ensures fromMemory == fromSqlite == Answers(memory.capacity, calls)
    ensures memory.View() == sqlite.View() == Held(memory.capacity, SavesOf(calls))
  {
    fromMemory, fromSqlite := [], [];
    for i := 0 to |calls|
      invariant memory.Valid() && sqlite.Valid() && fromMemory == fromSqlite == Answers(memory.capacity, calls[..i])
      invariant memory.View() == sqlite.View() == Held(memory.capacity, SavesOf(calls[..i]))
    {
      CallStep(memory.capacity, calls, i);
      var a, b := AskBoth(memory, sqlite, calls[i]);
      fromMemory, fromSqlite := fromMemory + [a], fromSqlite + [b];
    }
    assert calls[..|calls|] == calls;
  }
}
