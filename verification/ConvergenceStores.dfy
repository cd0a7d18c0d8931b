/**
 The memory store and the SQLite store of convergence runs.  Both are proved against the one
 specification of a bounded store, so on any history they give the same answers.
 */
module ConvergenceStores {
  import opened Wrappers
  import opened Collections
  import opened Convergence

  function Suffix<T>(s: seq<T>, n: nat): seq<T>
    requires n <= |s|
  {
    s[|s| - n..]
  }

  lemma SuffixTail<T>(s: seq<T>, n: nat)
    requires 1 <= n <= |s|
    ensures Suffix(s, n)[1..] == Suffix(s, n - 1)
  {
  }

  // ----- the memory store

  /** A run as the memory store keeps it: one object, shared with every caller that holds it. */
  class RunRecord {
    const id: string
    const profile: Profile
    const source: string
    const target: string
    const startedAt: Timestamp
    var events: seq<Event>

    constructor (id: string, profile: Profile, source: string, target: string, startedAt: Timestamp)
      ensures this.id == id && this.profile == profile && this.source == source && this.target == target
              && this.startedAt == startedAt
      ensures events == []
    {
      this.id, this.profile, this.source, this.target := id, profile, source, target;
      this.startedAt, this.events := startedAt, [];
    }

    function View(): Run
      reads this
    {
      Run(id, profile, source, target, startedAt, events)
    }
  }

  lemma SuffixIsNewest<T>(full: seq<T>, n: nat, capacity: nat)
    requires n <= |full| && n <= capacity && (n == |full| || n >= capacity)
    ensures Suffix(full, n) == Newest(full, capacity)
  {
  }

  class MemoryStore {
    const capacity: nat
    var runs: map<string, RunRecord>
    var order: seq<string>

    /** The deque and the dictionary hold the same runs. */
    ghost predicate InStep()
      reads this
    {
      && DistinctIds(order)
      && (forall i | 0 <= i < |order| :: order[i] in runs)
      && (forall id | id in runs :: id in order && runs[id].id == id)
    }

    ghost predicate Valid()
      reads this
    {
      1 <= capacity && |order| <= capacity && InStep()
    }

    /** The runs held, oldest first. */
    ghost function View(): (v: seq<Run>)
      requires InStep()
      reads this, runs.Values
      ensures |v| == |order|
      ensures forall i | 0 <= i < |order| :: v[i] == runs[order[i]].View()
      ensures Ids(v) == order
    {
      seq(|order|, i requires 0 <= i < |order| && order[i] in runs reads this, runs.Values => runs[order[i]].View())
    }

    constructor (capacity: nat)
      requires capacity >= 1
      ensures Valid() && View() == [] && this.capacity == capacity && runs == map[]
    {
      this.capacity, this.runs, this.order := capacity, map[], [];
    }

    lemma ViewIndex(id: string)
      requires Valid()
      ensures IndexOf(View(), id) < |order| <==> id in runs
      ensures id in runs ==> order[IndexOf(View(), id)] == id && View()[IndexOf(View(), id)] == runs[id].View()
    {
      var i := IndexOf(View(), id);
      if id in runs {
        var j :| 0 <= j < |order| && order[j] == id;
        assert View()[j].id == id;
      }
    }

    /** Fresh identifiers stand for the random ones the program draws. */
    method CreateRun(id: string, profile: Profile, source: string, target: string, startedAt: Timestamp)
      returns (r: Result<RunRecord, RunError>)
      requires Valid() && id !in runs
      modifies this
      ensures Valid() && View() == After(capacity, old(View()), Create(id, profile, source, target, startedAt))
      ensures r.Success? ==> fresh(r.value)
      ensures r.Success? ==>
                Stored(r.value.View()) == Respond(old(View()), Create(id, profile, source, target, startedAt))
      ensures r.Failure? ==>
                CreateRefused(r.error) == Respond(old(View()), Create(id, profile, source, target, startedAt))
      ensures runs.Values <= old(runs.Values) + if r.Success? then {r.value} else {}
    {
      var refusal := ValidateRun(profile, source, target, startedAt);
      if refusal.Some? {
        return Failure(refusal.value);
      }
      var run := new RunRecord(id, profile, source, target, startedAt);
      Insert(run);
      EvictBeyondCapacity();
      return Success(run);
    }

    method EvictBeyondCapacity()
      requires InStep() && capacity >= 1
      modifies this
      ensures Valid() && View() == Newest(old(View()), capacity)
      ensures runs.Values <= old(runs.Values)
    {
      ghost var full := View();
      while |order| > capacity
        invariant InStep() && |order| <= |full| && View() == Suffix(full, |order|)
        invariant |order| == |full| || |order| >= capacity
        invariant runs.Values <= old(runs.Values)
        decreases |order|
      {
        SuffixTail(full, |order|);
        EvictOldest();
      }
      SuffixIsNewest(full, |order|, capacity);
    }

    method Insert(run: RunRecord)
      requires InStep() && run.id !in runs
      modifies this
      ensures InStep() && View() == old(View()) + [run.View()]
      ensures runs.Values <= old(runs.Values) + {run}
    {
      runs := runs[run.id := run];
      order := order + [run.id];
    }

    /** One turn of the eviction loop. */
    method EvictOldest()
      requires InStep() && order != []
      modifies this
      ensures InStep() && order == old(order)[1..] && View() == old(View())[1..]
      ensures runs.Values <= old(runs.Values)
    {
      ghost var before := View();
      OldestLeaves();
      var expired := order[0];
      order := order[1..];
      runs := runs - {expired};
      assert InStep();
      assert View() == before[1..] by {
        assert forall i | 0 <= i < |order| :: View()[i] == before[i + 1];
      }
    }

    lemma OldestLeaves()
      requires InStep() && order != []
      ensures DistinctIds(order[1..]) && order[0] !in order[1..]
      ensures forall i | 0 <= i < |order[1..]| :: order[1..][i] in runs && order[1..][i] != order[0]
      ensures forall id | id in runs && id != order[0] :: id in order[1..]
    {
      assert order == [order[0]] + order[1..];
    }

    method AppendEvent(id: string, event: Event) returns (r: Result<RunRecord, AppendError>)
      requires Valid()
      modifies if id in runs then {runs[id]} else {}
      ensures Valid() && View() == After(capacity, old(View()), Append(id, event))
      ensures r.Success? ==>
                id in runs && r.value == runs[id] && Stored(r.value.View()) == Respond(old(View()), Append(id, event))
      ensures r.Failure? ==> AppendRefused(r.error) == Respond(old(View()), Append(id, event))
      ensures r.Failure? ==> id in runs ==> unchanged(runs[id])
    {
      ViewIndex(id);
      if id !in runs {
        return Failure(RunNotFound(id));
      }
      var run := runs[id];
      var refusal := ValidateEvent(run.View(), event);
      if refusal.Some? {
        return Failure(Rejected(refusal.value));
      }
      ExtendRun(id, event);
      return Success(run);
    }

    /** The event goes into the shared record, and shows up in no other run. */
    method ExtendRun(id: string, event: Event)
      requires Valid() && id in runs
      modifies runs[id]
      ensures Valid() && runs[id].View() == WithEvent(old(runs[id].View()), event)
      ensures IndexOf(old(View()), id) < |order| && View() == old(View())[IndexOf(old(View()), id) := runs[id].View()]
    {
      ViewIndex(id);
      runs[id].events := runs[id].events + [event];
    }

    method GetRun(id: string) returns (r: Result<RunRecord, AppendError>)
      requires Valid()
      ensures r.Success? ==> id in runs && r.value == runs[id] && Stored(r.value.View()) == Respond(View(), Get(id))
      ensures r.Failure? ==> AppendRefused(r.error) == Respond(View(), Get(id))
    {
      if id !in runs {
        return Failure(RunNotFound(id));
      }
      return Success(runs[id]);
    }

    method LatestRun() returns (r: Option<RunRecord>)
      requires Valid()
      ensures r.Some? ==> Stored(r.value.View()) == Respond(View(), Latest)
      ensures r.None? ==> NoRun == Respond(View(), Latest)
    {
      if order == [] {
        return None;
      }
      return Some(runs[order[|order| - 1]]);
    }
  }

  // ----- the SQLite store, as two tables in the order of their automatically increasing keys

  datatype RunRow = RunRow(sequence: int, id: string, profile: Profile, source: string, target: string,
                           startedAt: Timestamp)

  datatype EventRow = EventRow(sequence: int, runId: string, event: Event)

  function RowIds(rows: seq<RunRow>): set<string> {
    set r | r in rows :: r.id
  }

  /** SELECT ... WHERE run_id = ? ORDER BY sequence. */
  function EventsOf(rows: seq<EventRow>, id: string): seq<Event> {
    if rows == [] then []
    else
      var last := rows[|rows| - 1];
      EventsOf(rows[..|rows| - 1], id) + if last.runId == id then [last.event] else []
  }

  function LoadRow(row: RunRow, events: seq<EventRow>): Run {
    Run(row.id, row.profile, row.source, row.target, row.startedAt, EventsOf(events, row.id))
  }

  function LoadAll(rows: seq<RunRow>, events: seq<EventRow>): seq<Run> {
    seq(|rows|, i requires 0 <= i < |rows| => LoadRow(rows[i], events))
  }

  /** SELECT sequence ... ORDER BY sequence DESC LIMIT k. */
  function NewestSequences(rows: seq<RunRow>, k: nat): set<int> {
    set r | r in Newest(rows, k) :: r.sequence
  }

  /** DELETE ... WHERE sequence NOT IN keep. */
  function KeepRows(rows: seq<RunRow>, keep: set<int>): seq<RunRow> {
    if rows == [] then []
    else
      var last := rows[|rows| - 1];
      KeepRows(rows[..|rows| - 1], keep) + if last.sequence in keep then [last] else []
  }

  /** ON DELETE CASCADE: the events of the runs that remain. */
  function KeepEvents(rows: seq<EventRow>, ids: set<string>): seq<EventRow> {
    if rows == [] then []
    else
      var last := rows[|rows| - 1];
      KeepEvents(rows[..|rows| - 1], ids) + if last.runId in ids then [last] else []
  }

  ghost predicate RowsAscend(rows: seq<RunRow>) {
    forall i, j | 0 <= i < j < |rows| :: rows[i].sequence < rows[j].sequence
  }

  lemma {:induction false} KeepAll(rows: seq<RunRow>, keep: set<int>)
    requires forall r | r in rows :: r.sequence in keep
    ensures KeepRows(rows, keep) == rows
  {
    if rows != [] {
      KeepAll(rows[..|rows| - 1], keep);
      assert rows == rows[..|rows| - 1] + [rows[|rows| - 1]];
    }
  }

  lemma {:induction false} KeepNone(rows: seq<RunRow>, keep: set<int>)
    requires forall r | r in rows :: r.sequence !in keep
    ensures KeepRows(rows, keep) == []
  {
    if rows != [] {
      KeepNone(rows[..|rows| - 1], keep);
    }
  }

  lemma {:induction false} KeepConcat(a: seq<RunRow>, b: seq<RunRow>, keep: set<int>)
    ensures KeepRows(a + b, keep) == KeepRows(a, keep) + KeepRows(b, keep)
  {
    if b == [] {
      assert a + b == a;
    } else {
      assert (a + b)[..|a + b| - 1] == a + b[..|b| - 1];
      KeepConcat(a, b[..|b| - 1], keep);
    }
  }

  /** Pruning by sequence number leaves the newest rows, in order. */
  lemma PruneKeepsNewest(rows: seq<RunRow>, k: nat)
    requires RowsAscend(rows)
    ensures KeepRows(rows, NewestSequences(rows, k)) == Newest(rows, k)
  {
    var keep := NewestSequences(rows, k);
    if |rows| <= k {
      KeepAll(rows, keep);
    } else {
      var stale, recent := rows[..|rows| - k], rows[|rows| - k..];
      assert rows == stale + recent;
      KeepConcat(stale, recent, keep);
      KeepAll(recent, keep);
      KeepNone(stale, keep);
    }
  }

  lemma {:induction false} CascadeKeepsEvents(rows: seq<EventRow>, ids: set<string>, id: string)
    requires id in ids
    ensures EventsOf(KeepEvents(rows, ids), id) == EventsOf(rows, id)
  {
    if rows != [] {
      var before, last := rows[..|rows| - 1], rows[|rows| - 1];
      CascadeKeepsEvents(before, ids, id);
      if last.runId in ids {
        assert (KeepEvents(before, ids) + [last])[..|KeepEvents(before, ids)|] == KeepEvents(before, ids);
      } else {
        assert KeepEvents(rows, ids) == KeepEvents(before, ids);
      }
    }
  }

  lemma {:induction false} NoEventsOf(rows: seq<EventRow>, id: string)
    requires forall r | r in rows :: r.runId != id
    ensures EventsOf(rows, id) == []
  {
    if rows != [] {
      NoEventsOf(rows[..|rows| - 1], id);
    }
  }

  lemma EventsOfAppend(rows: seq<EventRow>, row: EventRow, id: string)
    ensures EventsOf(rows + [row], id) == EventsOf(rows, id) + if row.runId == id then [row.event] else []
  {
    assert (rows + [row])[..|rows|] == rows;
  }

  lemma {:induction false} EventsOfContains(rows: seq<EventRow>, r: EventRow)
    requires r in rows
    ensures r.event in EventsOf(rows, r.runId)
  {
    var before, last := rows[..|rows| - 1], rows[|rows| - 1];
    assert rows == before + [last];
    if r in before {
      EventsOfContains(before, r);
    }
  }

  lemma {:induction false} KeepEventsSubset(rows: seq<EventRow>, ids: set<string>)
    ensures forall r :: r in KeepEvents(rows, ids) <==> r in rows && r.runId in ids
  {
    if rows != [] {
      var before, last := rows[..|rows| - 1], rows[|rows| - 1];
      KeepEventsSubset(before, ids);
      assert rows == before + [last];
    }
  }

  lemma {:induction false} KeepEventsAscends(rows: seq<EventRow>, ids: set<string>)
    requires EventsAscend(rows)
    ensures EventsAscend(KeepEvents(rows, ids))
  {
    if rows != [] {
      var before, last := rows[..|rows| - 1], rows[|rows| - 1];
      KeepEventsAscends(before, ids);
      KeepEventsSubset(before, ids);
      var kept := KeepEvents(before, ids);
      forall i | 0 <= i < |kept| ensures kept[i].sequence < last.sequence {
        assert kept[i] in before;
        var j :| 0 <= j < |before| && before[j] == kept[i];
        assert rows[j] == kept[i];
      }
    }
  }

  ghost predicate EventsAscend(rows: seq<EventRow>) {
    forall i, j | 0 <= i < j < |rows| :: rows[i].sequence < rows[j].sequence
  }

  /**
   The tables' declared constraints: unique identifiers, one event of a kind per run, referential integrity,
   the offset check.
   */
  ghost predicate Constrained(runs: seq<RunRow>, events: seq<EventRow>) {
    && (forall i, j | 0 <= i < j < |runs| :: runs[i].id != runs[j].id)
    && (forall e, f | e in events && f in events && e.runId == f.runId && e.event.kind == f.event.kind :: e == f)
    && (forall e | e in events :: e.runId in RowIds(runs))
    && (forall e | e in events :: e.event.offsetMs >= 0)
  }

  /** Keys ascend and stay below the next one to be drawn. */
  ghost predicate RunKeys(rows: seq<RunRow>, next: int) {
    RowsAscend(rows) && forall r | r in rows :: r.sequence < next
  }

  ghost predicate EventKeys(rows: seq<EventRow>, next: int) {
    EventsAscend(rows) && forall e | e in rows :: e.sequence < next
  }

  class SqliteStore {
    const capacity: nat
    var runRows: seq<RunRow>
    var eventRows: seq<EventRow>
    var nextRun: int
    var nextEvent: int

    ghost predicate Valid()
      reads this
    {
      && 1 <= capacity && |runRows| <= capacity
      && Ordered() && Constrained(runRows, eventRows)
    }

    ghost predicate Ordered()
      reads this
    {
      RunKeys(runRows, nextRun) && EventKeys(eventRows, nextEvent)
    }

    ghost function View(): seq<Run>
      reads this
    {
      LoadAll(runRows, eventRows)
    }

    /** Opening existing tables prunes them to the capacity asked for. */
    constructor Open(capacity: nat, runs: seq<RunRow>, events: seq<EventRow>, nextRun: int, nextEvent: int)
      requires capacity >= 1 && Constrained(runs, events)
      requires RunKeys(runs, nextRun) && EventKeys(events, nextEvent)
      ensures Valid() && this.capacity == capacity
      ensures View() == Newest(LoadAll(runs, events), capacity)
    {
      this.capacity, this.runRows, this.eventRows, this.nextRun, this.nextEvent := capacity, runs, events, nextRun,
          nextEvent;
      new;
      Prune();
    }

    method Prune()
      requires 1 <= capacity && Ordered() && Constrained(runRows, eventRows)
      modifies this
      ensures Valid() && View() == Newest(old(View()), capacity)
      ensures nextRun == old(nextRun) && nextEvent == old(nextEvent)
    {
      PruneKeepsNewest(runRows, capacity);
      PrunedTables(runRows, eventRows, capacity, nextRun, nextEvent);
      PrunedView(runRows, eventRows, capacity);
      runRows := KeepRows(runRows, NewestSequences(runRows, capacity));
      eventRows := KeepEvents(eventRows, RowIds(runRows));
    }

    method CreateRun(id: string, profile: Profile, source: string, target: string, startedAt: Timestamp)
      returns (r: Result<Run, RunError>)
      requires Valid() && id !in RowIds(runRows)
      modifies this
      ensures Valid() && View() == After(capacity, old(View()), Create(id, profile, source, target, startedAt))
      ensures r.Success? ==> Stored(r.value) == Respond(old(View()), Create(id, profile, source, target, startedAt))
      ensures r.Failure? ==>
                CreateRefused(r.error) == Respond(old(View()), Create(id, profile, source, target, startedAt))
    {
      var refusal := ValidateRun(profile, source, target, startedAt);
      if refusal.Some? {
        return Failure(refusal.value);
      }
      var row := RunRow(nextRun, id, profile, source, target, startedAt);
      InsertedView(runRows, eventRows, row);
      runRows := runRows + [row];
      nextRun := nextRun + 1;
      Prune();
      return Success(Run(id, profile, source, target, startedAt, []));
    }

    /** SELECT ... WHERE id = ?, with the run's events. */
    method Load(id: string) returns (r: Result<Run, AppendError>)
      requires Valid()
      ensures r == var i := IndexOf(View(), id); if i == |View()| then Failure(RunNotFound(id)) else Success(View()[i])
    {
      var i := 0;
      while i < |runRows| && runRows[i].id != id
        invariant 0 <= i <= |runRows|
        invariant forall j | 0 <= j < i :: runRows[j].id != id
      {
        i := i + 1;
      }
      assert forall j | 0 <= j < |runRows| :: View()[j].id == runRows[j].id;
      if i == |runRows| {
        return Failure(RunNotFound(id));
      }
      return Success(LoadRow(runRows[i], eventRows));
    }

    method AppendEvent(id: string, event: Event) returns (r: Result<Run, AppendError>)
      requires Valid()
      modifies this
      ensures Valid() && View() == After(capacity, old(View()), Append(id, event))
      ensures r.Success? ==> Stored(r.value) == Respond(old(View()), Append(id, event))
      ensures r.Failure? ==> AppendRefused(r.error) == Respond(old(View()), Append(id, event))
      ensures r.Failure? ==> unchanged(this)
    {
      var loaded := Load(id);
      if loaded.Failure? {
        return Failure(loaded.error);
      }
      var run := loaded.value;
      var refusal := ValidateEvent(run, event);
      if refusal.Some? {
        return Failure(Rejected(refusal.value));
      }
      InsertEvent(id, event, IndexOf(View(), id));
      return Success(WithEvent(run, event));
    }

    /** The accepted row shows up at the end of its own run only. */
    method InsertEvent(id: string, event: Event, ghost i: nat)
      requires Valid() && i < |View()| && View()[i].id == id && ValidateEvent(View()[i], event).None?
      modifies this
      ensures Valid() && View() == old(View())[i := WithEvent(old(View())[i], event)]
    {
      var row := EventRow(nextEvent, id, event);
      assert View()[i] == LoadRow(runRows[i], eventRows);
      AppendedConstrained(runRows, eventRows, row, i);
      AppendedView(runRows, eventRows, row, i);
      AppendedKeys(eventRows, row);
      eventRows := eventRows + [row];
      nextEvent := nextEvent + 1;
    }

    method GetRun(id: string) returns (r: Result<Run, AppendError>)
      requires Valid()
      ensures r.Success? ==> Stored(r.value) == Respond(View(), Get(id))
      ensures r.Failure? ==> AppendRefused(r.error) == Respond(View(), Get(id))
    {
      r := Load(id);
    }

    /** SELECT id ... ORDER BY sequence DESC LIMIT 1. */
    method LatestRun() returns (r: Option<Run>)
      requires Valid()
      ensures r.Some? ==> Stored(r.value) == Respond(View(), Latest)
      ensures r.None? ==> NoRun == Respond(View(), Latest)
    {
      if runRows == [] {
        return None;
      }
      return Some(LoadRow(runRows[|runRows| - 1], eventRows));
    }
  }

  /** Pruning keeps the tables in order and within their constraints. */
  lemma PrunedTables(rows: seq<RunRow>, events: seq<EventRow>, k: nat, nextRun: int, nextEvent: int)
    requires Constrained(rows, events) && RunKeys(rows, nextRun) && EventKeys(events, nextEvent)
    ensures var kept, left := Newest(rows, k), KeepEvents(events, RowIds(Newest(rows, k)));
            Constrained(kept, left) && RunKeys(kept, nextRun) && EventKeys(left, nextEvent) && |kept| <= k
  {
    KeepEventsSubset(events, RowIds(Newest(rows, k)));
    KeepEventsAscends(events, RowIds(Newest(rows, k)));
  }

  lemma PrunedView(rows: seq<RunRow>, events: seq<EventRow>, k: nat)
    ensures LoadAll(Newest(rows, k), KeepEvents(events, RowIds(Newest(rows, k)))) == Newest(LoadAll(rows, events), k)
  {
    var kept := Newest(rows, k);
    var ids := RowIds(kept);
    forall i | 0 <= i < |kept| ensures LoadRow(kept[i], KeepEvents(events, ids)) == LoadRow(kept[i], events) {
      assert kept[i] in kept && kept[i].id in ids;
      CascadeKeepsEvents(events, ids, kept[i].id);
    }
  }

  lemma InsertedView(rows: seq<RunRow>, events: seq<EventRow>, row: RunRow)
    requires Constrained(rows, events) && row.id !in RowIds(rows)
    ensures Constrained(rows + [row], events)
    ensures LoadAll(rows + [row], events)
              == LoadAll(rows, events) + [Run(row.id, row.profile, row.source, row.target, row.startedAt, [])]
  {
    NoEventsOf(events, row.id);
    assert forall r | r in rows :: r in rows + [row];
    assert RowIds(rows + [row]) == RowIds(rows) + {row.id};
    assert forall i | 0 <= i < |rows| :: rows[i] in rows;
  }

  /** An accepted event breaks no constraint. */
  lemma AppendedConstrained(rows: seq<RunRow>, events: seq<EventRow>, row: EventRow, i: nat)
    requires Constrained(rows, events) && i < |rows| && rows[i].id == row.runId
    requires ValidateEvent(LoadRow(rows[i], events), row.event).None?
    ensures Constrained(rows, events + [row])
  {
    assert rows[i] in rows;
    forall e | e in events && e.runId == row.runId ensures e.event.kind != row.event.kind {
      EventsOfContains(events, e);
    }
  }

  /** An appended event shows up at the end of its own run only. */
  lemma AppendedView(rows: seq<RunRow>, events: seq<EventRow>, row: EventRow, i: nat)
    requires Constrained(rows, events) && i < |rows| && rows[i].id == row.runId
    ensures LoadAll(rows, events + [row]) == LoadAll(rows, events)[i := WithEvent(LoadRow(rows[i], events), row.event)]
  {
    forall j | 0 <= j < |rows|
      ensures LoadRow(rows[j], events + [row]) == if j == i then WithEvent(LoadRow(rows[i], events), row.event)
              else LoadRow(rows[j], events)
    {
      EventsOfAppend(events, row, rows[j].id);
    }
  }

  lemma AppendedKeys(events: seq<EventRow>, row: EventRow)
    requires EventKeys(events, row.sequence)
    ensures EventKeys(events + [row], row.sequence + 1)
  {
    assert forall i | 0 <= i < |events| :: events[i] in events;
  }
}
