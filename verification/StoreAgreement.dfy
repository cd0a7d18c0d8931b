/** Any history of calls, made on both convergence stores, gets the same answers from both. */
module StoreAgreement {
  import opened Convergence
  import opened ConvergenceStores

  /** The answers of the specification to a whole history. */
  function Answers(capacity: nat, ops: seq<Op>): seq<Answer> {
    if ops == [] then []
    else Answers(capacity, ops[..|ops| - 1]) + [Respond(Held(capacity, ops[..|ops| - 1]), ops[|ops| - 1])]
  }

  /** The answer to each call of a history is the one that the calls before it lead to. */
  lemma {:induction false} AnswerAt(capacity: nat, ops: seq<Op>, i: nat)
    requires i < |ops|
    ensures |Answers(capacity, ops)| == |ops| && Answers(capacity, ops)[i] == Respond(Held(capacity, ops[..i]), ops[i])
    decreases |ops|
  {
    var before := ops[..|ops| - 1];
    if i < |before| {
      AnswerAt(capacity, before, i);
      assert before[..i] == ops[..i];
    } else if before != [] {
      AnswerAt(capacity, before, 0);
    }
  }

  /** In every history, both stores answer a query for the latest run with the run created last before it. */
  lemma LatestAnswered(capacity: nat, ops: seq<Op>, i: nat)
    requires capacity >= 1 && FreshCreations(ops) && i < |ops| && ops[i] == Latest
    ensures |Answers(capacity, ops)| == |ops|
    ensures var created, answer := Created(ops[..i]), Answers(capacity, ops)[i];
            if created == [] then answer == NoRun
            else answer.Stored? && answer.run in Held(capacity, ops[..i]) && answer.run.id == created[|created| - 1]
  {
    AnswerAt(capacity, ops, i);
    CreatedPrefixIsDistinct(ops, i);
    LatestAnswer(capacity, ops[..i]);
  }

  method CreateInMemory(store: MemoryStore, op: Op) returns (answer: Answer)
    requires store.Valid() && op.Create? && op.id !in Ids(store.View())
    modifies store
    ensures store.Valid() && store.View() == After(store.capacity, old(store.View()), op)
    ensures answer == Respond(old(store.View()), op)
    ensures fresh(store.runs.Values - old(store.runs.Values))
  {
    var r := store.CreateRun(op.id, op.profile, op.source, op.target, op.startedAt);
    answer := if r.Success? then Stored(r.value.View()) else CreateRefused(r.error);
  }

  method AskMemory(store: MemoryStore, op: Op) returns (answer: Answer)
    requires store.Valid() && (op.Create? ==> op.id !in Ids(store.View()))
    modifies store, store.runs.Values
    ensures store.Valid() && store.View() == After(store.capacity, old(store.View()), op)
    ensures answer == Respond(old(store.View()), op)
    ensures fresh(store.runs.Values - old(store.runs.Values))
  {
    match op {
      case Create(_, _, _, _, _) =>
        answer := CreateInMemory(store, op);
      case Append(id, event) =>
        var r := store.AppendEvent(id, event);
        answer := if r.Success? then Stored(r.value.View()) else AppendRefused(r.error);
      case Get(id) =>
        var r := store.GetRun(id);
        answer := if r.Success? then Stored(r.value.View()) else AppendRefused(r.error);
      case Latest =>
        var r := store.LatestRun();
        answer := if r.Some? then Stored(r.value.View()) else NoRun;
    }
  }

  method AskSqlite(store: SqliteStore, op: Op) returns (answer: Answer)
    requires store.Valid() && (op.Create? ==> op.id !in Ids(store.View()))
    modifies store
    ensures store.Valid() && store.View() == After(store.capacity, old(store.View()), op)
    ensures answer == Respond(old(store.View()), op)
  {
    match op {
      case Create(id, profile, source, target, startedAt) =>
        IdsOfRows(store.runRows, store.eventRows);
        var r := store.CreateRun(id, profile, source, target, startedAt);
        answer := if r.Success? then Stored(r.value) else CreateRefused(r.error);
      case Append(id, event) =>
        var r := store.AppendEvent(id, event);
        answer := if r.Success? then Stored(r.value) else AppendRefused(r.error);
      case Get(id) =>
        var r := store.GetRun(id);
        answer := if r.Success? then Stored(r.value) else AppendRefused(r.error);
      case Latest =>
        var r := store.LatestRun();
        answer := if r.Some? then Stored(r.value) else NoRun;
    }
  }

  lemma IdsOfRows(rows: seq<RunRow>, events: seq<EventRow>)
    ensures forall id :: id in RowIds(rows) <==> id in Ids(LoadAll(rows, events))
  {
    assert forall i | 0 <= i < |rows| :: Ids(LoadAll(rows, events))[i] == rows[i].id && rows[i] in rows;
  }

  /** Every creation draws an identifier of its own. */
  ghost predicate FreshCreations(ops: seq<Op>) {
    && DistinctIds(Created(ops))
    && forall i | 0 <= i < |ops| && ops[i].Create? :: ops[i].id !in Created(ops[..i])
  }

  lemma HeldIds(capacity: nat, ops: seq<Op>, i: nat)
    requires capacity >= 1 && i < |ops| && FreshCreations(ops)
    ensures ops[i].Create? ==> ops[i].id !in Ids(Held(capacity, ops[..i]))
  {
    CreatedPrefixIsDistinct(ops, i);
    HistoryKeepsNewestSoundRuns(capacity, ops[..i]);
  }

  lemma AnswersStep(capacity: nat, ops: seq<Op>, i: nat)
    requires i < |ops|
    ensures Answers(capacity, ops[..i + 1]) == Answers(capacity, ops[..i]) + [Respond(Held(capacity, ops[..i]), ops[i])]
    ensures Held(capacity, ops[..i + 1]) == After(capacity, Held(capacity, ops[..i]), ops[i])
  {
    assert ops[..i + 1][..i] == ops[..i];
  }

  method AskBoth(memory: MemoryStore, sqlite: SqliteStore, op: Op) returns (a: Answer, b: Answer)
    requires memory.Valid() && sqlite.Valid() && memory.capacity == sqlite.capacity && memory.View() == sqlite.View()
    requires op.Create? ==> op.id !in Ids(memory.View())
    modifies memory, memory.runs.Values, sqlite
    ensures memory.Valid() && sqlite.Valid()
    ensures a == b == Respond(old(memory.View()), op)
    ensures memory.View() == sqlite.View() == After(memory.capacity, old(memory.View()), op)
    ensures fresh(memory.runs.Values - old(memory.runs.Values))
  {
    a := AskMemory(memory, op);
    b := AskSqlite(sqlite, op);
  }

  method Replay(memory: MemoryStore, sqlite: SqliteStore, ops: seq<Op>)
    returns (fromMemory: seq<Answer>, fromSqlite: seq<Answer>)
    requires memory.Valid() && sqlite.Valid() && memory.capacity == sqlite.capacity
    requires memory.View() == [] && sqlite.View() == [] && FreshCreations(ops)
    modifies memory, memory.runs.Values, sqlite
    ensures fromMemory == fromSqlite == Answers(memory.capacity, ops)
    ensures memory.Valid() && sqlite.Valid() && memory.View() == sqlite.View() == Held(memory.capacity, ops)
  {
    fromMemory, fromSqlite := [], [];
    for i := 0 to |ops|
      invariant memory.Valid() && sqlite.Valid()
      invariant memory.View() == sqlite.View() == Held(memory.capacity, ops[..i])
      invariant fromMemory == fromSqlite == Answers(memory.capacity, ops[..i])
      invariant fresh(memory.runs.Values - old(memory.runs.Values))
    {
      AnswersStep(memory.capacity, ops, i);
      HeldIds(memory.capacity, ops, i);
      var a, b := AskBoth(memory, sqlite, ops[i]);
      fromMemory, fromSqlite := fromMemory + [a], fromSqlite + [b];
    }
    assert ops[..|ops|] == ops;
  }
}
