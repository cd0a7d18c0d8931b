/** The memory store and the SQLite store of telemetry snapshots. */
module TelemetryStores {
  import opened Wrappers
  import opened TelemetryModels
  import opened TelemetryStore

  lemma {:induction false} InjectiveValues<K, V>(m: map<K, V>)
    requires forall a, b | a in m && b in m && m[a] == m[b] :: a == b
    ensures |m.Values| == |m|
  {
    if m.Keys != {} {
      var k :| k in m;
      var rest := m - {k};
      InjectiveValues(rest);
      assert rest.Keys == m.Keys - {k};
      assert m.Values == rest.Values + {m[k]};
    }
  }

  ghost predicate KeyedById(m: map<string, Snapshot>) {
    forall id | id in m :: m[id].id == id
  }

  lemma ValuesCount(m: map<string, Snapshot>)
    requires KeyedById(m)
    ensures |m.Values| == |m| && UniqueIds(m.Values)
    ensures forall x :: x in m.Values <==> x.id in m && m[x.id] == x
  {
    InjectiveValues(m);
  }

  lemma {:induction false} RankedStep(rest: set<Snapshot>, m: Snapshot)
    requires UniqueIds(rest) && IsMax(m, rest)
    ensures UniqueIds(rest - {m}) && Ranked(rest) == [m] + Ranked(rest - {m})
  {
    MaxUnique(rest, m, Max(rest));
  }

  lemma Associate<T>(r: seq<T>, m: T, rest: seq<T>)
    ensures r + ([m] + rest) == r + [m] + rest
  {
  }

  /** `sorted` by key, newest first. */
  method SortDescending(s: set<Snapshot>) returns (r: seq<Snapshot>)
    requires UniqueIds(s)
    ensures r == Ranked(s)
  {
    r := [];
    var rest := s;
    while rest != {}
      invariant UniqueIds(rest) && r + Ranked(rest) == Ranked(s)
      decreases rest
    {
      assert IsMax(Max(rest), rest);
      var m :| m in rest && IsMax(m, rest);
      RankedStep(rest, m);
      Associate(r, m, Ranked(rest - {m}));
      r := r + [m];
      rest := rest - {m};
    }
  }

  class MemoryTelemetryStore {
    const capacity: nat
    var snapshots: map<string, Snapshot>

    ghost predicate Valid()
      reads this
    {
      1 <= capacity && |snapshots| <= capacity && KeyedById(snapshots)
    }

    ghost function View(): (v: set<Snapshot>)
      requires KeyedById(snapshots)
      reads this
      ensures UniqueIds(v) && |v| == |snapshots|
    {
      ValuesCount(snapshots);
      snapshots.Values
    }

    constructor (capacity: nat)
      requires capacity >= 1
      ensures Valid() && View() == {} && this.capacity == capacity
    {
      this.capacity, snapshots := capacity, map[];
    }

    method Save(s: Snapshot) returns (answer: SaveAnswer)
      requires Valid()
      modifies this
      ensures Valid()
      ensures answer == AnswerTo(old(View()), capacity, s)
      ensures View() == AfterSave(old(View()), capacity, s)
      ensures answer != Saved ==> unchanged(this)
    {
      ghost var held := View();
      ValuesCount(snapshots);
      if s.id in snapshots {
        return if snapshots[s.id] != s then ConflictingId else NotSaved;
      }
      if |snapshots| >= capacity {
        var oldest := Oldest();
        MinOutranks(held, oldest, s);
        if !KeyLess(oldest, s) {
          return NotSaved;
        }
      }
      Insert(s);
      return Saved;
    }

    /** `min` by key. */
    method Oldest() returns (m: Snapshot)
      requires Valid() && |snapshots| > 0
      ensures IsMin(m, View())
    {
      ValuesCount(snapshots);
      var w :| w in snapshots.Values;
      ExtremesExist(snapshots.Values, w);
      m :| m in snapshots.Values && IsMin(m, snapshots.Values);
    }

    /** The insertion, followed by rebuilding the dictionary from the newest entries. */
    method Insert(s: Snapshot)
      requires Valid() && s.id !in snapshots
      modifies this
      ensures Valid() && View() == Elements(Leading(Ranked(old(View()) + {s}), capacity))
    {
      ghost var all := View() + {s};
      InsertedValues(snapshots, s);
      snapshots := snapshots[s.id := s];
      var ranked := SortDescending(snapshots.Values);
      var retained := Leading(ranked, capacity);
      RebuiltMap(all, retained, capacity);
      snapshots := ById(retained);
    }

    method LatestSnapshot(fingerprint: Option<string>) returns (r: Option<Snapshot>)
      requires Valid()
      ensures r == LatestOf(View(), fingerprint)
    {
      var candidates := set s | s in snapshots.Values && Selects(fingerprint, s);
      assert candidates == Matching(View(), fingerprint);
      if candidates == {} {
        return None;
      }
      assert IsMax(Max(candidates), candidates);
      var m :| m in candidates && IsMax(m, candidates);
      MaxUnique(candidates, m, Max(candidates));
      return Some(m);
    }

    method Recent(fingerprint: Option<string>) returns (r: seq<Snapshot>)
      requires Valid()
      ensures r == RecentOf(View(), fingerprint)
    {
      var candidates := set s | s in snapshots.Values && Selects(fingerprint, s);
      assert candidates == Matching(View(), fingerprint);
      r := SortDescending(candidates);
    }
  }

  lemma InsertedValues(m: map<string, Snapshot>, s: Snapshot)
    requires KeyedById(m) && s.id !in m
    ensures KeyedById(m[s.id := s]) && m[s.id := s].Values == m.Values + {s} && UniqueIds(m.Values + {s})
  {
    ValuesCount(m);
    ValuesCount(m[s.id := s]);
  }

  ghost predicate DistinctIds(r: seq<Snapshot>) {
    forall x, y | x in r && y in r && x.id == y.id :: x == y
  }

  /** The dictionary comprehension over identifiers. */
  function ById(r: seq<Snapshot>): map<string, Snapshot>
    requires DistinctIds(r)
  {
    map x | x in r :: x.id := x
  }

  lemma ByIdFacts(r: seq<Snapshot>)
    requires DistinctIds(r)
    ensures KeyedById(ById(r)) && ById(r).Values == Elements(r) && |ById(r)| == |Elements(r)|
  {
    var m := ById(r);
    assert forall x | x in r :: x.id in m && m[x.id] == x;
    assert forall id | id in m :: m[id] in r;
    assert m.Values == Elements(r);
    InjectiveValues(m);
  }

  lemma RebuiltMap(s: set<Snapshot>, retained: seq<Snapshot>, capacity: nat)
    requires UniqueIds(s) && retained == Leading(Ranked(s), capacity)
    ensures DistinctIds(retained)
    ensures KeyedById(ById(retained)) && ById(retained).Values == Elements(retained) && |ById(retained)| <= capacity
  {
    RankedPrefixIsTop(s, capacity);
    assert forall x | x in retained :: x in Elements(retained);
    forall x, y | x in retained && y in retained && x.id == y.id ensures x == y {
      assert x in s && y in s && Agree(x, y);
    }
    ByIdFacts(retained);
  }
}
