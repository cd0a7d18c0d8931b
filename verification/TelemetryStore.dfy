/**
 The bounded snapshot stores.  The memory store orders by date-time, the SQLite store by ISO text; both
 are proved against one specification, which is then shown to keep exactly the top `capacity` snapshots.
 */
module TelemetryStore {
  import opened Wrappers
  import opened Collections
  import Text
  import opened IsoTime
  import opened TelemetryModels

  // ----- the composite key

  predicate KeyLess(a: Snapshot, b: Snapshot) {
    Earlier(a.observedAt, b.observedAt) || (a.observedAt == b.observedAt && Text.Less(a.id, b.id))
  }

  predicate SameKey(a: Snapshot, b: Snapshot) {
    a.observedAt == b.observedAt && a.id == b.id
  }

  /** The comparison SQLite and its caller make: on text. */
  predicate TextKeyLess(a: Snapshot, b: Snapshot)
    requires a.observedAt.Valid() && b.observedAt.Valid()
  {
    Text.Less(Iso(a.observedAt), Iso(b.observedAt)) || (Iso(a.observedAt) == Iso(b.observedAt) && Text.Less(a.id, b.id))
  }

  lemma TextKeyAgrees(a: Snapshot, b: Snapshot)
    requires a.observedAt.Valid() && b.observedAt.Valid()
    ensures TextKeyLess(a, b) <==> KeyLess(a, b)
  {
    IsoOrder(a.observedAt, b.observedAt);
  }

  /** One snapshot ranks below another when it is earlier in time, or of the same time with the lesser identifier. */
  lemma KeyIsTimeThenIdentifier(a: Snapshot, b: Snapshot)
    requires a.observedAt.Valid() && b.observedAt.Valid()
    ensures KeyLess(a, b) <==>
            || Instant(a.observedAt) < Instant(b.observedAt)
            || (Instant(a.observedAt) == Instant(b.observedAt) && exists k :: Text.DiffersAt(a.id, b.id, k))
  {
    FieldOrderIsInstantOrder(a.observedAt, b.observedAt);
    Text.LessMeans(a.id, b.id);
  }

  lemma KeyTotal(a: Snapshot, b: Snapshot)
    ensures KeyLess(a, b) || SameKey(a, b) || KeyLess(b, a)
    ensures !KeyLess(a, a) && !(KeyLess(a, b) && KeyLess(b, a)) && !(SameKey(a, b) && KeyLess(a, b))
  {
    EarlierTotal(a.observedAt, b.observedAt);
    Text.LessTotal(a.id, b.id);
    Text.LessIrreflexive(a.id);
    Text.LessIrreflexive(b.id);
    if Text.Less(a.id, b.id) {
      Text.LessAsymmetric(a.id, b.id);
    }
  }

  lemma KeyTransitive(a: Snapshot, b: Snapshot, c: Snapshot)
    requires KeyLess(a, b) && KeyLess(b, c)
    ensures KeyLess(a, c)
  {
    if Earlier(a.observedAt, b.observedAt) && Earlier(b.observedAt, c.observedAt) {
      EarlierTransitive(a.observedAt, b.observedAt, c.observedAt);
    }
    if Text.Less(a.id, b.id) && Text.Less(b.id, c.id) {
      Text.LessTransitive(a.id, b.id, c.id);
    }
  }

  predicate Agree(a: Snapshot, b: Snapshot) {
    a.id == b.id ==> a == b
  }

  ghost predicate UniqueIds(s: set<Snapshot>) {
    forall a, b {:trigger Agree(a, b)} | a in s && b in s :: Agree(a, b)
  }

  predicate IsMax(m: Snapshot, s: set<Snapshot>) {
    m in s && forall x | x in s && x != m :: KeyLess(x, m)
  }

  predicate IsMin(m: Snapshot, s: set<Snapshot>) {
    m in s && forall x | x in s && x != m :: KeyLess(m, x)
  }

  lemma {:induction false} ExtremesExist(s: set<Snapshot>, w: Snapshot)
    requires UniqueIds(s) && w in s
    ensures exists m :: IsMax(m, s)
    ensures exists m :: IsMin(m, s)
  {
    var rest := s - {w};
    if rest == {} {
      assert IsMax(w, s) && IsMin(w, s);
    } else {
      var v :| v in rest;
      ExtremesExist(rest, v);
      var hi, lo :| IsMax(hi, rest) && IsMin(lo, rest);
      KeyTotal(w, hi);
      KeyTotal(w, lo);
      assert Agree(w, hi) && Agree(w, lo);
      forall x | x in rest ensures KeyLess(hi, w) ==> KeyLess(x, w) ensures KeyLess(w, lo) ==> KeyLess(w, x) {
        if KeyLess(hi, w) && x != hi {
          KeyTransitive(x, hi, w);
        }
        if KeyLess(w, lo) && x != lo {
          KeyTransitive(w, lo, x);
        }
      }
      assert IsMax(if KeyLess(hi, w) then w else hi, s);
      assert IsMin(if KeyLess(w, lo) then w else lo, s);
    }
  }

  lemma MaxUnique(s: set<Snapshot>, m: Snapshot, n: Snapshot)
    requires IsMax(m, s) && IsMax(n, s)
    ensures m == n
  {
    KeyTotal(m, n);
  }

  ghost function Max(s: set<Snapshot>): (m: Snapshot)
    requires UniqueIds(s) && s != {}
    ensures IsMax(m, s)
  {
    var w :| w in s;
    ExtremesExist(s, w);
    var m :| IsMax(m, s);
    m
  }

  // ----- rankings

  ghost predicate Descending(r: seq<Snapshot>) {
    forall i, j | 0 <= i < j < |r| :: KeyLess(r[j], r[i])
  }

  ghost function Elements(r: seq<Snapshot>): set<Snapshot> {
    set x | x in r
  }

  lemma ConsDescends(m: Snapshot, rest: seq<Snapshot>)
    requires Descending(rest) && forall x | x in Elements(rest) :: KeyLess(x, m)
    ensures Descending([m] + rest)
  {
    var r := [m] + rest;
    forall i, j | 0 <= i < j < |r| ensures KeyLess(r[j], r[i]) {
      assert r[j] == rest[j - 1] && rest[j - 1] in Elements(rest);
    }
  }

  lemma ElementsOfCons(m: Snapshot, rest: seq<Snapshot>)
    ensures Elements([m] + rest) == {m} + Elements(rest)
  {
  }

  /** Newest first. */
  ghost function Ranked(s: set<Snapshot>): (r: seq<Snapshot>)
    requires UniqueIds(s)
    ensures Descending(r) && Elements(r) == s && |r| == |s|
  {
    if s == {} then []
    else
      var m := Max(s);
      var rest := Ranked(s - {m});
      ConsDescends(m, rest);
      ElementsOfCons(m, rest);
      [m] + rest
  }

  lemma {:induction false} RankedUnique(r: seq<Snapshot>, s: set<Snapshot>)
    requires UniqueIds(s) && Descending(r) && Elements(r) == s
    ensures r == Ranked(s)
  {
    if r == [] {
      assert s == {};
    } else {
      assert r[0] in s;
      KeyTotal(r[0], r[0]);
      var rest := r[1..];
      assert r == [r[0]] + rest;
      forall x | x in s && x != r[0] ensures KeyLess(x, r[0]) {
        assert x in rest;
      }
      MaxUnique(s, r[0], Max(s));
      assert r[0] !in rest;
      assert Elements(rest) == s - {r[0]};
      RankedUnique(rest, s - {r[0]});
    }
  }

  // ----- exact top-k

  /** `kept` are the `k` largest of `offered` by key. */
  ghost predicate IsTop(kept: set<Snapshot>, offered: set<Snapshot>, k: nat) {
    && kept <= offered && |kept| <= k
    && (kept != offered ==> |kept| == k)
    && forall d, r | d in offered - kept && r in kept :: KeyLess(d, r)
  }

  /** The top `k` are determined by what was offered. */
  lemma TopIsUnique(a: set<Snapshot>, b: set<Snapshot>, offered: set<Snapshot>, k: nat)
    requires IsTop(a, offered, k) && IsTop(b, offered, k)
    ensures a == b
  {
    if a != b {
      if a <= b {
        SmallerSubset(a, b);
        assert false;
      } else if b <= a {
        SmallerSubset(b, a);
        assert false;
      } else {
        var x :| x in a && x !in b;
        var y :| y in b && y !in a;
        KeyTotal(x, y);
      }
    }
  }

  lemma SplitDominates(r: seq<Snapshot>, k: nat)
    requires Descending(r) && k <= |r|
    ensures forall d, x | d in Elements(r[k..]) && x in Elements(r[..k]) :: KeyLess(d, x)
    ensures Elements(r) == Elements(r[..k]) + Elements(r[k..]) && Descending(r[..k])
  {
    forall d, x | d in r[k..] && x in r[..k] ensures KeyLess(d, x) {
      var i, j :| 0 <= i < k && r[..k][i] == x && 0 <= j < |r| - k && r[k..][j] == d;
      assert r[i] == x && r[k + j] == d;
    }
    assert r == r[..k] + r[k..];
  }

  /** The first `k` of a ranking are the top `k`. */
  lemma RankedPrefixIsTop(s: set<Snapshot>, k: nat)
    requires UniqueIds(s)
    ensures IsTop(Elements(Leading(Ranked(s), k)), s, k)
  {
    var r := Ranked(s);
    if k < |r| {
      SplitDominates(r, k);
      RankingCount(r[..k]);
    }
  }

  lemma RankingCount(r: seq<Snapshot>)
    requires Descending(r)
    ensures |Elements(r)| == |r|
  {
    forall i, j | 0 <= i < j < |r| ensures r[i] != r[j] {
      KeyTotal(r[i], r[j]);
    }
    DistinctCount(r);
    assert Elements(r) == set x | x in r;
  }

  /** A slice `[:k]`. */
  function Leading<T>(r: seq<T>, k: nat): seq<T> {
    if |r| <= k then r else r[..k]
  }

  // ----- one save

  datatype SaveAnswer = Saved | NotSaved | ConflictingId

  ghost predicate HasId(held: set<Snapshot>, id: string) {
    exists h :: h in held && h.id == id
  }

  /** A full store turns away what is no larger than everything it holds. */
  ghost predicate Outranked(held: set<Snapshot>, s: Snapshot) {
    forall h | h in held :: !KeyLess(h, s)
  }

  ghost function AnswerTo(held: set<Snapshot>, capacity: nat, s: Snapshot): SaveAnswer {
    if s in held then NotSaved
    else if HasId(held, s.id) then ConflictingId
    else if |held| >= capacity && Outranked(held, s) then NotSaved
    else Saved
  }

  ghost function AfterSave(held: set<Snapshot>, capacity: nat, s: Snapshot): set<Snapshot>
    requires UniqueIds(held)
  {
    if AnswerTo(held, capacity, s).Saved? then Elements(Leading(Ranked(held + {s}), capacity)) else held
  }

  lemma MinOutranks(held: set<Snapshot>, m: Snapshot, s: Snapshot)
    requires IsMin(m, held)
    ensures Outranked(held, s) <==> !KeyLess(m, s)
  {
    forall h | h in held && KeyLess(h, s) ensures KeyLess(m, s) {
      if h != m {
        KeyTransitive(m, h, s);
      }
    }
  }

  /** One save keeps the store at the top `capacity` of everything offered without conflict. */
  lemma SaveKeepsTop(held: set<Snapshot>, offered: set<Snapshot>, capacity: nat, s: Snapshot)
    requires capacity >= 1 && UniqueIds(held) && IsTop(held, offered, capacity)
    requires AnswerTo(held, capacity, s) != ConflictingId
    ensures IsTop(AfterSave(held, capacity, s), offered + {s}, capacity)
    ensures UniqueIds(AfterSave(held, capacity, s))
    ensures AnswerTo(held, capacity, s).Saved? <==> s !in held && s in AfterSave(held, capacity, s)
  {
    if s in held {
      assert offered + {s} == offered;
    } else if |held| >= capacity && Outranked(held, s) {
      forall r | r in held ensures KeyLess(s, r) {
        KeyTotal(s, r);
      }
    } else {
      InsertKeepsTop(held, offered, capacity, s);
    }
  }

  lemma InsertKeepsUnique(held: set<Snapshot>, s: Snapshot)
    requires UniqueIds(held) && !HasId(held, s.id)
    ensures UniqueIds(held + {s}) && s !in held
  {
  }

  lemma InsertKeepsTop(held: set<Snapshot>, offered: set<Snapshot>, capacity: nat, s: Snapshot)
    requires capacity >= 1 && UniqueIds(held) && IsTop(held, offered, capacity)
    requires !HasId(held, s.id) && (|held| < capacity || !Outranked(held, s))
    ensures UniqueIds(held + {s})
    ensures var after := Elements(Leading(Ranked(held + {s}), capacity));
            IsTop(after, offered + {s}, capacity) && s in after && UniqueIds(after)
  {
    InsertKeepsUnique(held, s);
    var after := Elements(Leading(Ranked(held + {s}), capacity));
    RankedPrefixIsTop(held + {s}, capacity);
    if |held| < capacity {
      InsertWithRoom(held, offered, capacity, s, after);
    } else {
      var low :| low in held && KeyLess(low, s);
      InsertIntoFull(held, offered, capacity, s, low, after);
    }
  }

  lemma InsertWithRoom(held: set<Snapshot>, offered: set<Snapshot>, capacity: nat, s: Snapshot, after: set<Snapshot>)
    requires IsTop(held, offered, capacity) && |held| < capacity && s !in held
    requires IsTop(after, held + {s}, capacity)
    ensures IsTop(after, offered + {s}, capacity) && s in after
  {
    SmallerSubset(after, held + {s});
    assert held == offered && after == held + {s};
  }

  /** Into a full store: whatever replaces the lowest entry, the result is the new top. */
  lemma InsertIntoFull(held: set<Snapshot>, offered: set<Snapshot>, capacity: nat, s: Snapshot, low: Snapshot,
                       after: set<Snapshot>)
    requires IsTop(held, offered, capacity) && |held| == capacity && s !in held
    requires low in held && KeyLess(low, s) && IsTop(after, held + {s}, capacity)
    ensures IsTop(after, offered + {s}, capacity) && s in after
  {
    if s !in after {
      SmallerSubset(after, held);
      KeyTotal(s, low);
      assert false;
    }
    forall d, r | d in offered + {s} - after && r in after ensures KeyLess(d, r) {
      if d !in held && r == s {
        KeyTransitive(d, low, s);
      }
    }
  }

  // ----- whole histories

  /** The snapshots held after a history of saves. */
  ghost function Held(capacity: nat, saves: seq<Snapshot>): (held: set<Snapshot>)
    requires capacity >= 1
    ensures UniqueIds(held)
  {
    if saves == [] then {}
    else
      var before := Held(capacity, saves[..|saves| - 1]);
      AfterSaveUnique(before, capacity, saves[|saves| - 1]);
      AfterSave(before, capacity, saves[|saves| - 1])
  }

  lemma AfterSaveUnique(held: set<Snapshot>, capacity: nat, s: Snapshot)
    requires UniqueIds(held)
    ensures UniqueIds(AfterSave(held, capacity, s))
  {
    if AnswerTo(held, capacity, s).Saved? {
      assert UniqueIds(held + {s});
      var r := Ranked(held + {s});
      assert forall x | x in Leading(r, capacity) :: x in r;
    }
  }

  /** What was offered by the saves that did not raise. */
  ghost function Offered(capacity: nat, saves: seq<Snapshot>): set<Snapshot>
    requires capacity >= 1
  {
    if saves == [] then {}
    else
      var before, last := saves[..|saves| - 1], saves[|saves| - 1];
      Offered(capacity, before) + if AnswerTo(Held(capacity, before), capacity, last) == ConflictingId then {}
          else {last}
  }

  /** After any history the store holds exactly the top `capacity` of what was offered. */
  lemma {:induction false} HistoryKeepsTop(capacity: nat, saves: seq<Snapshot>)
    requires capacity >= 1
    ensures IsTop(Held(capacity, saves), Offered(capacity, saves), capacity)
  {
    if saves != [] {
      var before, last := saves[..|saves| - 1], saves[|saves| - 1];
      HistoryKeepsTop(capacity, before);
      if AnswerTo(Held(capacity, before), capacity, last) != ConflictingId {
        SaveKeepsTop(Held(capacity, before), Offered(capacity, before), capacity, last);
      }
    }
  }

  /** The order in which snapshots arrive does not matter, as long as none conflicts. */
  lemma ArrivalOrderIsIrrelevant(capacity: nat, a: seq<Snapshot>, b: seq<Snapshot>)
    requires capacity >= 1 && Offered(capacity, a) == Offered(capacity, b)
    ensures Held(capacity, a) == Held(capacity, b)
  {
    HistoryKeepsTop(capacity, a);
    HistoryKeepsTop(capacity, b);
    TopIsUnique(Held(capacity, a), Held(capacity, b), Offered(capacity, a), capacity);
  }

  // ----- queries

  predicate Selects(fingerprint: Option<string>, s: Snapshot) {
    fingerprint.None? || s.fingerprint == fingerprint.value
  }

  ghost function Matching(held: set<Snapshot>, fingerprint: Option<string>): set<Snapshot> {
    set s | s in held && Selects(fingerprint, s)
  }

  ghost function LatestOf(held: set<Snapshot>, fingerprint: Option<string>): Option<Snapshot>
    requires UniqueIds(held)
  {
    var candidates := Matching(held, fingerprint);
    if candidates == {} then None else Some(Max(candidates))
  }

  ghost function RecentOf(held: set<Snapshot>, fingerprint: Option<string>): seq<Snapshot>
    requires UniqueIds(held)
  {
    Ranked(Matching(held, fingerprint))
  }

  /** The latest is the highest of those with the fingerprint, or of all when none is asked for. */
  lemma LatestMeans(held: set<Snapshot>, fingerprint: Option<string>)
    requires UniqueIds(held)
    ensures match LatestOf(held, fingerprint)
            case None =>
              if fingerprint.None? then held == {} else forall x | x in held :: x.fingerprint != fingerprint.value
            case Some(m) =>
              && m in held && (fingerprint.Some? ==> m.fingerprint == fingerprint.value)
              && forall x | x in held && x != m && (fingerprint == None || x.fingerprint == m.fingerprint) ::
                 KeyLess(x, m)
  {
    var candidates := Matching(held, fingerprint);
    forall x | x in held ensures x in candidates <==> fingerprint == None || fingerprint == Some(x.fingerprint) {
    }
    if LatestOf(held, fingerprint).None? && fingerprint.None? {
      assert candidates == held;
    }
  }

  /** The recent snapshots are all those with the fingerprint, or all when none is asked for, newest first. */
  lemma RecentMeans(held: set<Snapshot>, fingerprint: Option<string>)
    requires UniqueIds(held)
    ensures Descending(RecentOf(held, fingerprint))
    ensures forall x :: x in RecentOf(held, fingerprint) <==>
                        x in held && (fingerprint.Some? ==> x.fingerprint == fingerprint.value)
  {
    assert forall x :: x in RecentOf(held, fingerprint) <==> x in Elements(RecentOf(held, fingerprint));
  }

  /** The latest snapshot of a fingerprint never moves back, whatever else is saved or evicted. */
  lemma LatestNeverMovesBack(capacity: nat, saves: seq<Snapshot>, n: nat, fingerprint: Option<string>)
    requires capacity >= 1 && n <= |saves|
    ensures var before, now := LatestOf(Held(capacity, saves[..n]), fingerprint),
            LatestOf(Held(capacity, saves), fingerprint);
            before.Some? && now.Some? ==> now == before || KeyLess(before.value, now.value)
  {
    var before, now := LatestOf(Held(capacity, saves[..n]), fingerprint), LatestOf(Held(capacity, saves), fingerprint);
    if before.Some? && now.Some? {
      HistoryKeepsTop(capacity, saves[..n]);
      HistoryKeepsTop(capacity, saves);
      OfferedGrows(capacity, saves, n);
      assert before.value in Offered(capacity, saves);
    }
  }

  lemma {:induction false} OfferedGrows(capacity: nat, saves: seq<Snapshot>, n: nat)
    requires capacity >= 1 && n <= |saves|
    ensures Offered(capacity, saves[..n]) <= Offered(capacity, saves)
    decreases |saves|
  {
    if n == |saves| {
      assert saves[..n] == saves;
    } else {
      var before := saves[..|saves| - 1];
      assert before[..n] == saves[..n];
      OfferedGrows(capacity, before, n);
    }
  }
}
