/**
 The lazy-deletion Dijkstra search with excluded components and early exit over a target set,
 proved to return the minimum over all walks.
 */
module ShortestPath {
  import opened Wrappers
  import opened Collections
  import Text
  import opened Topology

  datatype Entry = Entry(cost: int, name: Name)

  /** Python's order on (cost, name) tuples. */
  predicate EntryAtMost(a: Entry, b: Entry) {
    a.cost < b.cost || (a.cost == b.cost && Text.AtMost(a.name, b.name))
  }

  predicate IsLeastEntry(e: Entry, heap: multiset<Entry>) {
    e in heap && forall f | f in heap :: EntryAtMost(e, f)
  }

  lemma {:induction false} LeastEntryExists(heap: multiset<Entry>)
    requires heap != multiset{}
    ensures exists e :: IsLeastEntry(e, heap)
    decreases |heap|
  {
    var x :| x in heap;
    var rest := heap - multiset{x};
    assert heap == rest + multiset{x};
    if rest == multiset{} {
      assert IsLeastEntry(x, heap);
    } else {
      LeastEntryExists(rest);
      var y :| IsLeastEntry(y, rest);
      Text.LessTotal(x.name, y.name);
      var e := if EntryAtMost(x, y) then x else y;
      forall f | f in heap ensures EntryAtMost(e, f) {
        if f in rest && e == x && x.cost == y.cost == f.cost && x.name != y.name && y.name != f.name {
          Text.LessTransitive(x.name, y.name, f.name);
        }
      }
      assert IsLeastEntry(e, heap);
    }
  }

  /** `heappop`, by contract. */
  method HeapPop(heap: multiset<Entry>) returns (least: Entry, rest: multiset<Entry>)
    requires heap != multiset{}
    ensures IsLeastEntry(least, heap)
    ensures rest == heap - multiset{least}
  {
    LeastEntryExists(heap);
    least :| least in heap && IsLeastEntry(least, heap);
    rest := heap - multiset{least};
  }

  // ----- what the search keeps

  ghost predicate Usable(cut: Cut, l: Link, u: Name) {
    l.id !in cut.links && l.Touches(u) && l.Other(u) !in cut.nodes
  }

  /** Every tentative distance is the cost of a real walk. */
  ghost predicate Sound(t: Topology, cut: Cut, source: Name, distances: map<Name, int>) {
    && distances.Keys <= t.nodes.Keys
    && source in distances && distances[source] == 0
    && forall v | v in distances :: Attains(t, cut, source, v, distances[v])
  }

  /**
   The heap holds the current entry of every unsettled node exactly once; every other entry is stale,
   and nothing in it is nearer than a settled node.
   */
  ghost predicate HeapMirrors(distances: map<Name, int>, settled: set<Name>, heap: multiset<Entry>) {
    && settled <= distances.Keys
    && (forall e | e in heap ::
          e.name in distances && distances[e.name] <= e.cost
          && (e.name in settled ==> distances[e.name] < e.cost))
    && (forall v | v in distances && v !in settled :: Entry(distances[v], v) in heap)
    && (forall v | v in distances :: heap[Entry(distances[v], v)] <= 1)
    && (forall u, e | u in settled && e in heap :: distances[u] <= e.cost)
  }

  /** The links among `links` have been followed from every node of `done`. */
  ghost predicate Relaxed(cut: Cut, links: seq<Link>, distances: map<Name, int>, done: set<Name>) {
    && done <= distances.Keys
    && forall u, l | u in done && l in links && Usable(cut, l, u) ::
         l.Other(u) in distances && distances[l.Other(u)] <= distances[u] + l.cost
  }

  lemma SettleKeeps(distances: map<Name, int>, settled: set<Name>, heap: multiset<Entry>, e: Entry)
    requires HeapMirrors(distances, settled, heap) && IsLeastEntry(e, heap)
    requires distances[e.name] == e.cost
    ensures e.name !in settled
    ensures HeapMirrors(distances, settled + {e.name}, heap - multiset{e})
  {
  }

  lemma DiscardKeeps(distances: map<Name, int>, settled: set<Name>, heap: multiset<Entry>, e: Entry)
    requires HeapMirrors(distances, settled, heap) && e in heap
    requires distances[e.name] != e.cost
    ensures HeapMirrors(distances, settled, heap - multiset{e})
  {
  }

  lemma PushKeeps(distances: map<Name, int>, settled: set<Name>, heap: multiset<Entry>, e: Entry)
    requires HeapMirrors(distances, settled, heap)
    requires e.name in distances ==> e.cost < distances[e.name]
    requires forall u | u in settled :: distances[u] < e.cost
    ensures e.name !in settled
    ensures HeapMirrors(distances[e.name := e.cost], settled, heap + multiset{e})
  {
  }

  lemma AttainsStep(t: Topology, cut: Cut, source: Name, u: Name, l: Link, c: int)
    requires t.Valid() && Attains(t, cut, source, u, c)
    requires l in t.links && Usable(cut, l, u)
    ensures Attains(t, cut, source, l.Other(u), c + l.cost)
  {
    var walk :| Walk(t, cut, source, walk, u) && Cost(walk) == c;
    WalkExtends(t, cut, source, walk, u, l);
  }

  lemma PushIsSound(t: Topology, cut: Cut, source: Name, distances: map<Name, int>, u: Name, l: Link, v: Name,
                    candidate: int)
    requires t.Valid() && Sound(t, cut, source, distances)
    requires u in distances && l in t.links && Usable(cut, l, u)
    requires v == l.Other(u) && candidate == distances[u] + l.cost
    requires v in distances ==> candidate < distances[v]
    ensures Sound(t, cut, source, distances[v := candidate])
  {
    AttainsStep(t, cut, source, u, l, distances[u]);
    AttainsFacts(t, cut, source);
    assert Attains(t, cut, source, v, candidate);
  }

  /** Every walk ends at a settled node reached at least as cheaply, or crosses an unsettled frontier node. */
  lemma {:induction false} Frontier(t: Topology, cut: Cut, source: Name, distances: map<Name, int>, settled: set<Name>,
                                    walk: seq<Link>, v: Name)
    requires t.Valid() && Sound(t, cut, source, distances)
    requires Relaxed(cut, t.links, distances, settled)
    requires Walk(t, cut, source, walk, v)
    ensures || (v in settled && distances[v] <= Cost(walk))
            || exists y :: y in distances && y !in settled && distances[y] <= Cost(walk)
    decreases |walk|
  {
    if walk == [] {
      assert v in distances && distances[v] <= Cost(walk);
    } else {
      var l := walk[|walk| - 1];
      var u := l.Other(v);
      assert l in t.links;
      Frontier(t, cut, source, distances, settled, walk[..|walk| - 1], u);
      if u in settled && distances[u] <= Cost(walk[..|walk| - 1]) {
        assert Usable(cut, l, u) && l.Other(u) == v;
      }
    }
  }

  /** Invariant of the search: everything settled has been relaxed and no target has been settled. */
  ghost predicate Searching(t: Topology, cut: Cut, source: Name, targets: set<Name>,
                            distances: map<Name, int>, settled: set<Name>, heap: multiset<Entry>) {
    && Sound(t, cut, source, distances) && HeapMirrors(distances, settled, heap)
    && Relaxed(cut, t.links, distances, settled)
    && settled !! targets
  }

  /** The node at the top of the heap is final: no walk to a target is cheaper. */
  lemma PoppedIsMinimum(t: Topology, cut: Cut, source: Name, targets: set<Name>,
                        distances: map<Name, int>, settled: set<Name>, heap: multiset<Entry>, e: Entry)
    requires t.Valid() && Searching(t, cut, source, targets, distances, settled, heap) && IsLeastEntry(e, heap)
    requires e.name in targets && distances[e.name] == e.cost
    ensures Distance(t, cut, source, targets) == Some(e.cost)
  {
    assert Attains(t, cut, source, e.name, e.cost);
    assert Reaches(t, cut, source, targets, e.cost);
    forall v, c | v in targets && Attains(t, cut, source, v, c) ensures e.cost <= c {
      var walk :| Walk(t, cut, source, walk, v) && Cost(walk) == c;
      Frontier(t, cut, source, distances, settled, walk, v);
      var y :| y in distances && y !in settled && distances[y] <= c;
      assert Entry(distances[y], y) in heap;
    }
    DistanceIs(t, cut, source, targets, e.cost);
  }

  lemma ExhaustedMeansCutOff(t: Topology, cut: Cut, source: Name, targets: set<Name>, distances: map<Name, int>,
                             settled: set<Name>)
    requires t.Valid() && Searching(t, cut, source, targets, distances, settled, multiset{})
    ensures Distance(t, cut, source, targets) == None
  {
    forall walk, v | Walk(t, cut, source, walk, v) ensures v !in targets {
      Frontier(t, cut, source, distances, settled, walk, v);
    }
  }

  /** Targets outside the graph, or excluded, are reached by no walk. */
  lemma OnlyKnownTargetsCount(t: Topology, cut: Cut, source: Name, targets: set<Name>)
    requires t.Valid()
    ensures Distance(t, cut, source, targets) == Distance(t, cut, source, targets * t.nodes.Keys - cut.nodes)
    ensures source in cut.nodes ==> Distance(t, cut, source, targets) == None
  {
    var known := targets * t.nodes.Keys - cut.nodes;
    forall walk, v | Walk(t, cut, source, walk, v) ensures v in t.nodes && v !in cut.nodes && source !in cut.nodes {
      WalkFacts(t, cut, source, walk, v);
    }
    assert forall v, c | Attains(t, cut, source, v, c) :: v in targets ==> v in known && source !in cut.nodes;
    assert forall c :: Reaches(t, cut, source, targets, c) <==> Reaches(t, cut, source, known, c);
  }

  // ----- the search

  lemma LoweringKeepsRelaxed(cut: Cut, links: seq<Link>, distances: map<Name, int>, done: set<Name>, v: Name,
                             candidate: int)
    requires Relaxed(cut, links, distances, done) && v !in done
    requires v in distances ==> candidate < distances[v]
    ensures Relaxed(cut, links, distances[v := candidate], done)
  {
  }

  ghost predicate Nearest(distances: map<Name, int>, settled: set<Name>, current: Name) {
    settled <= distances.Keys && current in settled && forall u | u in settled :: distances[u] <= distances[current]
  }

  /** What holds while the links of the freshly settled `current` are followed, `links` being those done. */
  ghost predicate Relaxing(t: Topology, source: Name, cut: Cut, distances: map<Name, int>, heap: multiset<Entry>,
                           settled: set<Name>, current: Name, links: seq<Link>) {
    && Sound(t, cut, source, distances) && HeapMirrors(distances, settled, heap)
    && Nearest(distances, settled, current)
    && Relaxed(cut, t.links, distances, settled - {current})
    && Relaxed(cut, links, distances, {current})
  }

  lemma SkipKeeps(t: Topology, source: Name, cut: Cut, distances: map<Name, int>, heap: multiset<Entry>,
                  settled: set<Name>, current: Name, links: seq<Link>, l: Link)
    requires Relaxing(t, source, cut, distances, heap, settled, current, links)
    requires Usable(cut, l, current) ==>
               l.Other(current) in distances && distances[l.Other(current)] <= distances[current] + l.cost
    ensures Relaxing(t, source, cut, distances, heap, settled, current, links + [l])
  {
  }

  lemma RelaxKeeps(t: Topology, source: Name, cut: Cut, distances: map<Name, int>, heap: multiset<Entry>,
                   settled: set<Name>, current: Name, links: seq<Link>, l: Link, v: Name, candidate: int)
    requires t.Valid() && Relaxing(t, source, cut, distances, heap, settled, current, links)
    requires l in t.links && Usable(cut, l, current) && v == l.Other(current)
             && candidate == distances[current] + l.cost
    requires v in distances ==> candidate < distances[v]
    ensures Relaxing(t, source, cut, distances[v := candidate], heap + multiset{Entry(candidate, v)}, settled, current,
                     links + [l])
    ensures v !in settled
  {
    assert v !in settled;
    PushIsSound(t, cut, source, distances, current, l, v, candidate);
    PushKeeps(distances, settled, heap, Entry(candidate, v));
    LoweringKeepsRelaxed(cut, t.links, distances, settled - {current}, v, candidate);
    LoweringKeepsRelaxed(cut, links, distances, {current}, v, candidate);
    SkipKeeps(t, source, cut, distances[v := candidate], heap + multiset{Entry(candidate, v)}, settled, current, links,
              l);
  }

  /** The relaxation of every link at a freshly settled node. */
  method RelaxFrom(t: Topology, ghost source: Name, cut: Cut, distances: map<Name, int>, heap: multiset<Entry>,
                   ghost settled: set<Name>, current: Name)
    returns (nearer: map<Name, int>, pushed: multiset<Entry>)
    requires t.Valid() && Relaxing(t, source, cut, distances, heap, settled, current, [])
    ensures Relaxing(t, source, cut, nearer, pushed, settled, current, t.links)
  {
    nearer, pushed := distances, heap;
    for i := 0 to |t.links|
      invariant Relaxing(t, source, cut, nearer, pushed, settled, current, t.links[..i])
    {
      var link := t.links[i];
      PrefixStep(t.links, i);
      if link.id !in cut.links && link.Touches(current) && link.Other(current) !in cut.nodes {
        var neighbor := link.Other(current);
        var candidate := nearer[current] + link.cost;
        if neighbor !in nearer || candidate < nearer[neighbor] {
          RelaxKeeps(t, source, cut, nearer, pushed, settled, current, t.links[..i], link, neighbor, candidate);
          nearer := nearer[neighbor := candidate];
          pushed := pushed + multiset{Entry(candidate, neighbor)};
        } else {
          SkipKeeps(t, source, cut, nearer, pushed, settled, current, t.links[..i], link);
        }
      } else {
        SkipKeeps(t, source, cut, nearer, pushed, settled, current, t.links[..i], link);
      }
    }
    assert t.links[..|t.links|] == t.links;
  }

  lemma SettleStep(t: Topology, cut: Cut, source: Name, targets: set<Name>,
                   distances: map<Name, int>, settled: set<Name>, heap: multiset<Entry>, e: Entry)
    requires t.Valid() && Searching(t, cut, source, targets, distances, settled, heap)
    requires IsLeastEntry(e, heap) && distances[e.name] == e.cost
    ensures e.name !in settled && e.name in t.nodes
    ensures Relaxing(t, source, cut, distances, heap - multiset{e}, settled + {e.name}, e.name, [])
  {
    SettleKeeps(distances, settled, heap, e);
    assert settled + {e.name} - {e.name} == settled;
  }

  lemma RelaxedStep(t: Topology, cut: Cut, source: Name, targets: set<Name>,
                    distances: map<Name, int>, settled: set<Name>, heap: multiset<Entry>, current: Name)
    requires Relaxing(t, source, cut, distances, heap, settled, current, t.links) && settled !! targets
    ensures Searching(t, cut, source, targets, distances, settled, heap)
  {
    assert settled == settled - {current} + {current};
  }

  lemma StartState(t: Topology, cut: Cut, source: Name, targets: set<Name>)
    requires t.Valid() && source in t.nodes && source !in cut.nodes
    ensures Searching(t, cut, source, targets, map[source := 0], {}, multiset{Entry(0, source)})
  {
    assert Walk(t, cut, source, [], source) && Cost([]) == 0;
    assert Attains(t, cut, source, source, 0);
  }

  /** The search loop: stale entries are skipped, and the first target popped ends the search. */
  method Search(t: Topology, source: Name, known: set<Name>, cut: Cut) returns (r: Option<int>)
    requires t.Valid() && source in t.nodes && source !in cut.nodes
    ensures r == Distance(t, cut, source, known)
  {
    var distances: map<Name, int> := map[source := 0];
    var pending: multiset<Entry> := multiset{Entry(0, source)};
    ghost var settled: set<Name> := {};
    StartState(t, cut, source, known);
    while pending != multiset{}
      invariant Searching(t, cut, source, known, distances, settled, pending)
      decreases t.nodes.Keys - settled, |pending|
    {
      var entry, rest := HeapPop(pending);
      var distance, current := entry.cost, entry.name;
      if distance != distances[current] {
        DiscardKeeps(distances, settled, pending, entry);
        pending := rest;
        continue;
      }
      if current in known {
        PoppedIsMinimum(t, cut, source, known, distances, settled, pending, entry);
        return Some(distance);
      }
      SettleStep(t, cut, source, known, distances, settled, pending, entry);
      settled := settled + {current};
      distances, pending := RelaxFrom(t, source, cut, distances, rest, settled, current);
      RelaxedStep(t, cut, source, known, distances, settled, pending, current);
    }
    ExhaustedMeansCutOff(t, cut, source, known, distances, settled);
    return None;
  }

  method ShortestDistanceExcluding(t: Topology, source: Name, targets: set<Name>, cut: Cut)
    returns (r: Result<Option<int>, TopologyError>)
    requires t.Valid()
    ensures r.Success? <==> source in t.nodes && t.Knows(cut)
    ensures r.Success? ==> r.value == Distance(t, cut, source, targets)
    ensures source !in t.nodes ==> r == Failure(UnknownNode(source))
    ensures source in t.nodes && r.Failure? ==>
              if cut.links <= t.LinkIds() then
                r.error.UnknownNode? && r.error.node in cut.nodes - t.nodes.Keys
              else
                r.error.UnknownLink? && r.error.link in cut.links - t.LinkIds()
  {
    if source !in t.nodes {
      return Failure(UnknownNode(source));
    }
    if link :| link in cut.links && link !in t.LinkIds() {
      return Failure(UnknownLink(link));
    }
    if node :| node in cut.nodes && node !in t.nodes {
      return Failure(UnknownNode(node));
    }
    OnlyKnownTargetsCount(t, cut, source, targets);
    if source in cut.nodes {
      return Success(None);
    }
    var known := targets * t.nodes.Keys - cut.nodes;
    if known == {} {
      return Success(None);
    }
    var distance := Search(t, source, known, cut);
    return Success(distance);
  }

  /** The single-link, single-node entry point. */
  method ShortestDistance(t: Topology, source: Name, targets: set<Name>, excludedLink: Option<string>,
                          excludedNode: Option<Name>)
    returns (r: Result<Option<int>, TopologyError>)
    requires t.Valid()
    ensures var cut := Cut(ExcludedLink(excludedLink).links, if excludedNode.Some? then {excludedNode.value} else {});
            && (r.Success? <==> source in t.nodes && t.Knows(cut))
            && (r.Success? ==> r.value == Distance(t, cut, source, targets))
  {
    var links: set<string> := if excludedLink.Some? then {excludedLink.value} else {};
    var nodes: set<Name> := if excludedNode.Some? then {excludedNode.value} else {};
    r := ShortestDistanceExcluding(t, source, targets, Cut(links, nodes));
  }
}
