/**
 The declared network graph and its searches: an undirected multigraph with positive link costs.
 A walk is the declarative notion every search and every resilience verdict is stated against.
 */
module Topology {
  import opened Wrappers
  import Text

  type Name = string

  datatype NodeRole = Access | Aggregation | Core | Service

  datatype Node = Node(name: Name, role: NodeRole, prefixes: seq<string>)

  datatype Link = Link(id: string, endpointA: Name, endpointB: Name, cost: int) {
    predicate Touches(v: Name) {
      endpointA == v || endpointB == v
    }

    function Other(v: Name): Name
      requires Touches(v)
    {
      if endpointA == v then endpointB else endpointA
    }
  }

  datatype TopologyError =
    | DuplicateNode(node: Name)
    | DuplicateLink(link: string)
    | NonPositiveCost(link: string)
    | SelfLink(link: string)
    | UnknownEndpoint(link: string, endpoints: seq<Name>)
    | UnknownNode(node: Name)
    | UnknownLink(link: string)

  /** The components a query leaves out. */
  datatype Cut = Cut(links: set<string>, nodes: set<Name>) {
    predicate Within(other: Cut) {
      links <= other.links && nodes <= other.nodes
    }
  }

  const NO_CUT := Cut({}, {})

  /** `links` keeps the insertion order of the program's dictionary, which every search iterates. */
  datatype Topology = Topology(nodes: map<Name, Node>, links: seq<Link>) {
    ghost predicate Valid() {
      && (forall n | n in nodes :: nodes[n].name == n)
      && (forall i, j | 0 <= i < j < |links| :: links[i].id != links[j].id)
      && (forall l | l in links :: l.cost > 0 && l.endpointA != l.endpointB)
      && (forall l | l in links :: l.endpointA in nodes && l.endpointB in nodes)
    }

    function LinkIds(): set<string> {
      set l | l in links :: l.id
    }

    /** The components named by `cut` are all declared. */
    predicate Knows(cut: Cut) {
      cut.links <= LinkIds() && cut.nodes <= nodes.Keys
    }
  }

  // ----- construction

  ghost predicate GoodLink(nodes: seq<Node>, links: seq<Link>, k: nat)
    requires k < |links|
  {
    && (forall i | 0 <= i < k :: links[i].id != links[k].id)
    && links[k].cost > 0
    && links[k].endpointA != links[k].endpointB
    && {links[k].endpointA, links[k].endpointB} <= Names(nodes)
  }

  ghost function Names(nodes: seq<Node>): set<Name> {
    set n | n in nodes :: n.name
  }

  ghost predicate DistinctNames(nodes: seq<Node>) {
    forall i, j | 0 <= i < j < |nodes| :: nodes[i].name != nodes[j].name
  }

  /** Which check refuses link `k`, the earlier links being good. */
  ghost predicate Refuses(nodes: seq<Node>, links: seq<Link>, k: nat, e: TopologyError)
    requires k < |links|
  {
    var l := links[k];
    if exists i | 0 <= i < k :: links[i].id == l.id then
      e == DuplicateLink(l.id)
    else if l.cost <= 0 then
      e == NonPositiveCost(l.id)
    else if l.endpointA == l.endpointB then
      e == SelfLink(l.id)
    else
      var unknown := {l.endpointA, l.endpointB} - Names(nodes);
      unknown != {} && e == UnknownEndpoint(l.id, Text.SortedSet(unknown))
  }

  /** The first repeated node name. */
  ghost predicate FirstDuplicate(nodes: seq<Node>, e: TopologyError) {
    exists j | 0 < j < |nodes| ::
      && DistinctNames(nodes[..j]) && nodes[j].name in Names(nodes[..j])
      && e == DuplicateNode(nodes[j].name)
  }

  /** The first link that a check refuses, and by which check. */
  ghost predicate FirstRefused(nodes: seq<Node>, links: seq<Link>, e: TopologyError) {
    exists k | 0 <= k < |links| ::
      && (forall i | 0 <= i < k :: GoodLink(nodes, links, i))
      && !GoodLink(nodes, links, k)
      && Refuses(nodes, links, k, e)
  }

  method IndexNodes(nodes: seq<Node>) returns (r: Result<map<Name, Node>, TopologyError>)
    ensures r.Success? <==> DistinctNames(nodes)
    ensures r.Success? ==>
              && r.value.Keys == Names(nodes)
              && (forall n | n in r.value :: r.value[n].name == n && r.value[n] in nodes)
    ensures r.Failure? ==> FirstDuplicate(nodes, r.error)
  {
    var byName: map<Name, Node> := map[];
    for j := 0 to |nodes|
      invariant DistinctNames(nodes[..j])
      invariant byName.Keys == Names(nodes[..j])
      invariant forall n | n in byName :: byName[n].name == n && byName[n] in nodes
    {
      if nodes[j].name in byName {
        assert exists i | 0 <= i < j :: nodes[..j][i].name == nodes[j].name;
        return Failure(DuplicateNode(nodes[j].name));
      }
      assert nodes[..j + 1] == nodes[..j] + [nodes[j]];
      byName := byName[nodes[j].name := nodes[j]];
    }
    assert nodes[..|nodes|] == nodes;
    return Success(byName);
  }

  lemma AllGoodIsValid(nodes: seq<Node>, links: seq<Link>, byName: map<Name, Node>)
    requires byName.Keys == Names(nodes)
    requires forall n | n in byName :: byName[n].name == n
    requires forall k | 0 <= k < |links| :: GoodLink(nodes, links, k)
    ensures Topology(byName, links).Valid()
  {
    assert forall l | l in links :: exists k :: 0 <= k < |links| && links[k] == l && GoodLink(nodes, links, k);
    assert forall i, j | 0 <= i < j < |links| :: GoodLink(nodes, links, j) ==> links[i].id != links[j].id;
  }

  lemma NoneMissing<T>(a: set<T>, b: set<T>)
    ensures a - b == {} <==> a <= b
  {
    if a - b == {} {
      forall x | x in a ensures x in b {
        assert x !in a - b;
      }
    }
  }

  method Build(nodes: seq<Node>, links: seq<Link>) returns (r: Result<Topology, TopologyError>)
    ensures r.Success? <==> DistinctNames(nodes) && forall k | 0 <= k < |links| :: GoodLink(nodes, links, k)
    ensures r.Success? ==>
              && r.value.Valid() && r.value.links == links && r.value.nodes.Keys == Names(nodes)
              && (forall n | n in r.value.nodes :: r.value.nodes[n] in nodes)
    ensures r.Failure? ==> if DistinctNames(nodes) then FirstRefused(nodes, links, r.error)
            else FirstDuplicate(nodes, r.error)
  {
    var byName :- IndexNodes(nodes);
    var ids: set<string> := {};
    for k := 0 to |links|
      invariant forall i | 0 <= i < k :: GoodLink(nodes, links, i)
      invariant forall id :: id in ids <==> exists i :: 0 <= i < k && links[i].id == id
    {
      var l := links[k];
      var refused: Option<TopologyError> := None;
      var unknown := set e | e in {l.endpointA, l.endpointB} && e !in byName;
      if l.id in ids {
        refused := Some(DuplicateLink(l.id));
      } else if l.cost <= 0 {
        refused := Some(NonPositiveCost(l.id));
      } else if l.endpointA == l.endpointB {
        refused := Some(SelfLink(l.id));
      } else if unknown != {} {
        refused := Some(UnknownEndpoint(l.id, Text.SortedSet(unknown)));
      }
      assert unknown == {l.endpointA, l.endpointB} - Names(nodes);
      NoneMissing({l.endpointA, l.endpointB}, Names(nodes));
      assert l.id in ids <==> exists i | 0 <= i < k :: links[i].id == links[k].id;
      assert refused.None? <==> GoodLink(nodes, links, k);
      if refused.Some? {
        assert Refuses(nodes, links, k, refused.value);
        return Failure(refused.value);
      }
      ids := ids + {l.id};
    }
    AllGoodIsValid(nodes, links, byName);
    return Success(Topology(byName, links));
  }

  // ----- walks

  /** `walk` leads from `u` to `v` over declared links, using no component of `cut`. */
  ghost predicate Walk(t: Topology, cut: Cut, u: Name, walk: seq<Link>, v: Name)
    decreases |walk|
  {
    && v !in cut.nodes
    && if walk == [] then
      u == v && v in t.nodes
    else
      var l := walk[|walk| - 1];
      l in t.links && l.id !in cut.links && l.Touches(v) && Walk(t, cut, u, walk[..|walk| - 1], l.Other(v))
  }

  ghost function Cost(walk: seq<Link>): int
    decreases |walk|
  {
    if walk == [] then 0 else Cost(walk[..|walk| - 1]) + walk[|walk| - 1].cost
  }

  /** Some walk from `u` to `v` costs `c`. */
  ghost predicate Attains(t: Topology, cut: Cut, u: Name, v: Name, c: int) {
    exists walk :: Walk(t, cut, u, walk, v) && Cost(walk) == c
  }

  /** Some walk of cost `c` reaches one of the targets. */
  ghost predicate Reaches(t: Topology, cut: Cut, u: Name, targets: set<Name>, c: int) {
    exists v :: v in targets && Attains(t, cut, u, v, c)
  }

  ghost predicate IsLeastCost(t: Topology, cut: Cut, u: Name, targets: set<Name>, c: int) {
    Reaches(t, cut, u, targets, c) && forall d | Reaches(t, cut, u, targets, d) :: c <= d
  }

  lemma {:induction false} LeastCostExists(t: Topology, cut: Cut, u: Name, targets: set<Name>, c: int)
    requires t.Valid() && Reaches(t, cut, u, targets, c)
    ensures exists d :: IsLeastCost(t, cut, u, targets, d)
    decreases c
  {
    AttainsFacts(t, cut, u);
    if d :| d < c && Reaches(t, cut, u, targets, d) {
      LeastCostExists(t, cut, u, targets, d);
    } else {
      assert IsLeastCost(t, cut, u, targets, c);
    }
  }

  /** The minimum over all walks, None when there is none: what the searches are proved to return. */
  ghost function Distance(t: Topology, cut: Cut, u: Name, targets: set<Name>): (r: Option<int>)
    requires t.Valid()
    ensures r == None <==> forall c :: !Reaches(t, cut, u, targets, c)
    ensures r.Some? ==> IsLeastCost(t, cut, u, targets, r.value)
  {
    if c :| Reaches(t, cut, u, targets, c) then
      LeastCostExists(t, cut, u, targets, c);
      var d :| IsLeastCost(t, cut, u, targets, d);
      Some(d)
    else
      None
  }

  lemma AttainsFacts(t: Topology, cut: Cut, u: Name)
    requires t.Valid()
    ensures forall v, c | Attains(t, cut, u, v, c) :: v in t.nodes && u !in cut.nodes && v !in cut.nodes && c >= 0
  {
    forall walk, v | Walk(t, cut, u, walk, v)
      ensures v in t.nodes && u !in cut.nodes && v !in cut.nodes && Cost(walk) >= 0
    {
      WalkFacts(t, cut, u, walk, v);
    }
  }

  lemma DistanceIs(t: Topology, cut: Cut, u: Name, targets: set<Name>, c: int)
    requires t.Valid() && IsLeastCost(t, cut, u, targets, c)
    ensures Distance(t, cut, u, targets) == Some(c)
  {
    var r := Distance(t, cut, u, targets);
    assert r.Some? && Reaches(t, cut, u, targets, r.value);
  }

  lemma {:induction false} WalkFacts(t: Topology, cut: Cut, u: Name, walk: seq<Link>, v: Name)
    requires t.Valid() && Walk(t, cut, u, walk, v)
    ensures u in t.nodes && v in t.nodes && u !in cut.nodes && v !in cut.nodes
    ensures Cost(walk) >= 0
    ensures forall l | l in walk :: l in t.links && l.id !in cut.links
    decreases |walk|
  {
    if walk != [] {
      var l := walk[|walk| - 1];
      WalkFacts(t, cut, u, walk[..|walk| - 1], l.Other(v));
    }
  }

  /** Extending a walk over one usable link. */
  lemma WalkExtends(t: Topology, cut: Cut, u: Name, walk: seq<Link>, v: Name, l: Link)
    requires Walk(t, cut, u, walk, v)
    requires l in t.links && l.id !in cut.links && l.Touches(v) && l.Other(v) !in cut.nodes
    requires l.endpointA != l.endpointB
    ensures Walk(t, cut, u, walk + [l], l.Other(v))
    ensures Cost(walk + [l]) == Cost(walk) + l.cost
  {
    assert (walk + [l])[..|walk|] == walk;
  }

  // ----- neighbours and reachability

  /** `l` leads from `v` to `w` without the excluded link. */
  ghost predicate Adjacent(t: Topology, excluded: Option<string>, v: Name, w: Name) {
    exists l :: l in t.links && Some(l.id) != excluded && l.Touches(v) && l.Other(v) == w
  }

  method Neighbors(t: Topology, v: Name, excluded: Option<string>) returns (r: Result<seq<Name>, TopologyError>)
    requires t.Valid()
    ensures v !in t.nodes ==> r == Failure(UnknownNode(v))
    ensures v in t.nodes && excluded.Some? && excluded.value !in t.LinkIds() ==>
              r == Failure(UnknownLink(excluded.value))
    ensures v in t.nodes && (excluded.Some? ==> excluded.value in t.LinkIds()) ==>
              && r.Success? && Text.StrictlyAscending(r.value)
              && forall w :: w in r.value <==> Adjacent(t, excluded, v, w)
  {
    if v !in t.nodes {
      return Failure(UnknownNode(v));
    }
    if excluded.Some? && excluded.value !in t.LinkIds() {
      return Failure(UnknownLink(excluded.value));
    }
    var found: set<Name> := {};
    for i := 0 to |t.links|
      invariant forall w :: w in found <==>
                  exists k :: 0 <= k < i && Some(t.links[k].id) != excluded && t.links[k].Touches(v)
                      && t.links[k].Other(v) == w
    {
      var link := t.links[i];
      if Some(link.id) == excluded {
        continue;
      }
      if link.endpointA == v {
        found := found + {link.endpointB};
      } else if link.endpointB == v {
        found := found + {link.endpointA};
      }
    }
    return Success(Text.SortedSet(found));
  }

  ghost function ExcludedLink(excluded: Option<string>): Cut {
    Cut(if excluded.Some? then {excluded.value} else {}, {})
  }

  /** A set closed under adjacency is left by no walk. */
  lemma {:induction false} ClosedSetTrapsWalks(t: Topology, excluded: Option<string>, inside: set<Name>, u: Name,
                                               walk: seq<Link>, v: Name)
    requires t.Valid() && u in inside
    requires forall x, y | x in inside && Adjacent(t, excluded, x, y) :: y in inside
    requires Walk(t, ExcludedLink(excluded), u, walk, v)
    ensures v in inside
    decreases |walk|
  {
    if walk != [] {
      var l := walk[|walk| - 1];
      assert l in t.links;
      ClosedSetTrapsWalks(t, excluded, inside, u, walk[..|walk| - 1], l.Other(v));
      assert Adjacent(t, excluded, l.Other(v), v);
    }
  }

  ghost predicate Reachable(t: Topology, excluded: Option<string>, u: Name, v: Name) {
    exists walk :: Walk(t, ExcludedLink(excluded), u, walk, v)
  }

  ghost function Members<T>(s: seq<T>): set<T> {
    set x | x in s
  }

  lemma MembersOfConcat<T>(s: seq<T>, r: seq<T>)
    ensures Members(s + r) == Members(s) + Members(r)
    ensures |s| == 1 ==> Members(s) == {s[0]}
    ensures |r| == 1 ==> Members(r) == {r[0]}
  {
  }

  lemma NothingOutside(t: Topology, excluded: Option<string>, inside: set<Name>, u: Name)
    requires t.Valid() && u in inside
    requires forall x, y | x in inside && Adjacent(t, excluded, x, y) :: y in inside
    ensures forall v | Reachable(t, excluded, u, v) :: v in inside
  {
    forall v | Reachable(t, excluded, u, v) ensures v in inside {
      var walk :| Walk(t, ExcludedLink(excluded), u, walk, v);
      ClosedSetTrapsWalks(t, excluded, inside, u, walk, v);
    }
  }

  lemma ReachableStep(t: Topology, excluded: Option<string>, u: Name, v: Name, w: Name)
    requires t.Valid() && Reachable(t, excluded, u, v) && Adjacent(t, excluded, v, w)
    ensures Reachable(t, excluded, u, w)
  {
    var walk :| Walk(t, ExcludedLink(excluded), u, walk, v);
    var l :| l in t.links && Some(l.id) != excluded && l.Touches(v) && l.Other(v) == w;
    WalkExtends(t, ExcludedLink(excluded), u, walk, v, l);
  }

  lemma ReachableSteps(t: Topology, excluded: Option<string>, u: Name, v: Name)
    requires t.Valid() && Reachable(t, excluded, u, v)
    ensures forall w | Adjacent(t, excluded, v, w) :: w in t.nodes && Reachable(t, excluded, u, w)
  {
    forall w | Adjacent(t, excluded, v, w) ensures w in t.nodes && Reachable(t, excluded, u, w) {
      ReachableStep(t, excluded, u, v, w);
    }
  }

  /** The body of the search loop: queue the neighbours not seen before, stopping at a target. */
  method Enqueue(neighbors: seq<Name>, known: set<Name>, visited: set<Name>, pending: seq<Name>)
    returns (hit: bool, seen: set<Name>, queue: seq<Name>)
    requires visited !! known
    ensures hit <==> exists n | n in neighbors :: n in known
    ensures !hit ==> seen == visited + Members(neighbors) && seen !! known
    ensures !hit ==> Members(queue) == Members(pending) + (seen - visited)
    ensures !hit && seen == visited ==> queue == pending
  {
    hit, seen, queue := false, visited, pending;
    for i := 0 to |neighbors|
      invariant seen == visited + Members(neighbors[..i]) && seen !! known
      invariant Members(queue) == Members(pending) + (seen - visited)
      invariant seen == visited ==> queue == pending
    {
      var neighbor := neighbors[i];
      assert neighbors[..i + 1] == neighbors[..i] + [neighbor];
      MembersOfConcat(neighbors[..i], [neighbor]);
      if neighbor in seen {
        continue;
      }
      if neighbor in known {
        hit := true;
        return;
      }
      seen := seen + {neighbor};
      MembersOfConcat(queue, [neighbor]);
      queue := queue + [neighbor];
    }
    assert neighbors[..|neighbors|] == neighbors;
  }

  /** Invariant of the search: what is visited is reachable, and what is expanded has no unvisited neighbour. */
  ghost predicate Searched(t: Topology, excluded: Option<string>, source: Name, visited: set<Name>, expanded: set<Name>,
                           pending: seq<Name>) {
    && visited <= t.nodes.Keys && source in visited
    && (forall v | v in visited :: Reachable(t, excluded, source, v))
    && visited == expanded + Members(pending)
    && (forall x, y | x in expanded && Adjacent(t, excluded, x, y) :: y in visited)
  }

  lemma SearchStep(t: Topology, excluded: Option<string>, source: Name, visited: set<Name>, expanded: set<Name>,
                   pending: seq<Name>, neighbors: seq<Name>, queue: seq<Name>)
    requires t.Valid() && pending != [] && Searched(t, excluded, source, visited, expanded, pending)
    requires forall w :: w in neighbors <==> Adjacent(t, excluded, pending[0], w)
    requires Members(queue) == Members(pending[1..]) + (Members(neighbors) - visited)
    ensures Searched(t, excluded, source, visited + Members(neighbors), expanded + {pending[0]}, queue)
  {
    assert pending == [pending[0]] + pending[1..];
    MembersOfConcat([pending[0]], pending[1..]);
    ReachableSteps(t, excluded, source, pending[0]);
    assert Members(neighbors) <= t.nodes.Keys;
  }

  /**
   Breadth-first search.  The excluded link is only looked up once a neighbour list is needed, so an
   unknown one goes unnoticed when the answer is immediate.
   */
  method HasPath(t: Topology, source: Name, targets: set<Name>, excluded: Option<string>)
    returns (r: Result<bool, TopologyError>)
    requires t.Valid()
    ensures source !in t.nodes ==> r == Failure(UnknownNode(source))
    ensures source in t.nodes && targets * t.nodes.Keys == {} ==> r == Success(false)
    ensures source in t.nodes && source in targets ==> r == Success(true)
    ensures source in t.nodes && targets * t.nodes.Keys != {} && source !in targets ==>
              excluded.Some? && excluded.value !in t.LinkIds() ==> r == Failure(UnknownLink(excluded.value))
    ensures source in t.nodes && (excluded.Some? ==> excluded.value in t.LinkIds()) ==>
              r == Success(exists v :: v in targets && Reachable(t, excluded, source, v))
  {
    if source !in t.nodes {
      return Failure(UnknownNode(source));
    }
    assert Walk(t, ExcludedLink(excluded), source, [], source);
    var known := targets * t.nodes.Keys;
    if known == {} {
      forall v | Reachable(t, excluded, source, v) ensures v in t.nodes {
        var walk :| Walk(t, ExcludedLink(excluded), source, walk, v);
        WalkFacts(t, ExcludedLink(excluded), source, walk, v);
      }
      return Success(false);
    }
    if source in known {
      return Success(true);
    }
    var visited := {source};
    var pending := [source];
    ghost var expanded: set<Name> := {};
    while pending != []
      invariant Searched(t, excluded, source, visited, expanded, pending) && visited !! known
      invariant expanded == {} ==> pending == [source]
      invariant expanded != {} && excluded.Some? ==> excluded.value in t.LinkIds()
      decreases t.nodes.Keys - visited, |pending|
    {
      var current := pending[0];
      assert current in Members(pending);
      var neighbors :- Neighbors(t, current, excluded);
      ReachableSteps(t, excluded, source, current);
      var hit, seen, queue := Enqueue(neighbors, known, visited, pending[1..]);
      if hit {
        return Success(true);
      }
      SearchStep(t, excluded, source, visited, expanded, pending, neighbors, queue);
      visited, pending, expanded := seen, queue, expanded + {current};
    }
    NothingOutside(t, excluded, visited, source);
    return Success(false);
  }
}
