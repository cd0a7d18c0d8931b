/** Typed fault scenarios and the common audit engine that classifies each of them. */
module Audit {
  import opened Wrappers
  import opened Collections
  import Text
  import opened Topology
  import opened ShortestPath
  import opened Paths

  datatype ServiceImpact = RedundancyReduced | Degraded | Outage

  datatype FaultKind = LinkFault | NodeFault | Composite

  datatype FaultScenario = FaultScenario(id: string, kind: FaultKind, cut: Cut) {
    /** The checks made at construction, the identifier pattern apart. */
    predicate WellFormed() {
      match kind
      case LinkFault => |cut.links| == 1 && cut.nodes == {}
      case NodeFault => |cut.nodes| == 1 && cut.links == {}
      case Composite => |cut.links| + |cut.nodes| >= 2
    }
  }

  datatype AccessPath = AccessPath(accessNode: Name, baselineCost: int, postFaultCost: Option<int>)

  datatype ScenarioResult = ScenarioResult(
    fault: FaultScenario,
    impact: ServiceImpact,
    affectedNodes: seq<Name>,
    affectedPrefixes: seq<string>,
    paths: seq<AccessPath>)

  datatype AuditError =
    | NoAccessNode
    | NoServiceNode
    | NoScenario
    | DuplicateScenario
    | NoBaselinePath(access: Name)
    | UnknownComponent(error: TopologyError)

  // ----- what a fault does, by walks

  function AccessNodes(t: Topology): set<Name> {
    set n | n in t.nodes && t.nodes[n].role == Access
  }

  function ServiceNodes(t: Topology): set<Name> {
    set n | n in t.nodes && t.nodes[n].role == Service
  }

  ghost function Baseline(t: Topology, access: Name): Option<int>
    requires t.Valid()
  {
    Distance(t, NO_CUT, access, ServiceNodes(t))
  }

  ghost function PostFault(t: Topology, cut: Cut, access: Name): Option<int>
    requires t.Valid()
  {
    Distance(t, cut, access, ServiceNodes(t))
  }

  ghost predicate HasBaselines(t: Topology)
    requires t.Valid()
  {
    forall a | a in AccessNodes(t) :: Baseline(t, a).Some?
  }

  /** Access nodes the fault leaves without any service path. */
  ghost function Unavailable(t: Topology, cut: Cut): set<Name>
    requires t.Valid()
  {
    set a | a in AccessNodes(t) && EveryWalkUses(t, cut, a, ServiceNodes(t))
  }

  /** Access nodes still connected, but by no walk that was optimal before the fault. */
  ghost function DegradedNodes(t: Topology, cut: Cut): set<Name>
    requires t.Valid()
  {
    set a | a in AccessNodes(t) - Unavailable(t, cut) && EveryOptimalWalkUses(t, cut, a, ServiceNodes(t))
  }

  ghost function ImpactOf(t: Topology, cut: Cut): ServiceImpact
    requires t.Valid()
  {
    if Unavailable(t, cut) != {} then Outage
    else if DegradedNodes(t, cut) != {} then Degraded
    else RedundancyReduced
  }

  function Prefixes(t: Topology, names: seq<Name>): seq<string>
    requires forall n | n in names :: n in t.nodes
  {
    if names == [] then [] else t.nodes[names[0]].prefixes + Prefixes(t, names[1..])
  }

  /** Where the given nodes declare the prefix. */
  ghost function Declarations(t: Topology, names: set<Name>, prefix: string): set<(Name, int)> {
    set n, k | n in names && n in t.nodes && 0 <= k < |t.nodes[n].prefixes| && t.nodes[n].prefixes[k] == prefix ::
        (n, k)
  }

  /** Every prefix that the nodes declare, in order, each as often as they declare it in total. */
  ghost predicate ListsPrefixes(t: Topology, names: set<Name>, prefixes: seq<string>) {
    Text.Ascending(prefixes) && forall p :: multiset(prefixes)[p] == |Declarations(t, names, p)|
  }

  ghost function Positions(n: Name, s: seq<string>, prefix: string): set<(Name, int)> {
    set k | 0 <= k < |s| && s[k] == prefix :: (n, k)
  }

  lemma {:induction false} PositionCount(n: Name, s: seq<string>, prefix: string)
    ensures |Positions(n, s, prefix)| == multiset(s)[prefix]
  {
    if s != [] {
      var before, last := s[..|s| - 1], s[|s| - 1];
      PositionCount(n, before, prefix);
      assert s == before + [last];
      assert Positions(n, s, prefix)
          == Positions(n, before, prefix) + if last == prefix then {(n, |before|)} else {};
      assert (n, |before|) !in Positions(n, before, prefix);
    }
  }

  lemma {:induction false} PrefixesAreDeclared(t: Topology, names: seq<Name>, prefix: string)
    requires Text.StrictlyAscending(names) && forall n | n in names :: n in t.nodes
    ensures multiset(Prefixes(t, names))[prefix] == |Declarations(t, (set n | n in names), prefix)|
  {
    if names == [] {
      assert Declarations(t, {}, prefix) == {};
    } else {
      var first, rest := names[0], names[1..];
      assert names == [first] + rest;
      PrefixesAreDeclared(t, rest, prefix);
      PositionCount(first, t.nodes[first].prefixes, prefix);
      Text.LessIrreflexive(first);
      var here, there := Positions(first, t.nodes[first].prefixes, prefix),
          Declarations(t, (set n | n in rest), prefix);
      assert Declarations(t, (set n | n in names), prefix) == here + there;
      assert here !! there;
    }
  }

  lemma SortedPrefixes(t: Topology, names: set<Name>)
    requires forall n | n in names :: n in t.nodes
    ensures ListsPrefixes(t, names, Text.Sorted(Prefixes(t, Text.SortedSet(names))))
  {
    forall p ensures multiset(Prefixes(t, Text.SortedSet(names)))[p] == |Declarations(t, names, p)| {
      PrefixesAreDeclared(t, Text.SortedSet(names), p);
      assert (set n | n in Text.SortedSet(names)) == names;
    }
  }

  ghost predicate IsPath(t: Topology, cut: Cut, access: Name, p: AccessPath)
    requires t.Valid()
  {
    p.accessNode == access && Baseline(t, access) == Some(p.baselineCost)
        && p.postFaultCost == PostFault(t, cut, access)
  }

  /** One path per access node, in the given order, each the baseline and post-fault minimum. */
  ghost predicate PathsFor(t: Topology, cut: Cut, accessNodes: seq<Name>, paths: seq<AccessPath>)
    requires t.Valid()
  {
    |paths| == |accessNodes| && forall i | 0 <= i < |paths| :: IsPath(t, cut, accessNodes[i], paths[i])
  }

  /** The audit's answer for one fault, stated without its algorithm. */
  ghost predicate Classifies(t: Topology, fault: FaultScenario, r: ScenarioResult)
    requires t.Valid()
  {
    var affected := Unavailable(t, fault.cut) + DegradedNodes(t, fault.cut);
    && r.fault == fault
    && r.impact == ImpactOf(t, fault.cut)
    && r.affectedNodes == Text.SortedSet(affected)
    && (forall n | n in r.affectedNodes :: n in t.nodes)
    && ListsPrefixes(t, affected, r.affectedPrefixes)
    && PathsFor(t, fault.cut, Text.SortedSet(AccessNodes(t)), r.paths)
  }

  /** The code's test on costs is the classification by walks; in particular a cost never drops. */
  lemma CostTestMeansWalks(t: Topology, cut: Cut, access: Name)
    requires t.Valid() && access in AccessNodes(t) && Baseline(t, access).Some?
    ensures PostFault(t, cut, access).None? <==> access in Unavailable(t, cut)
    ensures PostFault(t, cut, access).Some? && PostFault(t, cut, access).value > Baseline(t, access).value
       <==> access in DegradedNodes(t, cut)
    ensures PostFault(t, cut, access) == Baseline(t, access)
       <==> access !in Unavailable(t, cut) + DegradedNodes(t, cut)
  {
    UnavailableMeansCutOff(t, cut, access, ServiceNodes(t));
    UnchangedMeansOptimalSurvives(t, cut, access, ServiceNodes(t));
    LargerCutCostsMore(t, NO_CUT, cut, access, ServiceNodes(t));
  }

  /** A prefix is reported as affected exactly when some affected access node declares it. */
  lemma AffectedPrefixesAreDeclared(t: Topology, fault: FaultScenario, r: ScenarioResult, prefix: string)
    requires t.Valid() && Classifies(t, fault, r)
    ensures prefix in r.affectedPrefixes <==>
            exists a :: a in Unavailable(t, fault.cut) + DegradedNodes(t, fault.cut) && prefix in t.nodes[a].prefixes
  {
    DeclaredIff(t, Unavailable(t, fault.cut) + DegradedNodes(t, fault.cut), r.affectedPrefixes, prefix);
  }

  lemma DeclaredIff(t: Topology, names: set<Name>, prefixes: seq<string>, prefix: string)
    requires ListsPrefixes(t, names, prefixes) && forall n | n in names :: n in t.nodes
    ensures prefix in prefixes <==> exists n :: n in names && prefix in t.nodes[n].prefixes
  {
    var where := Declarations(t, names, prefix);
    assert prefix in prefixes <==> multiset(prefixes)[prefix] > 0;
    if prefix in prefixes {
      assert where != {};
      var w :| w in where;
      assert prefix in t.nodes[w.0].prefixes;
    }
    if n :| n in names && prefix in t.nodes[n].prefixes {
      var k :| 0 <= k < |t.nodes[n].prefixes| && t.nodes[n].prefixes[k] == prefix;
      assert (n, k) in where;
    }
  }

  /** The impact is what the costs say: some path lost, else some path dearer, else every path as it was. */
  lemma ImpactMeans(t: Topology, cut: Cut)
    requires t.Valid() && HasBaselines(t)
    ensures ImpactOf(t, cut) == Outage <==> exists a :: a in AccessNodes(t) && PostFault(t, cut, a).None?
    ensures ImpactOf(t, cut) == Degraded <==>
            && (forall a | a in AccessNodes(t) :: PostFault(t, cut, a).Some?)
            && (exists a :: a in AccessNodes(t) && PostFault(t, cut, a).value > Baseline(t, a).value)
    ensures ImpactOf(t, cut) == RedundancyReduced <==>
            forall a | a in AccessNodes(t) :: PostFault(t, cut, a) == Baseline(t, a)
  {
    forall a | a in AccessNodes(t)
      ensures a in Unavailable(t, cut) <==> PostFault(t, cut, a).None?
      ensures a in DegradedNodes(t, cut) <==>
              PostFault(t, cut, a).Some? && PostFault(t, cut, a).value > Baseline(t, a).value
      ensures PostFault(t, cut, a) == Baseline(t, a) <==> a !in Unavailable(t, cut) + DegradedNodes(t, cut)
    {
      CostTestMeansWalks(t, cut, a);
    }
  }

  // ----- the audit engine

  /** The first of the nodes, as listed, without a service path. */
  ghost predicate NoneBefore(t: Topology, accessNodes: seq<Name>, access: Name)
    requires t.Valid()
  {
    exists i | 0 <= i < |accessNodes| ::
      && accessNodes[i] == access && Baseline(t, access).None?
      && forall j | 0 <= j < i :: Baseline(t, accessNodes[j]).Some?
  }

  lemma FirstInOrder(t: Topology, accessNodes: seq<Name>, access: Name)
    requires t.Valid() && accessNodes == Text.SortedSet(AccessNodes(t)) && NoneBefore(t, accessNodes, access)
    ensures FirstWithoutPath(t, access)
  {
    var i :| 0 <= i < |accessNodes| && accessNodes[i] == access
        && forall j | 0 <= j < i :: Baseline(t, accessNodes[j]).Some?;
    assert access in accessNodes;
    forall a | a in AccessNodes(t) && Text.Less(a, access) ensures Baseline(t, a).Some? {
      assert a in accessNodes;
      var j :| 0 <= j < |accessNodes| && accessNodes[j] == a;
      Text.LessIrreflexive(a);
      if i < j {
        Text.LessAsymmetric(a, access);
      }
    }
  }

  method BaselineCosts(t: Topology, accessNodes: seq<Name>) returns (r: Result<map<Name, int>, AuditError>)
    requires t.Valid() && forall a | a in accessNodes :: a in t.nodes
    ensures r.Success? <==> forall a | a in accessNodes :: Baseline(t, a).Some?
    ensures r.Success? ==> forall a | a in accessNodes :: a in r.value && Baseline(t, a) == Some(r.value[a])
    ensures r.Failure? ==> r.error.NoBaselinePath? && NoneBefore(t, accessNodes, r.error.access)
  {
    var costs: map<Name, int> := map[];
    for i := 0 to |accessNodes|
      invariant forall j | 0 <= j < i ::
                  accessNodes[j] in costs && Baseline(t, accessNodes[j]) == Some(costs[accessNodes[j]])
    {
      var access := accessNodes[i];
      var answer := ShortestDistance(t, access, ServiceNodes(t), None, None);
      var distance := answer.value;
      assert access in accessNodes;
      if distance.None? {
        return Failure(NoBaselinePath(access));
      }
      costs := costs[access := distance.value];
    }
    return Success(costs);
  }

  /** The members of `wanted` among the names seen. */
  ghost predicate Collected(found: set<Name>, seen: seq<Name>, wanted: set<Name>) {
    forall a :: a in found <==> a in seen && a in wanted
  }

  lemma CollectedStep(found: set<Name>, seen: seq<Name>, wanted: set<Name>, a: Name)
    requires Collected(found, seen, wanted)
    ensures Collected(if a in wanted then found + {a} else found, seen + [a], wanted)
  {
    assert forall x :: x in seen + [a] <==> x in seen || x == a;
  }

  ghost predicate Tally(t: Topology, cut: Cut, accessNodes: seq<Name>, unavailable: set<Name>, degraded: set<Name>,
                        paths: seq<AccessPath>)
    requires t.Valid()
  {
    && Collected(unavailable, accessNodes, Unavailable(t, cut))
    && Collected(degraded, accessNodes, DegradedNodes(t, cut))
    && PathsFor(t, cut, accessNodes, paths)
  }

  lemma TallyStep(t: Topology, cut: Cut, accessNodes: seq<Name>, unavailable: set<Name>, degraded: set<Name>,
                  paths: seq<AccessPath>, access: Name, path: AccessPath)
    requires t.Valid() && Tally(t, cut, accessNodes, unavailable, degraded, paths)
    requires access in AccessNodes(t) && IsPath(t, cut, access, path)
    ensures var none := path.postFaultCost.None?;
            var worse := path.postFaultCost.Some? && path.postFaultCost.value > path.baselineCost;
            Tally(t, cut, accessNodes + [access],
                  if none then unavailable + {access} else unavailable,
                  if worse then degraded + {access} else degraded,
                  paths + [path])
  {
    CostTestMeansWalks(t, cut, access);
    CollectedStep(unavailable, accessNodes, Unavailable(t, cut), access);
    CollectedStep(degraded, accessNodes, DegradedNodes(t, cut), access);
    PathsStep(t, cut, accessNodes, paths, access, path);
  }

  lemma PathsStep(t: Topology, cut: Cut, accessNodes: seq<Name>, paths: seq<AccessPath>, access: Name, path: AccessPath)
    requires t.Valid() && PathsFor(t, cut, accessNodes, paths) && IsPath(t, cut, access, path)
    ensures PathsFor(t, cut, accessNodes + [access], paths + [path])
  {
  }

  /** The inner loop: each access node's cost under the fault against its baseline. */
  method ComparePaths(t: Topology, cut: Cut, accessNodes: seq<Name>, baseline: map<Name, int>)
    returns (unavailable: set<Name>, degraded: set<Name>, paths: seq<AccessPath>)
    requires t.Valid() && t.Knows(cut)
    requires forall a | a in accessNodes :: a in AccessNodes(t) && a in baseline && Baseline(t, a) == Some(baseline[a])
    ensures Tally(t, cut, accessNodes, unavailable, degraded, paths)
  {
    unavailable, degraded, paths := {}, {}, [];
    for i := 0 to |accessNodes|
      invariant Tally(t, cut, accessNodes[..i], unavailable, degraded, paths)
    {
      var access := accessNodes[i];
      assert access in accessNodes;
      var answer := ShortestDistanceExcluding(t, access, ServiceNodes(t), cut);
      var after := answer.value;
      PrefixStep(accessNodes, i);
      TallyStep(t, cut, accessNodes[..i], unavailable, degraded, paths, access,
                AccessPath(access, baseline[access], after));
      paths := paths + [AccessPath(access, baseline[access], after)];
      if after.None? {
        unavailable := unavailable + {access};
      } else if after.value > baseline[access] {
        degraded := degraded + {access};
      }
    }
    assert accessNodes[..|accessNodes|] == accessNodes;
  }

  ghost predicate Auditable(t: Topology, scenarios: seq<FaultScenario>)
    requires t.Valid()
  {
    && AccessNodes(t) != {} && ServiceNodes(t) != {} && scenarios != []
    && DistinctIds(scenarios)
    && HasBaselines(t)
    && forall s | s in scenarios :: t.Knows(s.cut)
  }

  predicate DistinctIds(scenarios: seq<FaultScenario>) {
    forall i, j | 0 <= i < j < |scenarios| :: scenarios[i].id != scenarios[j].id
  }

  method ClassifyFault(t: Topology, fault: FaultScenario, accessNodes: seq<Name>, baseline: map<Name, int>)
    returns (r: ScenarioResult)
    requires t.Valid() && t.Knows(fault.cut) && accessNodes == Text.SortedSet(AccessNodes(t))
    requires forall a | a in accessNodes :: a in baseline && Baseline(t, a) == Some(baseline[a])
    ensures Classifies(t, fault, r)
  {
    var unavailable, degraded, paths := ComparePaths(t, fault.cut, accessNodes, baseline);
    assert unavailable == Unavailable(t, fault.cut) && degraded == DegradedNodes(t, fault.cut);
    var impact := if unavailable != {} then Outage else if degraded != {} then Degraded else RedundancyReduced;
    var affectedNodes := Text.SortedSet(unavailable + degraded);
    SortedPrefixes(t, unavailable + degraded);
    r := ScenarioResult(fault, impact, affectedNodes, Text.Sorted(Prefixes(t, affectedNodes)), paths);
  }

  /** The error names an undeclared component of the first scenario that has one, a link if it has one of those. */
  ghost predicate FirstUnknown(t: Topology, scenarios: seq<FaultScenario>, e: TopologyError) {
    exists i | 0 <= i < |scenarios| ::
      && (forall j | 0 <= j < i :: t.Knows(scenarios[j].cut))
      && NamesUnknown(t, scenarios[i].cut, e)
  }

  ghost predicate NamesUnknown(t: Topology, cut: Cut, e: TopologyError) {
    match e
    case UnknownLink(link) => link in cut.links - t.LinkIds()
    case UnknownNode(node) => cut.links <= t.LinkIds() && node in cut.nodes - t.nodes.Keys
    case _ => false
  }

  /** The first access node, in name order, without a service path. */
  ghost predicate FirstWithoutPath(t: Topology, access: Name)
    requires t.Valid()
  {
    && access in AccessNodes(t) && Baseline(t, access).None?
    && forall a | a in AccessNodes(t) && Text.Less(a, access) :: Baseline(t, a).Some?
  }

  method ClassifyAll(t: Topology, scenarios: seq<FaultScenario>, accessNodes: seq<Name>, baseline: map<Name, int>)
    returns (r: Result<seq<ScenarioResult>, AuditError>)
    requires t.Valid() && accessNodes == Text.SortedSet(AccessNodes(t))
    requires forall a | a in accessNodes :: a in baseline && Baseline(t, a) == Some(baseline[a])
    ensures r.Success? <==> forall s | s in scenarios :: t.Knows(s.cut)
    ensures r.Success? ==>
              |r.value| == |scenarios| && forall i | 0 <= i < |scenarios| :: Classifies(t, scenarios[i], r.value[i])
    ensures r.Failure? ==> r.error.UnknownComponent? && FirstUnknown(t, scenarios, r.error.error)
  {
    var results: seq<ScenarioResult> := [];
    for i := 0 to |scenarios|
      invariant |results| == i
      invariant forall j | 0 <= j < i :: t.Knows(scenarios[j].cut)
      invariant forall j | 0 <= j < i :: Classifies(t, scenarios[j], results[j])
    {
      var fault := scenarios[i];
      if link :| link in fault.cut.links && link !in t.LinkIds() {
        assert fault in scenarios && !t.Knows(fault.cut);
        return Failure(UnknownComponent(UnknownLink(link)));
      }
      if node :| node in fault.cut.nodes && node !in t.nodes {
        assert fault in scenarios && !t.Knows(fault.cut);
        return Failure(UnknownComponent(UnknownNode(node)));
      }
      var result := ClassifyFault(t, fault, accessNodes, baseline);
      results := results + [result];
    }
    return Success(results);
  }

  /** The first check that fails, in the order they are made, and what it names. */
  ghost predicate RefusedFor(t: Topology, scenarios: seq<FaultScenario>, e: AuditError)
    requires t.Valid()
  {
    var hasNodes := AccessNodes(t) != {} && ServiceNodes(t) != {};
    match e
    case NoAccessNode => AccessNodes(t) == {}
    case NoServiceNode => AccessNodes(t) != {} && ServiceNodes(t) == {}
    case NoScenario => hasNodes && scenarios == []
    case DuplicateScenario => hasNodes && !DistinctIds(scenarios)
    case NoBaselinePath(a) => hasNodes && scenarios != [] && DistinctIds(scenarios) && FirstWithoutPath(t, a)
    case UnknownComponent(x) => hasNodes && DistinctIds(scenarios) && HasBaselines(t) && FirstUnknown(t, scenarios, x)
  }

  method AuditFaultScenarios(t: Topology, scenarios: seq<FaultScenario>)
    returns (r: Result<seq<ScenarioResult>, AuditError>)
    requires t.Valid()
    ensures r.Success? <==> Auditable(t, scenarios)
    ensures r.Success? ==>
              |r.value| == |scenarios| && forall i | 0 <= i < |scenarios| :: Classifies(t, scenarios[i], r.value[i])
    ensures r.Failure? ==> RefusedFor(t, scenarios, r.error)
  {
    var accessNodes := Text.SortedSet(AccessNodes(t));
    if accessNodes == [] {
      return Failure(NoAccessNode);
    }
    assert accessNodes[0] in AccessNodes(t);
    if ServiceNodes(t) == {} {
      return Failure(NoServiceNode);
    }
    if scenarios == [] {
      return Failure(NoScenario);
    }
    if !DistinctIds(scenarios) {
      return Failure(DuplicateScenario);
    }
    var costs := BaselineCosts(t, accessNodes);
    if costs.Failure? {
      FirstInOrder(t, accessNodes, costs.error.access);
      return Failure(costs.error);
    }
    var baseline := costs.value;
    assert HasBaselines(t) by {
      assert forall a | a in AccessNodes(t) :: a in accessNodes;
    }
    r := ClassifyAll(t, scenarios, accessNodes, baseline);
  }

  // ----- verdicts over a whole audit

  function Count(results: seq<ScenarioResult>, impact: ServiceImpact): nat {
    if results == [] then 0
    else Count(results[..|results| - 1], impact) + if results[|results| - 1].impact == impact then 1 else 0
  }

  predicate PassesNMinusOne(results: seq<ScenarioResult>) {
    Count(results, Outage) == 0
  }

  lemma {:induction false} CountZero(results: seq<ScenarioResult>, impact: ServiceImpact)
    ensures Count(results, impact) == 0 <==> forall r | r in results :: r.impact != impact
  {
    if results != [] {
      CountZero(results[..|results| - 1], impact);
      assert results == results[..|results| - 1] + [results[|results| - 1]];
    }
  }

  lemma {:induction false} CountsPartition(results: seq<ScenarioResult>)
    ensures Count(results, Outage) + Count(results, Degraded) + Count(results, RedundancyReduced) == |results|
  {
    if results != [] {
      CountsPartition(results[..|results| - 1]);
    }
  }

  /** The scenarios of one impact. */
  ghost function OfImpact(results: seq<ScenarioResult>, impact: ServiceImpact): set<int> {
    set i | 0 <= i < |results| && results[i].impact == impact
  }

  lemma OfImpactStep(results: seq<ScenarioResult>, last: ScenarioResult, impact: ServiceImpact)
    ensures OfImpact(results + [last], impact)
              == OfImpact(results, impact) + if last.impact == impact then {|results|} else {}
  {
  }

  /** A count is the number of scenarios of that impact. */
  lemma {:induction false} CountIsCardinality(results: seq<ScenarioResult>, impact: ServiceImpact)
    ensures Count(results, impact) == |OfImpact(results, impact)|
  {
    if results == [] {
      assert OfImpact(results, impact) == {};
    } else {
      var before, last := results[..|results| - 1], results[|results| - 1];
      CountIsCardinality(before, impact);
      OfImpactStep(before, last, impact);
      assert results == before + [last];
      assert |before| !in OfImpact(before, impact);
    }
  }

  /** Some walk to a service node relies on no component of the fault. */
  ghost predicate KeepsService(t: Topology, cut: Cut, access: Name) {
    exists walk, v :: v in ServiceNodes(t) && Walk(t, NO_CUT, access, walk, v) && !Uses(cut, walk, v)
  }

  lemma OutageMeansSomeoneCutOff(t: Topology, cut: Cut)
    requires t.Valid()
    ensures ImpactOf(t, cut) != Outage <==> forall a | a in AccessNodes(t) :: KeepsService(t, cut, a)
  {
    assert forall a | a in AccessNodes(t) :: a in Unavailable(t, cut) <==> !KeepsService(t, cut, a);
  }

  /** The audit passes exactly when every access node keeps a service walk under every fault. */
  lemma PassMeansNoSinglePointOfFailure(t: Topology, scenarios: seq<FaultScenario>, results: seq<ScenarioResult>)
    requires t.Valid() && |results| == |scenarios|
    requires forall i | 0 <= i < |scenarios| :: Classifies(t, scenarios[i], results[i])
    ensures PassesNMinusOne(results) <==>
            forall s, a | s in scenarios && a in AccessNodes(t) :: KeepsService(t, s.cut, a)
  {
    CountZero(results, Outage);
    forall s | s in scenarios ensures ImpactOf(t, s.cut) != Outage
        <==> forall a | a in AccessNodes(t) :: KeepsService(t, s.cut, a) {
      OutageMeansSomeoneCutOff(t, s.cut);
    }
  }

  function Severity(impact: ServiceImpact): int {
    match impact
    case RedundancyReduced => 0
    case Degraded => 1
    case Outage => 2
  }

  /** A larger fault is at least as severe, node by node and overall. */
  lemma SharedRiskDominates(t: Topology, cut: Cut, larger: Cut)
    requires t.Valid() && HasBaselines(t) && cut.Within(larger)
    ensures forall a | a in AccessNodes(t) :: NoCheaper(PostFault(t, larger, a), PostFault(t, cut, a))
    ensures Unavailable(t, cut) <= Unavailable(t, larger)
    ensures DegradedNodes(t, cut) <= Unavailable(t, larger) + DegradedNodes(t, larger)
    ensures Severity(ImpactOf(t, cut)) <= Severity(ImpactOf(t, larger))
  {
    forall a | a in AccessNodes(t)
      ensures NoCheaper(PostFault(t, larger, a), PostFault(t, cut, a))
      ensures a in Unavailable(t, cut) ==> a in Unavailable(t, larger)
      ensures a in DegradedNodes(t, cut) ==> a in Unavailable(t, larger) + DegradedNodes(t, larger)
    {
      LargerCutCostsMore(t, cut, larger, a, ServiceNodes(t));
      CostTestMeansWalks(t, cut, a);
      CostTestMeansWalks(t, larger, a);
    }
  }

  // ----- single faults of the design

  function LinkFaults(t: Topology): seq<FaultScenario> {
    var ids := Text.SortedSet(t.LinkIds());
    seq(|ids|, i requires 0 <= i < |ids| => LinkScenario(ids[i]))
  }

  function NodeFaults(t: Topology): seq<FaultScenario> {
    var names := Text.SortedSet(TransportNodes(t));
    seq(|names|, i requires 0 <= i < |names| => NodeScenario(names[i]))
  }

  function LinkScenario(link: string): FaultScenario {
    FaultScenario("link:" + link, LinkFault, Cut({link}, {}))
  }

  function NodeScenario(node: Name): FaultScenario {
    FaultScenario("node:" + node, NodeFault, Cut({}, {node}))
  }

  function TransportNodes(t: Topology): set<Name> {
    set n | n in t.nodes && t.nodes[n].role in {Aggregation, Core}
  }

  /** The link faults: one for each declared link, named after it, with nothing else in its cut. */
  lemma LinkFaultsAreTheLinks(t: Topology)
    ensures forall s :: s in LinkFaults(t) <==>
              exists l :: l in t.links && s == FaultScenario("link:" + l.id, LinkFault, Cut({l.id}, {}))
    ensures |LinkFaults(t)| == |t.LinkIds()|
  {
    var ids := Text.SortedSet(t.LinkIds());
    Text.SortedSetLength(t.LinkIds());
    forall s ensures s in LinkFaults(t) <==> exists l :: l in t.links && s == LinkScenario(l.id) {
      if s in LinkFaults(t) {
        var i :| 0 <= i < |ids| && LinkFaults(t)[i] == s;
        assert ids[i] in t.LinkIds();
      }
      if l :| l in t.links && s == LinkScenario(l.id) {
        assert l.id in ids;
        var i :| 0 <= i < |ids| && ids[i] == l.id;
        assert LinkFaults(t)[i] == s;
      }
    }
  }

  /** The node faults: one for each aggregation or core node, named after it, with nothing else in its cut. */
  lemma NodeFaultsAreTheTransportNodes(t: Topology)
    ensures forall s :: s in NodeFaults(t) <==>
              exists n :: n in TransportNodes(t) && s == FaultScenario("node:" + n, NodeFault, Cut({}, {n}))
    ensures forall n :: n in TransportNodes(t) <==>
              n in t.nodes && (t.nodes[n].role == Aggregation || t.nodes[n].role == Core)
    ensures |NodeFaults(t)| == |TransportNodes(t)|
  {
    var names := Text.SortedSet(TransportNodes(t));
    Text.SortedSetLength(TransportNodes(t));
    forall s ensures s in NodeFaults(t) <==> exists n :: n in TransportNodes(t) && s == NodeScenario(n) {
      if s in NodeFaults(t) {
        var i :| 0 <= i < |names| && NodeFaults(t)[i] == s;
        assert names[i] in names;
      }
      if n :| n in TransportNodes(t) && s == NodeScenario(n) {
        assert n in names;
        var i :| 0 <= i < |names| && names[i] == n;
        assert NodeFaults(t)[i] == s;
      }
    }
  }

  /** A shared-risk group that is no outage contains no component whose own failure is one. */
  lemma SurvivableGroupHasNoCriticalMember(t: Topology, group: Cut)
    requires t.Valid() && HasBaselines(t) && ImpactOf(t, group) != Outage
    ensures forall l | l in group.links :: ImpactOf(t, LinkScenario(l).cut) != Outage
    ensures forall n | n in group.nodes :: ImpactOf(t, NodeScenario(n).cut) != Outage
  {
    forall l | l in group.links ensures ImpactOf(t, LinkScenario(l).cut) != Outage {
      SharedRiskDominates(t, LinkScenario(l).cut, group);
    }
    forall n | n in group.nodes ensures ImpactOf(t, NodeScenario(n).cut) != Outage {
      SharedRiskDominates(t, NodeScenario(n).cut, group);
    }
  }

  lemma OneLinkService(t: Topology, cut: Cut, l: Link)
    requires t.Valid() && cut.nodes == {} && l in t.links && l.id !in cut.links && l.endpointB in ServiceNodes(t)
    ensures PostFault(t, cut, l.endpointA).Some?
  {
    var walk := [l];
    assert walk[..|walk| - 1] == [];
    assert Walk(t, cut, l.endpointA, walk, l.endpointB);
    assert Attains(t, cut, l.endpointA, l.endpointB, Cost(walk));
    assert Reaches(t, cut, l.endpointA, ServiceNodes(t), Cost(walk));
  }

  lemma SoleAccess(t: Topology, cut: Cut, access: Name)
    requires t.Valid() && AccessNodes(t) == {access}
    ensures ImpactOf(t, cut) == Outage <==> PostFault(t, cut, access).None?
  {
    UnavailableMeansCutOff(t, cut, access, ServiceNodes(t));
    assert access in Unavailable(t, cut) <==> Unavailable(t, cut) != {};
  }

  /** Parallel links between the only access node and a service node: each alone is survivable, both are not. */
  lemma ParallelPair(t: Topology, p: Link, q: Link)
    requires t.Valid() && t.links == [p, q] && AccessNodes(t) == {p.endpointA}
    requires p.endpointA == q.endpointA && p.endpointB in ServiceNodes(t) && q.endpointB in ServiceNodes(t)
    ensures HasBaselines(t)
    ensures ImpactOf(t, LinkScenario(p.id).cut) != Outage && ImpactOf(t, LinkScenario(q.id).cut) != Outage
    ensures ImpactOf(t, Cut({p.id, q.id}, {})) == Outage
  {
    assert p == t.links[0] && q == t.links[1];
    assert t.LinkIds() == {p.id, q.id};
    OneLinkService(t, NO_CUT, p);
    OneLinkService(t, LinkScenario(p.id).cut, q);
    OneLinkService(t, LinkScenario(q.id).cut, p);
    SoleAccess(t, Cut({p.id, q.id}, {}), p.endpointA);
    SoleAccess(t, LinkScenario(p.id).cut, p.endpointA);
    SoleAccess(t, LinkScenario(q.id).cut, p.endpointA);
  }

  lemma TwoLinkDesign(a: Name, s: Name, p: Link, q: Link) returns (t: Topology)
    requires a != s && p.id != q.id && p.cost > 0 && q.cost > 0
    requires p.endpointA == q.endpointA == a && p.endpointB == q.endpointB == s
    ensures t.Valid() && t.links == [p, q] && AccessNodes(t) == {a} && s in ServiceNodes(t)
  {
    t := Topology(map[a := Node(a, Access, []), s := Node(s, Service, [])], [p, q]);
  }

  /** The converse fails: two links that are each survivable can be an outage together. */
  lemma SurvivableMembersCanBeAnOutage() returns (t: Topology, group: Cut)
    ensures t.Valid() && HasBaselines(t) && t.Knows(group)
    ensures forall l | l in group.links :: ImpactOf(t, LinkScenario(l).cut) != Outage
    ensures group.nodes == {} && ImpactOf(t, group) == Outage
  {
    assert "a" != "s" by { assert "a"[0] != "s"[0]; }
    assert "p" != "q" by { assert "p"[0] != "q"[0]; }
    var p, q := Link("p", "a", "s", 1), Link("q", "a", "s", 1);
    t := TwoLinkDesign("a", "s", p, q);
    group := Cut({p.id, q.id}, {});
    assert p == t.links[0] && q == t.links[1];
    ParallelPair(t, p, q);
  }
}
