/**
 The two designs that ship with the lab: the baseline of ten links, and the candidate whose service host has a
 second link.  What the audit and the runtime plan say of them is proved here from shortest-path certificates.
 */
module LabDesign {
  import opened Wrappers
  import opened Collections
  import Text
  import opened Topology
  import opened Paths
  import opened Audit
  import opened FailureDomain
  import opened RuntimePlan

  const A1: Name := "access1"
  const A2: Name := "access2"
  const G1: Name := "agg1"
  const G2: Name := "agg2"
  const C1: Name := "core1"
  const C2: Name := "core2"
  const S: Name := "service-host"

  /** The links of the candidate; the baseline has all but the last. */
  const LINKS: seq<Link> := [
    Link("access1--agg1", A1, G1, 10),
    Link("access1--agg2", A1, G2, 100),
    Link("access2--agg1", A2, G1, 100),
    Link("access2--agg2", A2, G2, 10),
    Link("agg1--core1", G1, C1, 10),
    Link("agg1--core2", G1, C2, 100),
    Link("agg2--core1", G2, C1, 100),
    Link("agg2--core2", G2, C2, 10),
    Link("core1--core2", C1, C2, 20),
    Link("core1--service-host", C1, S, 10),
    Link("core2--service-host", C2, S, 30)
  ]

  const PREFIX1 := "10.10.1.0/24"
  const PREFIX2 := "10.10.2.0/24"
  const BASELINE_SERVICE := "10.20.0.0/24"
  const CANDIDATE_SERVICE := "10.20.0.10/32"

  function Nodes(service: string): map<Name, Node> {
    map[A1 := Node(A1, Access, [PREFIX1]), A2 := Node(A2, Access, [PREFIX2]),
        G1 := Node(G1, Aggregation, []), G2 := Node(G2, Aggregation, []),
        C1 := Node(C1, Core, []), C2 := Node(C2, Core, []),
        S := Node(S, Service, [service])]
  }

  const BASELINE := Topology(Nodes(BASELINE_SERVICE), LINKS[..10])
  const CANDIDATE := Topology(Nodes(CANDIDATE_SERVICE), LINKS)

  // ----- names and identifiers

  lemma NamesDiffer()
    ensures A1 != A2 && G1 != G2 && C1 != C2 && PREFIX1 != PREFIX2
    ensures A1 !in {G1, G2, C1, C2, S} && A2 !in {G1, G2, C1, C2, S} && G1 !in {C1, C2, S} && G2 !in {C1, C2, S}
    ensures C1 != S && C2 != S
  {
    assert A1[6] != A2[6] && G1[3] != G2[3] && C1[4] != C2[4] && PREFIX1[6] != PREFIX2[6];
    assert |A1| == |A2| == 7 && |G1| == |G2| == 4 && |C1| == |C2| == 5 && |S| == 12;
  }

  lemma IdentifiersDiffer()
    ensures forall i, j | 0 <= i < j < |LINKS| :: LINKS[i].id != LINKS[j].id
  {
    assert |LINKS[0].id| == |LINKS[1].id| == |LINKS[2].id| == |LINKS[3].id| == 13;
    assert |LINKS[4].id| == |LINKS[5].id| == |LINKS[6].id| == |LINKS[7].id| == 11;
    assert |LINKS[8].id| == 12 && |LINKS[9].id| == |LINKS[10].id| == 19;
    assert LINKS[0].id[6] == LINKS[1].id[6] == '1' && LINKS[2].id[6] == LINKS[3].id[6] == '2';
    assert LINKS[0].id[12] == LINKS[2].id[12] == '1' && LINKS[1].id[12] == LINKS[3].id[12] == '2';
    assert LINKS[4].id[3] == LINKS[5].id[3] == '1' && LINKS[6].id[3] == LINKS[7].id[3] == '2';
    assert LINKS[4].id[10] == LINKS[6].id[10] == '1' && LINKS[5].id[10] == LINKS[7].id[10] == '2';
    assert LINKS[9].id[4] == '1' && LINKS[10].id[4] == '2';
  }

  const NAMES: set<Name> := {A1, A2, G1, G2, C1, C2, S}

  predicate IsSound(l: Link) {
    l.cost > 0 && l.endpointA != l.endpointB && l.endpointA in NAMES && l.endpointB in NAMES
  }

  lemma LinksAreSound()
    ensures forall i | 0 <= i < |LINKS| :: IsSound(LINKS[i])
  {
    NamesDiffer();
    assert IsSound(LINKS[0]) && IsSound(LINKS[1]) && IsSound(LINKS[2]) && IsSound(LINKS[3]);
    assert IsSound(LINKS[4]) && IsSound(LINKS[5]) && IsSound(LINKS[6]) && IsSound(LINKS[7]);
    assert IsSound(LINKS[8]) && IsSound(LINKS[9]) && IsSound(LINKS[10]);
  }

  lemma SoundLinksMakeTopology(t: Topology)
    requires t.nodes.Keys == NAMES && forall n | n in t.nodes :: t.nodes[n].name == n
    requires forall i, j | 0 <= i < j < |t.links| :: t.links[i].id != t.links[j].id
    requires forall i | 0 <= i < |t.links| :: IsSound(t.links[i])
    ensures t.Valid()
  {
    forall l | l in t.links ensures IsSound(l) {
      var i :| 0 <= i < |t.links| && t.links[i] == l;
    }
  }

  lemma NodesAreNamed(service: string)
    ensures Nodes(service).Keys == NAMES && forall n | n in Nodes(service) :: Nodes(service)[n].name == n
  {
    NamesDiffer();
  }

  lemma DesignsAreValid()
    ensures BASELINE.Valid() && CANDIDATE.Valid()
  {
    IdentifiersDiffer();
    LinksAreSound();
    NodesAreNamed(BASELINE_SERVICE);
    NodesAreNamed(CANDIDATE_SERVICE);
    SoundLinksMakeTopology(CANDIDATE);
    SoundLinksMakeTopology(BASELINE);
  }

  lemma Roles(service: string, links: seq<Link>)
    ensures var t := Topology(Nodes(service), links);
            && AccessNodes(t) == {A1, A2} && ServiceNodes(t) == {S} && TransportNodes(t) == {G1, G2, C1, C2}
            && t.nodes.Keys == {A1, A2, G1, G2, C1, C2, S}
  {
    NamesDiffer();
  }
  // ----- costs, from potentials: the shape of the two designs, whatever the names

  /** The nodes of a design, in their places. */
  datatype Places = Places(a1: Name, a2: Name, g1: Name, g2: Name, c1: Name, c2: Name, s: Name) {
    predicate Apart() {
      && a1 !in {a2, g1, g2, c1, c2, s} && a2 !in {g1, g2, c1, c2, s} && g1 !in {g2, c1, c2, s}
      && g2 !in {c1, c2, s} && c1 !in {c2, s} && c2 != s
    }
  }

  predicate Joins(l: Link, n: Name, m: Name, cost: int) {
    l.endpointA == n && l.endpointB == m && l.cost == cost
  }

  /** Ten links in their places, and perhaps an eleventh. */
  predicate Linked(links: seq<Link>, p: Places) {
    && 10 <= |links| <= 11
    && Joins(links[0], p.a1, p.g1, 10) && Joins(links[1], p.a1, p.g2, 100)
    && Joins(links[2], p.a2, p.g1, 100) && Joins(links[3], p.a2, p.g2, 10)
    && Joins(links[4], p.g1, p.c1, 10) && Joins(links[5], p.g1, p.c2, 100)
    && Joins(links[6], p.g2, p.c1, 100) && Joins(links[7], p.g2, p.c2, 10)
    && Joins(links[8], p.c1, p.c2, 20) && Joins(links[9], p.c1, p.s, 10)
    && (|links| == 11 ==> Joins(links[10], p.c2, p.s, 30))
  }

  ghost predicate HasShape(t: Topology, p: Places) {
    && t.Valid() && p.Apart() && Linked(t.links, p)
    && t.nodes.Keys == {p.a1, p.a2, p.g1, p.g2, p.c1, p.c2, p.s}
    && AccessNodes(t) == {p.a1, p.a2} && ServiceNodes(t) == {p.s}
  }

  /** Heights of the nodes above the service host. */
  datatype Heights = Heights(a1: int, a2: int, g1: int, g2: int, c1: int, c2: int)

  function Raised(p: Places, h: Heights): map<Name, int> {
    map[p.a1 := h.a1, p.a2 := h.a2, p.g1 := h.g1, p.g2 := h.g2, p.c1 := h.c1, p.c2 := h.c2, p.s := 0]
  }

  lemma RaisedAt(p: Places, h: Heights)
    requires p.Apart()
    ensures var height := Raised(p, h);
            && height.Keys == {p.a1, p.a2, p.g1, p.g2, p.c1, p.c2, p.s}
            && height[p.a1] == h.a1 && height[p.a2] == h.a2 && height[p.g1] == h.g1 && height[p.g2] == h.g2
            && height[p.c1] == h.c1 && height[p.c2] == h.c2 && height[p.s] == 0
  {
  }

  predicate Near(x: int, y: int, cost: int) {
    -cost <= x - y <= cost
  }

  /** Which links have to be gentle: those that are not cut. */
  ghost predicate Gentle(t: Topology, cut: Cut, p: Places, h: Heights, i: int, x: int, y: int, cost: int) {
    0 <= i < |t.links| && t.links[i].id !in cut.links && t.links[i].endpointA !in cut.nodes
        && t.links[i].endpointB !in cut.nodes
    ==> Near(x, y, cost)
  }

  lemma GentleIsPotential(t: Topology, cut: Cut, p: Places, h: Heights)
    requires HasShape(t, p)
    requires Gentle(t, cut, p, h, 0, h.a1, h.g1, 10) && Gentle(t, cut, p, h, 1, h.a1, h.g2, 100)
    requires Gentle(t, cut, p, h, 2, h.a2, h.g1, 100) && Gentle(t, cut, p, h, 3, h.a2, h.g2, 10)
    requires Gentle(t, cut, p, h, 4, h.g1, h.c1, 10) && Gentle(t, cut, p, h, 5, h.g1, h.c2, 100)
    requires Gentle(t, cut, p, h, 6, h.g2, h.c1, 100) && Gentle(t, cut, p, h, 7, h.g2, h.c2, 10)
    requires Gentle(t, cut, p, h, 8, h.c1, h.c2, 20) && Gentle(t, cut, p, h, 9, h.c1, 0, 10)
    requires Gentle(t, cut, p, h, 10, h.c2, 0, 30)
    ensures IsPotential(t, cut, Raised(p, h))
  {
    RaisedAt(p, h);
    forall l | l in t.links ensures NotSteep(cut, Raised(p, h), l) {
      var i :| 0 <= i < |t.links| && t.links[i] == l;
    }
  }

  /** The `i`-th link leads from `n` down to `m`. */
  ghost predicate GoesDown(t: Topology, cut: Cut, height: map<Name, int>, n: Name, i: nat, m: Name) {
    i < |t.links| && StepsDown(t, cut, height, n, t.links[i], m)
  }

  lemma ThreeDown(t: Topology, cut: Cut, height: map<Name, int>, a: Name, i: nat, b: Name, j: nat, c: Name, k: nat,
                  s: Name)
    requires t.Valid() && ServiceNodes(t) == {s} && IsPotential(t, cut, height) && s in height && height[s] == 0
    requires {a, b, c, s} <= t.nodes.Keys && {a, b, c, s} !! cut.nodes
    requires GoesDown(t, cut, height, a, i, b) && GoesDown(t, cut, height, b, j, c) && GoesDown(t, cut, height, c, k, s)
    ensures PostFault(t, cut, a) == Some(height[a])
  {
    var names, links := [a, b, c, s], [t.links[i], t.links[j], t.links[k]];
    assert forall n | n in names :: n in {a, b, c, s};
    HeightIsDistance(t, cut, {s}, height, names, links);
  }

  lemma FourDown(t: Topology, cut: Cut, height: map<Name, int>, a: Name, i: nat, b: Name, j: nat, c: Name, k: nat,
                 d: Name, l: nat, s: Name)
    requires t.Valid() && ServiceNodes(t) == {s} && IsPotential(t, cut, height) && s in height && height[s] == 0
    requires {a, b, c, d, s} <= t.nodes.Keys && {a, b, c, d, s} !! cut.nodes
    requires GoesDown(t, cut, height, a, i, b) && GoesDown(t, cut, height, b, j, c)
    requires GoesDown(t, cut, height, c, k, d) && GoesDown(t, cut, height, d, l, s)
    ensures PostFault(t, cut, a) == Some(height[a])
  {
    var names, links := [a, b, c, d, s], [t.links[i], t.links[j], t.links[k], t.links[l]];
    assert forall n | n in names :: n in {a, b, c, d, s};
    HeightIsDistance(t, cut, {s}, height, names, links);
  }

  /** Of the links only the `i`-th is cut, and no node; with `i` negative, nothing is. */
  ghost predicate CutsOnly(t: Topology, cut: Cut, i: int) {
    cut.nodes == {} && forall j | 0 <= j < |t.links| :: t.links[j].id in cut.links <==> j == i
  }

  lemma LinkStepsDown(t: Topology, cut: Cut, p: Places, h: Heights, i: nat)
    requires HasShape(t, p) && i < |t.links| && t.links[i].id !in cut.links
    ensures var l, height := t.links[i], Raised(p, h);
            && l.endpointA in height && l.endpointB in height
            && (height[l.endpointA] - height[l.endpointB] == l.cost ==>
                  GoesDown(t, cut, height, l.endpointA, i, l.endpointB))
            && (height[l.endpointB] - height[l.endpointA] == l.cost ==>
                  GoesDown(t, cut, height, l.endpointB, i, l.endpointA))
  {
    RaisedAt(p, h);
    var l := t.links[i];
    assert l in t.links;
    assert {l.endpointA, l.endpointB} == {l.endpointB, l.endpointA};
  }

  /** Both access nodes' costs. */
  ghost predicate Costs(t: Topology, cut: Cut, p: Places, first: Option<int>, second: Option<int>)
    requires t.Valid()
  {
    PostFault(t, cut, p.a1) == first && PostFault(t, cut, p.a2) == second
  }
  lemma UndamagedCosts(t: Topology, p: Places, cut: Cut)
    requires HasShape(t, p) && CutsOnly(t, cut, -1)
    ensures Costs(t, cut, p, Some(30), Some(50))
  {
    var h := Heights(30, 50, 20, 40, 10, 30);
    GentleIsPotential(t, cut, p, h);
    RaisedAt(p, h);
    LinkStepsDown(t, cut, p, h, 0);
    LinkStepsDown(t, cut, p, h, 4);
    LinkStepsDown(t, cut, p, h, 9);
    ThreeDown(t, cut, Raised(p, h), p.a1, 0, p.g1, 4, p.c1, 9, p.s);
    LinkStepsDown(t, cut, p, h, 3);
    LinkStepsDown(t, cut, p, h, 7);
    LinkStepsDown(t, cut, p, h, 8);
    FourDown(t, cut, Raised(p, h), p.a2, 3, p.g2, 7, p.c2, 8, p.c1, 9, p.s);
  }
  /** The second access node's way, which several failures leave alone. */
  lemma SecondKeepsItsWay(t: Topology, p: Places, cut: Cut, h: Heights)
    requires HasShape(t, p) && IsPotential(t, cut, Raised(p, h)) && cut.nodes == {}
    requires forall j | j in {3, 7, 8, 9} :: t.links[j].id !in cut.links
    requires h.a2 == 50 && h.g2 == 40 && h.c2 == 30 && h.c1 == 10
    ensures PostFault(t, cut, p.a2) == Some(50)
  {
    RaisedAt(p, h);
    LinkStepsDown(t, cut, p, h, 3);
    LinkStepsDown(t, cut, p, h, 7);
    LinkStepsDown(t, cut, p, h, 8);
    LinkStepsDown(t, cut, p, h, 9);
    FourDown(t, cut, Raised(p, h), p.a2, 3, p.g2, 7, p.c2, 8, p.c1, 9, p.s);
  }

  /** The first access node's detour over the second aggregation node. */
  lemma FirstTakesDetour(t: Topology, p: Places, cut: Cut, h: Heights)
    requires HasShape(t, p) && IsPotential(t, cut, Raised(p, h)) && cut.nodes == {}
    requires forall j | j in {1, 7, 8, 9} :: t.links[j].id !in cut.links
    requires h.a1 == 140 && h.g2 == 40 && h.c2 == 30 && h.c1 == 10
    ensures PostFault(t, cut, p.a1) == Some(140)
  {
    RaisedAt(p, h);
    LinkStepsDown(t, cut, p, h, 1);
    LinkStepsDown(t, cut, p, h, 7);
    LinkStepsDown(t, cut, p, h, 8);
    LinkStepsDown(t, cut, p, h, 9);
    FourDown(t, cut, Raised(p, h), p.a1, 1, p.g2, 7, p.c2, 8, p.c1, 9, p.s);
  }

  lemma AccessLinkCosts(t: Topology, p: Places, cut: Cut)
    requires HasShape(t, p) && CutsOnly(t, cut, 0)
    ensures Costs(t, cut, p, Some(140), Some(50))
  {
    var h := Heights(140, 50, 20, 40, 10, 30);
    GentleIsPotential(t, cut, p, h);
    FirstTakesDetour(t, p, cut, h);
    SecondKeepsItsWay(t, p, cut, h);
  }

  lemma CoreLinkCosts(t: Topology, p: Places, cut: Cut)
    requires HasShape(t, p) && CutsOnly(t, cut, 4)
    ensures Costs(t, cut, p, Some(140), Some(50))
  {
    var h := Heights(140, 50, 130, 40, 10, 30);
    GentleIsPotential(t, cut, p, h);
    FirstTakesDetour(t, p, cut, h);
    SecondKeepsItsWay(t, p, cut, h);
  }

  lemma ServiceLinkCosts(t: Topology, p: Places, cut: Cut)
    requires HasShape(t, p) && |t.links| == 11 && CutsOnly(t, cut, 9)
    ensures Costs(t, cut, p, Some(70), Some(50))
  {
    var h := Heights(70, 50, 60, 40, 50, 30);
    GentleIsPotential(t, cut, p, h);
    RaisedAt(p, h);
    LinkStepsDown(t, cut, p, h, 0);
    LinkStepsDown(t, cut, p, h, 4);
    LinkStepsDown(t, cut, p, h, 8);
    LinkStepsDown(t, cut, p, h, 10);
    FourDown(t, cut, Raised(p, h), p.a1, 0, p.g1, 4, p.c1, 8, p.c2, 10, p.s);
    LinkStepsDown(t, cut, p, h, 3);
    LinkStepsDown(t, cut, p, h, 7);
    ThreeDown(t, cut, Raised(p, h), p.a2, 3, p.g2, 7, p.c2, 10, p.s);
  }

  lemma CoreNodeCosts(t: Topology, p: Places, cut: Cut)
    requires HasShape(t, p) && |t.links| == 11 && cut == Cut({}, {p.c1})
    ensures Costs(t, cut, p, Some(140), Some(50))
  {
    var h := Heights(140, 50, 130, 40, 0, 30);
    GentleIsPotential(t, cut, p, h);
    RaisedAt(p, h);
    LinkStepsDown(t, cut, p, h, 1);
    LinkStepsDown(t, cut, p, h, 7);
    LinkStepsDown(t, cut, p, h, 10);
    ThreeDown(t, cut, Raised(p, h), p.a1, 1, p.g2, 7, p.c2, 10, p.s);
    LinkStepsDown(t, cut, p, h, 3);
    ThreeDown(t, cut, Raised(p, h), p.a2, 3, p.g2, 7, p.c2, 10, p.s);
  }

  lemma LastLinkCosts(t: Topology, p: Places, cut: Cut)
    requires HasShape(t, p) && |t.links| == 10 && CutsOnly(t, cut, 9)
    ensures Costs(t, cut, p, None, None)
  {
    var side := {p.a1, p.a2, p.g1, p.g2, p.c1, p.c2};
    forall l | l in t.links && l.id !in cut.links ensures l.endpointA in side && l.endpointB in side {
      var i :| 0 <= i < |t.links| && t.links[i] == l;
    }
    NoDistanceCertificate(t, cut, p.a1, {p.s}, side);
    NoDistanceCertificate(t, cut, p.a2, {p.s}, side);
  }

  // ----- what the audit reports

  /** Two access nodes, in order, each with one prefix, in order. */
  ghost predicate Ordered(t: Topology, p: Places, first: string, second: string) {
    && HasShape(t, p) && Text.Less(p.a1, p.a2) && Text.Less(first, second)
    && t.nodes[p.a1].prefixes == [first] && t.nodes[p.a2].prefixes == [second]
  }

  lemma SortedPair(a: string, b: string)
    requires Text.Less(a, b)
    ensures Text.SortedSet({a, b}) == [a, b]
  {
    Text.AscendingUnique(Text.SortedSet({a, b}), [a, b]);
  }

  lemma PathsReported(t: Topology, p: Places, first: string, second: string, fault: FaultScenario, r: ScenarioResult,
                      x: Option<int>, y: Option<int>)
    requires Ordered(t, p, first, second) && Classifies(t, fault, r) && Costs(t, fault.cut, p, x, y)
    ensures r.paths == [AccessPath(p.a1, 30, x), AccessPath(p.a2, 50, y)]
  {
    UndamagedCosts(t, p, NO_CUT);
    SortedPair(p.a1, p.a2);
    assert IsPath(t, fault.cut, p.a1, r.paths[0]) && IsPath(t, fault.cut, p.a2, r.paths[1]);
  }

  lemma OutageReported(t: Topology, p: Places, first: string, second: string, fault: FaultScenario, r: ScenarioResult)
    requires Ordered(t, p, first, second) && Classifies(t, fault, r) && Costs(t, fault.cut, p, None, None)
    ensures r.impact == Outage && r.affectedNodes == [p.a1, p.a2] && r.affectedPrefixes == [first, second]
  {
    BothAreCutOff(t, p, fault.cut);
    SortedPair(p.a1, p.a2);
    PairOfPrefixes(t, p.a1, p.a2, first, second, r.affectedPrefixes);
  }

  lemma BothAreCutOff(t: Topology, p: Places, cut: Cut)
    requires HasShape(t, p) && Costs(t, cut, p, None, None)
    ensures Unavailable(t, cut) + DegradedNodes(t, cut) == {p.a1, p.a2} && ImpactOf(t, cut) == Outage
  {
    BothAreLost(t, p, cut);
    AffectedAreAccess(t, cut);
    BothOfPair(Unavailable(t, cut), DegradedNodes(t, cut), p.a1, p.a2);
  }

  lemma BothAreLost(t: Topology, p: Places, cut: Cut)
    requires HasShape(t, p) && Costs(t, cut, p, None, None)
    ensures p.a1 in Unavailable(t, cut) && p.a2 in Unavailable(t, cut)
  {
    UndamagedCosts(t, p, NO_CUT);
    CostTestMeansWalks(t, cut, p.a1);
    CostTestMeansWalks(t, cut, p.a2);
  }

  lemma BothOfPair(lost: set<Name>, dearer: set<Name>, a: Name, b: Name)
    requires lost <= {a, b} && dearer <= {a, b} && a in lost && b in lost
    ensures lost != {} && lost + dearer == {a, b}
  {
  }

  lemma PairOfPrefixes(t: Topology, n: Name, m: Name, first: string, second: string, prefixes: seq<string>)
    requires n in t.nodes && m in t.nodes && n != m && Text.Less(first, second)
    requires t.nodes[n].prefixes == [first] && t.nodes[m].prefixes == [second]
    requires ListsPrefixes(t, {n, m}, prefixes)
    ensures prefixes == [first, second]
  {
    Text.LessIrreflexive(first);
    forall x ensures multiset(prefixes)[x] == multiset([first, second])[x] {
      DeclaredByPair(t, n, m, first, second, x);
    }
    assert multiset(prefixes) == multiset([first, second]);
    AscendingBagUnique(prefixes, [first, second]);
  }

  lemma DeclaredByPair(t: Topology, n: Name, m: Name, first: string, second: string, x: string)
    requires n in t.nodes && m in t.nodes && n != m && first != second
    requires t.nodes[n].prefixes == [first] && t.nodes[m].prefixes == [second]
    ensures |Declarations(t, {n, m}, x)| == if x == first || x == second then 1 else 0
  {
    assert Declarations(t, {n, m}, x) == if x == first then {(n, 0)} else if x == second then {(m, 0)} else {};
  }

  lemma DetourReported(t: Topology, p: Places, first: string, second: string, fault: FaultScenario, r: ScenarioResult)
    requires Ordered(t, p, first, second) && Classifies(t, fault, r) && Costs(t, fault.cut, p, Some(140), Some(50))
    ensures r.impact == Degraded && r.affectedNodes == [p.a1] && r.affectedPrefixes == [first]
  {
    FirstIsDearer(t, p, fault.cut);
    SortedSingleton(p.a1);
    SoleDeclared(t, p.a1, first, r.affectedPrefixes);
  }

  lemma FirstIsDearer(t: Topology, p: Places, cut: Cut)
    requires HasShape(t, p) && Costs(t, cut, p, Some(140), Some(50))
    ensures Unavailable(t, cut) + DegradedNodes(t, cut) == {p.a1} && ImpactOf(t, cut) == Degraded
  {
    FirstIsDegraded(t, p, cut);
    AffectedAreAccess(t, cut);
    SetsOfPair(Unavailable(t, cut), DegradedNodes(t, cut), p.a1, p.a2);
  }

  lemma AffectedAreAccess(t: Topology, cut: Cut)
    requires t.Valid()
    ensures Unavailable(t, cut) <= AccessNodes(t) && DegradedNodes(t, cut) <= AccessNodes(t)
  {
  }

  lemma SetsOfPair(lost: set<Name>, dearer: set<Name>, a: Name, b: Name)
    requires lost <= {a, b} && dearer <= {a, b} && a !in lost && b !in lost && a in dearer && b !in dearer
    ensures lost == {} && dearer == {a} && lost + dearer == {a}
  {
    assert forall x | x in lost :: x in {a, b};
    assert forall x | x in dearer :: x in {a, b};
  }

  lemma FirstIsDegraded(t: Topology, p: Places, cut: Cut)
    requires HasShape(t, p) && Costs(t, cut, p, Some(140), Some(50))
    ensures p.a1 !in Unavailable(t, cut) && p.a2 !in Unavailable(t, cut)
    ensures p.a1 in DegradedNodes(t, cut) && p.a2 !in DegradedNodes(t, cut)
  {
    UndamagedCosts(t, p, NO_CUT);
    CostTestMeansWalks(t, cut, p.a1);
    CostTestMeansWalks(t, cut, p.a2);
  }

  lemma SoleDeclared(t: Topology, n: Name, first: string, prefixes: seq<string>)
    requires n in t.nodes && t.nodes[n].prefixes == [first] && ListsPrefixes(t, {n}, prefixes)
    ensures prefixes == [first]
  {
    forall x ensures multiset(prefixes)[x] == multiset([first])[x] {
      assert Declarations(t, {n}, x) == if x == first then {(n, 0)} else {};
    }
    assert multiset(prefixes) == multiset([first]);
    AscendingBagUnique(prefixes, [first]);
  }
  // ----- the two designs by their names

  const LAB: Places := Places(A1, A2, G1, G2, C1, C2, S)

  lemma NamesAreApart()
    ensures LAB.Apart()
  {
    NamesDiffer();
  }

  lemma DesignsHaveShape()
    ensures HasShape(BASELINE, LAB) && HasShape(CANDIDATE, LAB)
    ensures |BASELINE.links| == 10 && |CANDIDATE.links| == 11
  {
    DesignsAreValid();
    NamesAreApart();
    Roles(BASELINE_SERVICE, LINKS[..10]);
    Roles(CANDIDATE_SERVICE, LINKS);
    LinksAreInPlace();
  }

  lemma LinksAreInPlace()
    ensures Linked(LINKS, LAB) && Linked(LINKS[..10], LAB)
  {
  }

  lemma AccessPrefixes(service: string, links: seq<Link>)
    requires HasShape(Topology(Nodes(service), links), LAB)
    ensures Ordered(Topology(Nodes(service), links), LAB, PREFIX1, PREFIX2)
  {
    NamesAreOrdered();
    PrefixesDeclared(service);
  }

  lemma NamesAreOrdered()
    ensures Text.Less(A1, A2) && Text.Less(PREFIX1, PREFIX2)
  {
    assert Text.DiffersAt(A1, A2, 6) && Text.DiffersAt(PREFIX1, PREFIX2, 6);
    Text.LessMeans(A1, A2);
    Text.LessMeans(PREFIX1, PREFIX2);
  }

  lemma PrefixesDeclared(service: string)
    ensures Nodes(service).Keys == NAMES
    ensures Nodes(service)[A1].prefixes == [PREFIX1] && Nodes(service)[A2].prefixes == [PREFIX2]
    ensures Nodes(service)[S].prefixes == [service]
    ensures forall n | n in {G1, G2, C1, C2} :: Nodes(service)[n].prefixes == []
  {
    NamesDiffer();
  }

  lemma DesignsAreOrdered()
    ensures Ordered(BASELINE, LAB, PREFIX1, PREFIX2) && Ordered(CANDIDATE, LAB, PREFIX1, PREFIX2)
  {
    DesignsHaveShape();
    AccessPrefixes(BASELINE_SERVICE, LINKS[..10]);
    AccessPrefixes(CANDIDATE_SERVICE, LINKS);
  }

  /** A link fault cuts its own link only. */
  lemma LinkFaultCutsOnly(t: Topology, i: nat)
    requires t.links <= LINKS && i < |t.links|
    ensures CutsOnly(t, LinkScenario(LINKS[i].id).cut, i)
  {
    IdentifiersDiffer();
    forall j | 0 <= j < |t.links| ensures t.links[j].id in LinkScenario(LINKS[i].id).cut.links <==> j == i {
      assert t.links[j] == LINKS[j];
      assert if i < j then LINKS[i].id != LINKS[j].id else j < i ==> LINKS[j].id != LINKS[i].id;
    }
  }

  /**
   In the baseline, the failure of the link to the service host is an outage of both access nodes and their
   prefixes.
   */
  lemma BaselineServiceLinkIsOutage(r: ScenarioResult)
    requires BASELINE.Valid() && Classifies(BASELINE, LinkScenario("core1--service-host"), r)
    ensures r.impact == Outage && r.affectedNodes == ["access1", "access2"]
    ensures r.affectedPrefixes == ["10.10.1.0/24", "10.10.2.0/24"]
    ensures r.paths == [AccessPath("access1", 30, None), AccessPath("access2", 50, None)]
  {
    DesignsAreOrdered();
    DesignsHaveShape();
    LinkFaultCutsOnly(BASELINE, 9);
    assert LinkScenario("core1--service-host") == LinkScenario(LINKS[9].id);
    LastLinkReport(BASELINE, LinkScenario(LINKS[9].id), r);
  }

  lemma LastLinkReport(t: Topology, fault: FaultScenario, r: ScenarioResult)
    requires Ordered(t, LAB, PREFIX1, PREFIX2) && |t.links| == 10 && CutsOnly(t, fault.cut, 9)
             && Classifies(t, fault, r)
    ensures r.impact == Outage && r.affectedNodes == [A1, A2] && r.affectedPrefixes == [PREFIX1, PREFIX2]
    ensures r.paths == [AccessPath(A1, 30, None), AccessPath(A2, 50, None)]
  {
    LastLinkCosts(t, LAB, fault.cut);
    OutageReported(t, LAB, PREFIX1, PREFIX2, fault, r);
    PathsReported(t, LAB, PREFIX1, PREFIX2, fault, r, None, None);
  }

  /**
   In the baseline, the failure of the link from agg1 to core1 is the detour at cost 140 that the collector
   waits for.
   */
  lemma BaselineCoreLinkIsDetour(r: ScenarioResult)
    requires BASELINE.Valid() && Classifies(BASELINE, LinkScenario("agg1--core1"), r)
    ensures r.impact == Degraded && r.affectedNodes == ["access1"] && r.affectedPrefixes == ["10.10.1.0/24"]
    ensures r.paths == [AccessPath("access1", 30, Some(140)), AccessPath("access2", 50, Some(50))]
  {
    DesignsAreOrdered();
    DesignsHaveShape();
    LinkFaultCutsOnly(BASELINE, 4);
    assert LinkScenario("agg1--core1") == LinkScenario(LINKS[4].id);
    CoreLinkReport(BASELINE, LinkScenario(LINKS[4].id), r);
  }

  lemma CoreLinkReport(t: Topology, fault: FaultScenario, r: ScenarioResult)
    requires Ordered(t, LAB, PREFIX1, PREFIX2) && CutsOnly(t, fault.cut, 4) && Classifies(t, fault, r)
    ensures r.impact == Degraded && r.affectedNodes == [A1] && r.affectedPrefixes == [PREFIX1]
    ensures r.paths == [AccessPath(A1, 30, Some(140)), AccessPath(A2, 50, Some(50))]
  {
    CoreLinkCosts(t, LAB, fault.cut);
    DetourReported(t, LAB, PREFIX1, PREFIX2, fault, r);
    PathsReported(t, LAB, PREFIX1, PREFIX2, fault, r, Some(140), Some(50));
  }
}
