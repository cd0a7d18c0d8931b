/**
 The runtime plan of the candidate design: it exists, and it lists the fifteen faults with the interfaces and the
 metrics that the lab is driven with.
 */
module LabPlan {
  import opened Wrappers
  import opened Collections
  import Text
  import opened Topology
  import opened Paths
  import opened Audit
  import opened RuntimePlan
  import opened LabDesign

  // ----- the lab's wiring

  /** The node pairs that the lab wires: one for each link, and one for each access node's client. */
  function Wires(p: Places, x: Name, y: Name): set<set<Name>> {
    {{p.a1, p.g1}, {p.a1, p.g2}, {p.a2, p.g1}, {p.a2, p.g2}, {p.g1, p.c1}, {p.g1, p.c2}, {p.g2, p.c1}, {p.g2, p.c2},
     {p.c1, p.c2}, {x, p.a1}, {y, p.a2}, {p.c1, p.s}, {p.c2, p.s}}
  }

  /** The number of the interface that a node has on a wire. */
  function Port(p: Places, pair: set<Name>, n: Name): int {
    if n == p.a1 || n == p.a2 then
      if p.g1 in pair then 1 else if p.g2 in pair then 2 else 3
    else if n == p.g1 || n == p.g2 then
      if p.a1 in pair then 1 else if p.a2 in pair then 2 else if p.c1 in pair then 3 else 4
    else if n == p.c1 then
      if p.g1 in pair then 1 else if p.g2 in pair then 2 else if p.c2 in pair then 3 else 4
    else if n == p.c2 then
      if p.g1 in pair then 1 else if p.g2 in pair then 2 else if p.c1 in pair then 3 else 4
    else if n == p.s then
      if p.c1 in pair then 1 else 2
    else
      1
  }

  function PortName(k: int): string {
    if k == 1 then "eth1" else if k == 2 then "eth2" else if k == 3 then "eth3" else "eth4"
  }

  lemma PortNamesDiffer(j: int, k: int)
    requires 1 <= j <= 4 && 1 <= k <= 4
    ensures PortName(j) == PortName(k) <==> j == k
    ensures j < k ==> Text.Less(PortName(j), PortName(k))
  {
    forall i | 1 <= i <= 4
      ensures |PortName(i)| == 4 && PortName(i)[..3] == "eth" && PortName(i)[3] == ('0' as int + i) as char
    {
    }
    if j < k {
      assert Text.DiffersAt(PortName(j), PortName(k), 3);
      Text.LessMeans(PortName(j), PortName(k));
    }
  }

  function WiredLab(p: Places, x: Name, y: Name): Lab {
    Lab(map pair | pair in Wires(p, x, y) :: Ends(map n | n in pair :: PortName(Port(p, pair, n))))
  }

  predicate ClientsApart(p: Places, x: Name, y: Name) {
    p.Apart() && x != y && x !in {p.a1, p.a2, p.g1, p.g2, p.c1, p.c2, p.s}
        && y !in {p.a1, p.a2, p.g1, p.g2, p.c1, p.c2, p.s}
  }

  lemma TwoNames(n: Name, m: Name)
    requires n != m
    ensures |{n, m}| == 2
  {
  }

  lemma WiredLabIsValid(p: Places, x: Name, y: Name)
    requires ClientsApart(p, x, y)
    ensures ValidLab(WiredLab(p, x, y))
  {
    forall pair | pair in Wires(p, x, y) ensures exists n, m :: n != m && pair == {n, m} {
    }
    forall pair | pair in Wires(p, x, y) ensures |pair| == 2 {
      var n, m :| n != m && pair == {n, m};
      TwoNames(n, m);
    }
  }

  /** The node's wires lead to the four peers, in the order of its interfaces. */
  ghost predicate FourWires(lab: Lab, n: Name, peers: seq<Name>)
    requires ValidLab(lab)
  {
    && |peers| == 4
    && (forall k | 0 <= k < 4 :: WireTo(lab, n, peers, k, {n, peers[k]}))
    && (forall pair | pair in lab.pairs && n in pair :: exists k :: 0 <= k < 4 && WireTo(lab, n, peers, k, pair))
  }

  ghost predicate WireTo(lab: Lab, n: Name, peers: seq<Name>, k: int, pair: set<Name>)
    requires ValidLab(lab) && |peers| == 4
  {
    && 0 <= k < 4 && pair == {n, peers[k]} && pair in lab.pairs && n in pair
    && lab.pairs[pair].interfaces[n] == PortName(k + 1)
  }

  lemma FourInterfaces(lab: Lab, n: Name, peers: seq<Name>)
    requires ValidLab(lab) && FourWires(lab, n, peers)
    ensures InterfacesOf(lab, n) == {"eth1", "eth2", "eth3", "eth4"} && NodePlannable(lab, n)
    ensures NodeInjections(lab, n)
         == [Injection(n, "eth1"), Injection(n, "eth2"), Injection(n, "eth3"), Injection(n, "eth4")]
  {
    FourAreDistinct(lab, n, peers);
    InterfacesAreFour(lab, n, peers);
    FourNames();
    FourInjections(lab, n);
  }

  lemma FourInjections(lab: Lab, n: Name)
    requires ValidLab(lab) && InterfacesOf(lab, n) == {"eth1", "eth2", "eth3", "eth4"}
    ensures NodeInjections(lab, n)
         == [Injection(n, "eth1"), Injection(n, "eth2"), Injection(n, "eth3"), Injection(n, "eth4")]
  {
    FourSorted();
    InjectionsInOrder(lab, n, ["eth1", "eth2", "eth3", "eth4"]);
  }

  lemma InjectionsInOrder(lab: Lab, n: Name, interfaces: seq<string>)
    requires ValidLab(lab) && Text.SortedSet(InterfacesOf(lab, n)) == interfaces && |interfaces| == 4
    ensures NodeInjections(lab, n) == [Injection(n, interfaces[0]), Injection(n, interfaces[1]),
                                       Injection(n, interfaces[2]), Injection(n, interfaces[3])]
  {
  }

  lemma FourNames()
    ensures |{"eth1", "eth2", "eth3", "eth4"}| <= 4
  {
    var three := {"eth1", "eth2", "eth3"};
    assert |three| <= 3;
    assert {"eth1", "eth2", "eth3", "eth4"} == three + {"eth4"};
  }

  lemma FourAreDistinct(lab: Lab, n: Name, peers: seq<Name>)
    requires ValidLab(lab) && FourWires(lab, n, peers)
    ensures DistinctInterfaces(lab, n)
  {
    forall p, q | p in lab.pairs && q in lab.pairs && n in p && n in q && p != q
      ensures lab.pairs[p].interfaces[n] != lab.pairs[q].interfaces[n]
    {
      var j :| 0 <= j < 4 && WireTo(lab, n, peers, j, p);
      var k :| 0 <= k < 4 && WireTo(lab, n, peers, k, q);
      PortNamesDiffer(j + 1, k + 1);
    }
  }

  lemma InterfacesAreFour(lab: Lab, n: Name, peers: seq<Name>)
    requires ValidLab(lab) && FourWires(lab, n, peers)
    ensures InterfacesOf(lab, n) == {"eth1", "eth2", "eth3", "eth4"}
  {
    forall i | i in InterfacesOf(lab, n) ensures i in {"eth1", "eth2", "eth3", "eth4"} {
      var pair :| pair in lab.pairs && n in pair && lab.pairs[pair].interfaces[n] == i;
      var k :| 0 <= k < 4 && WireTo(lab, n, peers, k, pair);
    }
    assert WireTo(lab, n, peers, 0, {n, peers[0]}) && WireTo(lab, n, peers, 1, {n, peers[1]});
    assert WireTo(lab, n, peers, 2, {n, peers[2]}) && WireTo(lab, n, peers, 3, {n, peers[3]});
  }

  lemma FourSorted()
    ensures Text.SortedSet({"eth1", "eth2", "eth3", "eth4"}) == ["eth1", "eth2", "eth3", "eth4"]
  {
    var names := ["eth1", "eth2", "eth3", "eth4"];
    forall i, j | 0 <= i < j < 4 ensures Text.Less(names[i], names[j]) {
      assert names[i] == PortName(i + 1) && names[j] == PortName(j + 1);
      PortNamesDiffer(i + 1, j + 1);
    }
    Text.AscendingUnique(Text.SortedSet({"eth1", "eth2", "eth3", "eth4"}), names);
  }

  lemma WireAt(p: Places, x: Name, y: Name, pair: set<Name>, n: Name)
    requires ClientsApart(p, x, y) && pair in Wires(p, x, y) && n in pair
    ensures var lab := WiredLab(p, x, y);
            pair in lab.pairs && n in lab.pairs[pair].interfaces
            && lab.pairs[pair].interfaces[n] == PortName(Port(p, pair, n))
  {
  }

  /** A node's four wires, when they are the only ones it has. */
  lemma FourWiresOf(p: Places, x: Name, y: Name, n: Name, a: Name, b: Name, c: Name, d: Name)
    requires ClientsApart(p, x, y) && {{n, a}, {n, b}, {n, c}, {n, d}} <= Wires(p, x, y)
    requires forall pair | pair in Wires(p, x, y) && n in pair :: pair in {{n, a}, {n, b}, {n, c}, {n, d}}
    requires Port(p, {n, a}, n) == 1 && Port(p, {n, b}, n) == 2 && Port(p, {n, c}, n) == 3 && Port(p, {n, d}, n) == 4
    ensures ValidLab(WiredLab(p, x, y)) && FourWires(WiredLab(p, x, y), n, [a, b, c, d])
  {
    WiredLabIsValid(p, x, y);
    var all := {{n, a}, {n, b}, {n, c}, {n, d}};
    assert {n, a} in all && {n, b} in all && {n, c} in all && {n, d} in all;
    WireAt(p, x, y, {n, a}, n);
    WireAt(p, x, y, {n, b}, n);
    WireAt(p, x, y, {n, c}, n);
    WireAt(p, x, y, {n, d}, n);
    FourWiresFrom(WiredLab(p, x, y), n, a, b, c, d);
  }

  ghost predicate HasPort(lab: Lab, pair: set<Name>, n: Name, k: int)
    requires ValidLab(lab)
  {
    pair in lab.pairs && n in pair && lab.pairs[pair].interfaces[n] == PortName(k)
  }

  lemma FourWiresFrom(lab: Lab, n: Name, a: Name, b: Name, c: Name, d: Name)
    requires ValidLab(lab) && HasPort(lab, {n, a}, n, 1) && HasPort(lab, {n, b}, n, 2)
    requires HasPort(lab, {n, c}, n, 3) && HasPort(lab, {n, d}, n, 4)
    requires forall pair | pair in lab.pairs && n in pair :: pair in {{n, a}, {n, b}, {n, c}, {n, d}}
    ensures FourWires(lab, n, [a, b, c, d])
  {
    var peers := [a, b, c, d];
    assert WireTo(lab, n, peers, 0, {n, a}) && WireTo(lab, n, peers, 1, {n, b});
    assert WireTo(lab, n, peers, 2, {n, c}) && WireTo(lab, n, peers, 3, {n, d});
  }

  lemma Swapped(n: Name, m: Name)
    ensures {n, m} == {m, n}
  {
  }

  lemma FirstAggregationWires(p: Places, x: Name, y: Name)
    requires ClientsApart(p, x, y)
    ensures ValidLab(WiredLab(p, x, y)) && FourWires(WiredLab(p, x, y), p.g1, [p.a1, p.a2, p.c1, p.c2])
  {
    Swapped(p.g1, p.a1);
    Swapped(p.g1, p.a2);
    FourWiresOf(p, x, y, p.g1, p.a1, p.a2, p.c1, p.c2);
  }
  lemma SecondAggregationWires(p: Places, x: Name, y: Name)
    requires ClientsApart(p, x, y)
    ensures ValidLab(WiredLab(p, x, y)) && FourWires(WiredLab(p, x, y), p.g2, [p.a1, p.a2, p.c1, p.c2])
  {
    Swapped(p.g2, p.a1);
    Swapped(p.g2, p.a2);
    FourWiresOf(p, x, y, p.g2, p.a1, p.a2, p.c1, p.c2);
  }

  lemma FirstCoreWires(p: Places, x: Name, y: Name)
    requires ClientsApart(p, x, y)
    ensures ValidLab(WiredLab(p, x, y)) && FourWires(WiredLab(p, x, y), p.c1, [p.g1, p.g2, p.c2, p.s])
  {
    Swapped(p.c1, p.g1);
    Swapped(p.c1, p.g2);
    FourWiresOf(p, x, y, p.c1, p.g1, p.g2, p.c2, p.s);
  }

  lemma SecondCoreWires(p: Places, x: Name, y: Name)
    requires ClientsApart(p, x, y)
    ensures ValidLab(WiredLab(p, x, y)) && FourWires(WiredLab(p, x, y), p.c2, [p.g1, p.g2, p.c1, p.s])
  {
    Swapped(p.c2, p.g1);
    Swapped(p.c2, p.g2);
    Swapped(p.c2, p.c1);
    FourWiresOf(p, x, y, p.c2, p.g1, p.g2, p.c1, p.s);
  }

  /** The node has its four interfaces in the lab, and all of them are taken down for its fault. */
  ghost predicate TakesFour(lab: Lab, n: Name)
    requires ValidLab(lab)
  {
    && NodePlannable(lab, n)
    && NodeInjections(lab, n) == [Injection(n, "eth1"), Injection(n, "eth2"), Injection(n, "eth3"),
                                  Injection(n, "eth4")]
  }

  lemma TransportTakesFour(p: Places, x: Name, y: Name, n: Name)
    requires ClientsApart(p, x, y) && n in {p.g1, p.g2, p.c1, p.c2}
    ensures ValidLab(WiredLab(p, x, y)) && TakesFour(WiredLab(p, x, y), n)
  {
    var lab := WiredLab(p, x, y);
    if n == p.g1 {
      FirstAggregationWires(p, x, y);
      FourInterfaces(lab, n, [p.a1, p.a2, p.c1, p.c2]);
    } else if n == p.g2 {
      SecondAggregationWires(p, x, y);
      FourInterfaces(lab, n, [p.a1, p.a2, p.c1, p.c2]);
    } else if n == p.c1 {
      FirstCoreWires(p, x, y);
      FourInterfaces(lab, n, [p.g1, p.g2, p.c2, p.s]);
    } else {
      SecondCoreWires(p, x, y);
      FourInterfaces(lab, n, [p.g1, p.g2, p.c1, p.s]);
    }
  }

  lemma WiredLabIsReady(t: Topology, p: Places, x: Name, y: Name)
    requires HasShape(t, p) && ClientsApart(p, x, y) && TransportNodes(t) == {p.g1, p.g2, p.c1, p.c2}
    ensures ValidLab(WiredLab(p, x, y)) && LabReady(t, WiredLab(p, x, y))
  {
    WiredLabIsValid(p, x, y);
    forall n | n in TransportNodes(t) ensures NodePlannable(WiredLab(p, x, y), n) {
      TransportTakesFour(p, x, y, n);
    }
    WiresCover(t, p, x, y);
  }

  lemma WiresCover(t: Topology, p: Places, x: Name, y: Name)
    requires HasShape(t, p)
    ensures LabCovers(t, WiredLab(p, x, y))
  {
    forall l | l in t.links ensures Pair(l) in Wires(p, x, y) {
      var i :| 0 <= i < |t.links| && t.links[i] == l;
    }
  }

  // ----- sizes and degrees

  function EndsOf(l: Link, n: Name): nat {
    if l.Touches(n) then 1 else 0
  }

  /** The link ends at the node among the first `k` links. */
  function EndsAmong(links: seq<Link>, n: Name, k: nat): nat
    requires k <= |links|
  {
    if k == 0 then 0 else EndsAmong(links, n, k - 1) + EndsOf(links[k - 1], n)
  }

  lemma {:induction false} DegreeIsEnds(links: seq<Link>, n: Name, k: nat)
    requires k <= |links|
    ensures Degree(links[..k], n) == EndsAmong(links, n, k)
  {
    if k > 0 {
      DegreeIsEnds(links, n, k - 1);
      assert links[..k][..k - 1] == links[..k - 1];
    }
  }

  lemma DegreeOfEleven(links: seq<Link>, n: Name)
    requires |links| == 11
    ensures Degree(links, n) ==
            EndsOf(links[0], n) + EndsOf(links[1], n) + EndsOf(links[2], n) + EndsOf(links[3], n) + EndsOf(links[4], n)
            + EndsOf(links[5], n) + EndsOf(links[6], n) + EndsOf(links[7], n) + EndsOf(links[8], n)
                + EndsOf(links[9], n)
            + EndsOf(links[10], n)
  {
    DegreeIsEnds(links, n, 11);
    assert links[..11] == links;
    EndsStep(links, n, 1);
    EndsStep(links, n, 2);
    EndsStep(links, n, 3);
    EndsStep(links, n, 4);
    EndsStep(links, n, 5);
    EndsStep(links, n, 6);
    EndsStep(links, n, 7);
    EndsStep(links, n, 8);
    EndsStep(links, n, 9);
    EndsStep(links, n, 10);
    EndsStep(links, n, 11);
  }

  lemma EndsStep(links: seq<Link>, n: Name, k: nat)
    requires 0 < k <= |links|
    ensures EndsAmong(links, n, k) == EndsAmong(links, n, k - 1) + EndsOf(links[k - 1], n)
    ensures k == 1 ==> EndsAmong(links, n, k) == EndsOf(links[0], n)
  {
  }

  lemma DegreesOfCandidate(t: Topology, p: Places)
    requires HasShape(t, p) && |t.links| == 11
    ensures Degree(t.links, p.a1) == Degree(t.links, p.a2) == Degree(t.links, p.s) == 2
    ensures Degree(t.links, p.g1) == Degree(t.links, p.g2) == Degree(t.links, p.c1) == Degree(t.links, p.c2) == 4
  {
    DegreeOfEleven(t.links, p.a1);
    DegreeOfEleven(t.links, p.a2);
    DegreeOfEleven(t.links, p.g1);
    DegreeOfEleven(t.links, p.g2);
    DegreeOfEleven(t.links, p.c1);
    DegreeOfEleven(t.links, p.c2);
    DegreeOfEleven(t.links, p.s);
  }
  lemma CandidateSizes()
    ensures |CANDIDATE.nodes| == 7 && |CANDIDATE.LinkIds()| == 11
    ensures AccessNodes(CANDIDATE) == {A1, A2} && ServiceNodes(CANDIDATE) == {S}
    ensures TransportNodes(CANDIDATE) == {G1, G2, C1, C2} && |{G1, G2, C1, C2}| == 4 && |{A1, A2}| == 2
  {
    Roles(CANDIDATE_SERVICE, LINKS);
    SevenNames();
    ElevenIdentifiers();
    TransportCount();
  }

  lemma TransportCount()
    ensures |{G1, G2, C1, C2}| == 4 && |{A1, A2}| == 2
  {
    NamesDiffer();
    DistinctCount([G1, G2, C1, C2]);
    assert (set n | n in [G1, G2, C1, C2]) == {G1, G2, C1, C2};
    TwoNames(A1, A2);
  }

  lemma SevenNames()
    ensures |CANDIDATE.nodes| == 7
  {
    NamesDiffer();
    var names := [A1, A2, G1, G2, C1, C2, S];
    DistinctCount(names);
    NodesAreNamed(CANDIDATE_SERVICE);
    assert (set n | n in names) == NAMES;
    assert |CANDIDATE.nodes.Keys| == |CANDIDATE.nodes|;
  }

  lemma IdentifierCount(t: Topology)
    requires t.Valid()
    ensures |t.LinkIds()| == |t.links|
  {
    var ids := seq(|t.links|, i requires 0 <= i < |t.links| => t.links[i].id);
    DistinctCount(ids);
    forall id ensures id in t.LinkIds() <==> id in ids {
      if id in t.LinkIds() {
        var l :| l in t.links && l.id == id;
        var i :| 0 <= i < |t.links| && t.links[i] == l;
        assert ids[i] == id;
      }
    }
    assert t.LinkIds() == set id | id in ids;
  }

  lemma ElevenIdentifiers()
    ensures |CANDIDATE.LinkIds()| == 11
  {
    DesignsAreValid();
    IdentifierCount(CANDIDATE);
  }

  lemma CandidatePrefixes()
    ensures |Prefixes(CANDIDATE, Text.SortedSet(CANDIDATE.nodes.Keys))| <= 7
    ensures Prefixes(CANDIDATE, Text.SortedSet({S})) == [CANDIDATE_SERVICE]
  {
    PrefixesDeclared(CANDIDATE_SERVICE);
    SevenNames();
    forall n | n in CANDIDATE.nodes ensures |CANDIDATE.nodes[n].prefixes| <= 1 {
      assert n in {A1, A2, S} || n in {G1, G2, C1, C2};
    }
    FewPrefixesInAll(CANDIDATE, CANDIDATE.nodes.Keys);
    Roles(CANDIDATE_SERVICE, LINKS);
    SoleServicePrefix(CANDIDATE, S, CANDIDATE_SERVICE);
  }

  lemma CandidateServiceIsHost()
    ensures IsHostPrefix(CANDIDATE_SERVICE)
  {
    assert Octet(10) == "10" && Octet(20) == "20" && Octet(0) == "0";
    assert CANDIDATE_SERVICE == Quad(10, 20, 0, 10) + "/32";
    assert CANDIDATE_SERVICE[|CANDIDATE_SERVICE| - 3..] == "/32";
  }

  const CLIENT1: Name := "client-a"
  const CLIENT2: Name := "client-b"

  lemma ClientsAreApart()
    ensures ClientsApart(LAB, CLIENT1, CLIENT2)
  {
    NamesAreApart();
    assert CLIENT1[7] != CLIENT2[7];
    assert |CLIENT1| == |CLIENT2| == 8 && |A1| == |A2| == 7 && |G1| == |G2| == 4 && |C1| == |C2| == 5 && |S| == 12;
  }

  /** The candidate's lab: its wires and interfaces. */
  function CandidateLab(): Lab {
    WiredLab(LAB, CLIENT1, CLIENT2)
  }

  lemma CandidateSizesAllowed()
    ensures CANDIDATE.Valid() && SizesAllowed(CANDIDATE) && ServicePrefix(CANDIDATE) == CANDIDATE_SERVICE
  {
    DesignsAreValid();
    CandidateSizes();
    CandidatePrefixes();
  }

  lemma DegreesAreSmall(t: Topology, p: Places)
    requires HasShape(t, p) && |t.links| == 11
    ensures EveryNodeLinked(t) && NeighborsBounded(t)
  {
    DegreesOfCandidate(t, p);
    forall n | n in t.nodes ensures 2 <= Degree(t.links, n) <= 4 {
      assert n in {p.a1, p.a2, p.g1, p.g2, p.c1, p.c2, p.s};
    }
  }

  lemma CandidateNamesBounded()
    ensures NamesBounded(CANDIDATE)
  {
    NodesAreNamed(CANDIDATE_SERVICE);
    assert |A1| == |A2| == 7 && |G1| == |G2| == 4 && |C1| == |C2| == 5 && |S| == 12;
  }

  lemma CandidateFieldsAllowed()
    ensures CANDIDATE.Valid() && SizesAllowed(CANDIDATE) && FieldsAllowed(CANDIDATE) && EveryNodeLinked(CANDIDATE)
  {
    CandidateSizesAllowed();
    CandidateServiceIsHost();
    DesignsHaveShape();
    DegreesAreSmall(CANDIDATE, LAB);
    CandidateNamesBounded();
  }

  /** The candidate can be planned in its lab. */
  lemma CandidateIsPlannable()
    ensures CANDIDATE.Valid() && ValidLab(CandidateLab()) && Plannable(CANDIDATE, CandidateLab())
  {
    CandidateFieldsAllowed();
    DesignsHaveShape();
    ClientsAreApart();
    CandidateSizes();
    WiredLabIsReady(CANDIDATE, LAB, CLIENT1, CLIENT2);
    CandidateBaselines();
  }

  lemma CandidateBaselines()
    ensures CANDIDATE.Valid() && HasBaselines(CANDIDATE)
  {
    DesignsHaveShape();
    UndamagedCosts(CANDIDATE, LAB, NO_CUT);
  }
  // ----- what the plan says

  lemma PlannedPaths(t: Topology, p: Places, first: string, second: string, fault: FaultScenario,
                     paths: seq<AccessPath>, x: int, y: int)
    requires Ordered(t, p, first, second) && PathsFor(t, fault.cut, Text.SortedSet(AccessNodes(t)), paths)
    requires Costs(t, fault.cut, p, Some(x), Some(y))
    ensures paths == [AccessPath(p.a1, 30, Some(x)), AccessPath(p.a2, 50, Some(y))]
  {
    UndamagedCosts(t, p, NO_CUT);
    SortedPair(p.a1, p.a2);
    assert IsPath(t, fault.cut, p.a1, paths[0]) && IsPath(t, fault.cut, p.a2, paths[1]);
  }

  /** The scenario of a fault, in a plan of the candidate. */
  ghost predicate Plans(plan: Plan, fault: FaultScenario, s: FaultPlan) {
    s in plan.scenarios && s.fault == fault
  }

  lemma PlannedScenario(plan: Plan, fault: FaultScenario, s: FaultPlan)
    requires CANDIDATE.Valid() && ValidLab(CandidateLab()) && IsPlan(CANDIDATE, CandidateLab(), plan)
    requires Plans(plan, fault, s)
    ensures PlansFault(CANDIDATE, CandidateLab(), Text.SortedSet(AccessNodes(CANDIDATE)), fault, s)
  {
    var i :| 0 <= i < |plan.scenarios| && plan.scenarios[i] == s;
    assert PlansFault(CANDIDATE, CandidateLab(), Text.SortedSet(AccessNodes(CANDIDATE)), Faults(CANDIDATE)[i], s);
  }

  lemma EveryFaultIsPlanned(t: Topology, lab: Lab, plan: Plan, fault: FaultScenario)
    requires t.Valid() && ValidLab(lab) && IsPlan(t, lab, plan) && fault in Faults(t)
    ensures exists s :: Plans(plan, fault, s)
  {
    var i :| 0 <= i < |Faults(t)| && Faults(t)[i] == fault;
    assert PlansFault(t, lab, Text.SortedSet(AccessNodes(t)), fault, plan.scenarios[i]);
    assert Plans(plan, fault, plan.scenarios[i]);
  }

  lemma LinkIsPlanned(t: Topology, lab: Lab, plan: Plan, l: Link)
    requires t.Valid() && ValidLab(lab) && IsPlan(t, lab, plan) && l in t.links
    ensures exists s :: Plans(plan, LinkScenario(l.id), s)
  {
    LinkFaultsFacts(t);
    EveryFaultIsPlanned(t, lab, plan, LinkScenario(l.id));
  }

  lemma NodeIsPlanned(t: Topology, lab: Lab, plan: Plan, n: Name)
    requires t.Valid() && ValidLab(lab) && IsPlan(t, lab, plan) && n in TransportNodes(t)
    ensures exists s :: Plans(plan, NodeScenario(n), s)
  {
    NodeFaultsFacts(t);
    EveryFaultIsPlanned(t, lab, plan, NodeScenario(n));
  }

  lemma PlanSize(t: Topology, lab: Lab, plan: Plan)
    requires t.Valid() && ValidLab(lab) && IsPlan(t, lab, plan)
    ensures |plan.scenarios| == |t.LinkIds()| + |TransportNodes(t)|
  {
    FaultCount(t);
  }

  /** A plan of the candidate has fifteen scenarios: one for every link and one for every transport node. */
  lemma CandidatePlanHasFifteen(plan: Plan)
    requires CANDIDATE.Valid() && ValidLab(CandidateLab()) && IsPlan(CANDIDATE, CandidateLab(), plan)
    ensures |plan.scenarios| == 15
    ensures forall l | l in CANDIDATE.links :: exists s :: Plans(plan, LinkScenario(l.id), s)
    ensures forall n | n in TransportNodes(CANDIDATE) :: exists s :: Plans(plan, NodeScenario(n), s)
  {
    FifteenFaults(CANDIDATE, CandidateLab(), plan);
    EachFaultIsPlanned(CANDIDATE, CandidateLab(), plan);
  }

  lemma FifteenFaults(t: Topology, lab: Lab, plan: Plan)
    requires t == CANDIDATE && t.Valid() && ValidLab(lab) && IsPlan(t, lab, plan)
    ensures |plan.scenarios| == 15
  {
    PlanSize(t, lab, plan);
    CandidateSizes();
  }

  lemma EachFaultIsPlanned(t: Topology, lab: Lab, plan: Plan)
    requires t.Valid() && ValidLab(lab) && IsPlan(t, lab, plan)
    ensures forall l | l in t.links :: exists s :: Plans(plan, LinkScenario(l.id), s)
    ensures forall n | n in TransportNodes(t) :: exists s :: Plans(plan, NodeScenario(n), s)
  {
    forall l | l in t.links ensures exists s :: Plans(plan, LinkScenario(l.id), s) {
      LinkIsPlanned(t, lab, plan, l);
    }
    forall n | n in TransportNodes(t) ensures exists s :: Plans(plan, NodeScenario(n), s) {
      NodeIsPlanned(t, lab, plan, n);
    }
  }

  /** The plan probes the one service address. */
  lemma CandidateServicePrefix(plan: Plan)
    requires CANDIDATE.Valid() && ValidLab(CandidateLab()) && IsPlan(CANDIDATE, CandidateLab(), plan)
    ensures plan.servicePrefix == "10.20.0.10/32"
  {
    CandidateSizesAllowed();
    HostMaskIsKept();
    ServicePrefixOf(CANDIDATE, CandidateLab(), plan);
  }

  lemma ServicePrefixOf(t: Topology, lab: Lab, plan: Plan)
    requires t.Valid() && ValidLab(lab) && IsPlan(t, lab, plan)
    ensures plan.servicePrefix == HostText(ServicePrefix(t))
  {
  }

  lemma HostMaskIsKept()
    ensures HostText(CANDIDATE_SERVICE) == CANDIDATE_SERVICE
  {
    assert CANDIDATE_SERVICE[|CANDIDATE_SERVICE| - 3..] == "/32";
  }

  /** The plan's scenario for the link from access1 to agg1. */
  lemma CandidateAccessLinkPlan(plan: Plan, s: FaultPlan)
    requires CANDIDATE.Valid() && ValidLab(CandidateLab()) && IsPlan(CANDIDATE, CandidateLab(), plan)
    requires Plans(plan, LinkScenario("access1--agg1"), s)
    ensures s.injections == [Injection("access1", "eth1"), Injection("agg1", "eth1")]
    ensures s.paths == [AccessPath("access1", 30, Some(140)), AccessPath("access2", 50, Some(50))]
  {
    var fault := LinkScenario(LINKS[0].id);
    DesignsAreOrdered();
    DesignsHaveShape();
    PlannedScenario(plan, fault, s);
    LinkFaultCutsOnly(CANDIDATE, 0);
    AccessLinkCosts(CANDIDATE, LAB, fault.cut);
    PlannedPaths(CANDIDATE, LAB, PREFIX1, PREFIX2, fault, s.paths, 140, 50);
    AccessLinkInjections(s);
  }

  lemma AccessLinkInjections(s: FaultPlan)
    requires CANDIDATE.Valid() && ValidLab(CandidateLab())
    requires PlansFault(CANDIDATE, CandidateLab(), Text.SortedSet(AccessNodes(CANDIDATE)), LinkScenario(LINKS[0].id), s)
    ensures s.injections == [Injection("access1", "eth1"), Injection("agg1", "eth1")]
  {
    var l :| l in CANDIDATE.links && LinkScenario(LINKS[0].id) == LinkScenario(l.id) && PlansLink(CandidateLab(), l, s);
    SameScenarioSameLink(l);
    ClientsAreApart();
    assert Pair(l) == {A1, G1};
    WireAt(LAB, CLIENT1, CLIENT2, {A1, G1}, A1);
    WireAt(LAB, CLIENT1, CLIENT2, {A1, G1}, G1);
  }

  lemma SameScenarioSameLink(l: Link)
    requires l in CANDIDATE.links && LinkScenario(LINKS[0].id) == LinkScenario(l.id)
    ensures l == LINKS[0]
  {
    assert l.id in LinkScenario(LINKS[0].id).cut.links;
    IdentifiersDiffer();
    var i :| 0 <= i < |LINKS| && LINKS[i] == l;
  }

  /** The plan's scenario for the link from core1 to the service host. */
  lemma CandidateServiceLinkPlan(plan: Plan, s: FaultPlan)
    requires CANDIDATE.Valid() && ValidLab(CandidateLab()) && IsPlan(CANDIDATE, CandidateLab(), plan)
    requires Plans(plan, LinkScenario("core1--service-host"), s)
    ensures s.paths == [AccessPath("access1", 30, Some(70)), AccessPath("access2", 50, Some(50))]
  {
    var fault := LinkScenario(LINKS[9].id);
    DesignsAreOrdered();
    DesignsHaveShape();
    PlannedScenario(plan, fault, s);
    LinkFaultCutsOnly(CANDIDATE, 9);
    ServiceLinkCosts(CANDIDATE, LAB, fault.cut);
    PlannedPaths(CANDIDATE, LAB, PREFIX1, PREFIX2, fault, s.paths, 70, 50);
  }

  /** The plan's scenario for core1. */
  lemma CandidateCorePlan(plan: Plan, s: FaultPlan)
    requires CANDIDATE.Valid() && ValidLab(CandidateLab()) && IsPlan(CANDIDATE, CandidateLab(), plan)
    requires Plans(plan, NodeScenario("core1"), s)
    ensures s.injections == [Injection("core1", "eth1"), Injection("core1", "eth2"),
                             Injection("core1", "eth3"), Injection("core1", "eth4")]
    ensures s.paths == [AccessPath("access1", 30, Some(140)), AccessPath("access2", 50, Some(50))]
  {
    var fault := NodeScenario(C1);
    DesignsAreOrdered();
    DesignsHaveShape();
    PlannedScenario(plan, fault, s);
    CoreNodeCosts(CANDIDATE, LAB, fault.cut);
    PlannedPaths(CANDIDATE, LAB, PREFIX1, PREFIX2, fault, s.paths, 140, 50);
    CoreInjections(s);
  }

  lemma CoreInjections(s: FaultPlan)
    requires CANDIDATE.Valid() && ValidLab(CandidateLab())
    requires PlansFault(CANDIDATE, CandidateLab(), Text.SortedSet(AccessNodes(CANDIDATE)), NodeScenario(C1), s)
    ensures s.injections == [Injection(C1, "eth1"), Injection(C1, "eth2"), Injection(C1, "eth3"), Injection(C1, "eth4")]
  {
    var n :| n in TransportNodes(CANDIDATE) && NodeScenario(C1) == NodeScenario(n) && s.component == n
      && s.injections == NodeInjections(CandidateLab(), n);
    assert n in NodeScenario(C1).cut.nodes;
    ClientsAreApart();
    TransportTakesFour(LAB, CLIENT1, CLIENT2, C1);
  }

  lemma ListedDegrees(t: Topology, lab: Lab, plan: Plan)
    requires t.Valid() && ValidLab(lab) && IsPlan(t, lab, plan)
    ensures |plan.adjacencies| == |t.nodes.Keys|
    ensures forall n | n in t.nodes :: (n, Degree(t.links, n)) in plan.adjacencies
  {
    Text.SortedSetLength(t.nodes.Keys);
    var names := Text.SortedSet(t.nodes.Keys);
    forall n | n in t.nodes ensures (n, Degree(t.links, n)) in plan.adjacencies {
      assert n in names;
      var i :| 0 <= i < |names| && names[i] == n;
      assert plan.adjacencies[i] == (n, Degree(t.links, n));
    }
  }

  /** The plan's adjacencies are the numbers of neighbours in the candidate. */
  lemma CandidateAdjacencies(plan: Plan)
    requires CANDIDATE.Valid() && ValidLab(CandidateLab()) && IsPlan(CANDIDATE, CandidateLab(), plan)
    ensures |plan.adjacencies| == 7
    ensures (A1, 2) in plan.adjacencies && (A2, 2) in plan.adjacencies && (S, 2) in plan.adjacencies
    ensures (G1, 4) in plan.adjacencies && (G2, 4) in plan.adjacencies
    ensures (C1, 4) in plan.adjacencies && (C2, 4) in plan.adjacencies
  {
    ListedDegrees(CANDIDATE, CandidateLab(), plan);
    SevenNames();
    DesignsHaveShape();
    DegreesOfCandidate(CANDIDATE, LAB);
    NodesAreNamed(CANDIDATE_SERVICE);
  }
}
