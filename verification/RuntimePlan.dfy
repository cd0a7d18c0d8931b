/**
 The runtime N-1 plan: every modelled fault is mapped to containerlab interfaces to take down.
 The main results say what taking them down does to the declared graph.
 */
module RuntimePlan {
  import opened Wrappers
  import opened Collections
  import Text
  import opened Topology
  import opened Paths
  import opened Audit

  /** The parsed lab: at most one link per node pair, naming one interface at each end. */
  datatype Lab = Lab(pairs: map<set<Name>, Ends>)

  datatype Ends = Ends(interfaces: map<Name, string>)

  ghost predicate ValidLab(lab: Lab) {
    forall pair | pair in lab.pairs :: |pair| == 2 && lab.pairs[pair].interfaces.Keys == pair
  }

  datatype Injection = Injection(node: Name, interface: string)

  datatype FaultPlan = FaultPlan(fault: FaultScenario, component: string, injections: seq<Injection>,
                                 paths: seq<AccessPath>)

  datatype Plan = Plan(servicePrefix: string, adjacencies: seq<(Name, nat)>, scenarios: seq<FaultPlan>)

  datatype PlanError =
    | TopologyLimit
    | AccessNodeLimit
    | PrefixLimit
    | ServicePrefixCount
    | NoTransportNode
    | ScenarioLimit
    | AuditRefused(error: AuditError)
    | IsolatedNode
    | MissingLabLink(link: string)
    | MissingLabNode(node: Name)
    | RepeatedInterface(node: Name)
    | SizeLimit
    | NameLimit
    | ServicePrefixKind

  const MAX_NODES := 64
  const MAX_LINKS := 128
  const MAX_NAME := 64
  const MAX_ACCESS := 16
  const MAX_PREFIXES := 128
  const MAX_SCENARIOS := 64
  const MAX_INJECTIONS := 16
  const MAX_NEIGHBORS := 16

  // ----- degrees

  ghost function Degree(links: seq<Link>, n: Name): nat {
    if links == [] then 0
    else Degree(links[..|links| - 1], n) + if links[|links| - 1].Touches(n) then 1 else 0
  }

  method CountDegrees(t: Topology) returns (degrees: map<Name, nat>)
    requires t.Valid()
    ensures degrees.Keys == t.nodes.Keys
    ensures forall n | n in degrees :: degrees[n] == Degree(t.links, n)
  {
    degrees := map n | n in t.nodes :: 0;
    for i := 0 to |t.links|
      invariant degrees.Keys == t.nodes.Keys
      invariant forall n | n in degrees :: degrees[n] == Degree(t.links[..i], n)
    {
      var link := t.links[i];
      assert t.links[..i + 1][..i] == t.links[..i];
      assert link in t.links;
      degrees := degrees[link.endpointA := degrees[link.endpointA] + 1];
      degrees := degrees[link.endpointB := degrees[link.endpointB] + 1];
    }
    assert t.links[..|t.links|] == t.links;
  }

  ghost function IncidentIds(links: seq<Link>, n: Name): set<string> {
    set l | l in links && l.Touches(n) :: l.id
  }

  /** With distinct link identifiers the degree counts the incident links. */
  lemma {:induction false} DegreeCountsIncidentLinks(links: seq<Link>, n: Name)
    requires forall i, j | 0 <= i < j < |links| :: links[i].id != links[j].id
    ensures Degree(links, n) == |IncidentIds(links, n)|
  {
    if links != [] {
      var before, l := links[..|links| - 1], links[|links| - 1];
      DegreeCountsIncidentLinks(before, n);
      assert links == before + [l];
      IncidentStep(before, l, n);
      assert l.id !in IncidentIds(before, n);
    }
  }

  lemma IncidentStep(links: seq<Link>, l: Link, n: Name)
    ensures IncidentIds(links + [l], n) == IncidentIds(links, n) + if l.Touches(n) then {l.id} else {}
  {
    assert forall k :: k in links + [l] <==> k in links || k == l;
  }

  ghost function DegreeSum(names: seq<Name>, links: seq<Link>): nat {
    if names == [] then 0 else Degree(links, names[0]) + DegreeSum(names[1..], links)
  }

  ghost function EndsAt(names: seq<Name>, l: Link): nat {
    if names == [] then 0 else (if l.Touches(names[0]) then 1 else 0) + EndsAt(names[1..], l)
  }

  lemma {:induction false} DegreeSumStep(names: seq<Name>, links: seq<Link>, l: Link)
    ensures DegreeSum(names, links + [l]) == DegreeSum(names, links) + EndsAt(names, l)
  {
    if names != [] {
      assert (links + [l])[..|links|] == links;
      DegreeSumStep(names[1..], links, l);
    }
  }

  lemma {:induction false} EndsCounts(names: seq<Name>, l: Link)
    requires Text.StrictlyAscending(names) && l.endpointA != l.endpointB
    ensures EndsAt(names, l) == (if l.endpointA in names then 1 else 0) + (if l.endpointB in names then 1 else 0)
  {
    if names != [] {
      EndsCounts(names[1..], l);
      Text.LessIrreflexive(names[0]);
      assert names == [names[0]] + names[1..];
      assert names[0] !in names[1..];
    }
  }

  /** Each link is counted once at each of its two ends. */
  lemma {:induction false} Handshake(names: seq<Name>, links: seq<Link>)
    requires Text.StrictlyAscending(names)
    requires forall l | l in links :: l.endpointA != l.endpointB && l.endpointA in names && l.endpointB in names
    ensures DegreeSum(names, links) == 2 * |links|
  {
    if links == [] {
      NoLinksNoDegrees(names);
    } else {
      var before, l := links[..|links| - 1], links[|links| - 1];
      assert links == before + [l];
      Handshake(names, before);
      DegreeSumStep(names, before, l);
      EndsCounts(names, l);
    }
  }

  lemma {:induction false} NoLinksNoDegrees(names: seq<Name>)
    ensures DegreeSum(names, []) == 0
  {
    if names != [] {
      NoLinksNoDegrees(names[1..]);
    }
  }

  // ----- the interfaces taken down

  function Pair(l: Link): set<Name> {
    {l.endpointA, l.endpointB}
  }

  ghost predicate LabCovers(t: Topology, lab: Lab) {
    forall l | l in t.links :: Pair(l) in lab.pairs
  }

  /** The lab gives every link at `n` an interface of its own. */
  predicate DistinctInterfaces(lab: Lab, n: Name)
    requires forall pair | pair in lab.pairs :: lab.pairs[pair].interfaces.Keys == pair
  {
    forall p, q | p in lab.pairs && q in lab.pairs && n in p && n in q && p != q ::
        lab.pairs[p].interfaces[n] != lab.pairs[q].interfaces[n]
  }

  function InterfacesOf(lab: Lab, n: Name): set<string>
    requires forall pair | pair in lab.pairs :: lab.pairs[pair].interfaces.Keys == pair
  {
    set pair | pair in lab.pairs && n in pair :: lab.pairs[pair].interfaces[n]
  }

  function LinkInjections(lab: Lab, l: Link): seq<Injection>
    requires Pair(l) in lab.pairs && lab.pairs[Pair(l)].interfaces.Keys == Pair(l)
  {
    [Injection(l.endpointA, lab.pairs[Pair(l)].interfaces[l.endpointA]),
     Injection(l.endpointB, lab.pairs[Pair(l)].interfaces[l.endpointB])]
  }

  function NodeInjections(lab: Lab, n: Name): seq<Injection>
    requires forall pair | pair in lab.pairs :: lab.pairs[pair].interfaces.Keys == pair
  {
    var interfaces := Text.SortedSet(InterfacesOf(lab, n));
    seq(|interfaces|, i requires 0 <= i < |interfaces| => Injection(n, interfaces[i]))
  }

  /** The link loses an interface when `injections` are taken down. */
  ghost predicate Hit(lab: Lab, injections: seq<Injection>, l: Link)
    requires ValidLab(lab)
  {
    && Pair(l) in lab.pairs
    && (Injection(l.endpointA, lab.pairs[Pair(l)].interfaces[l.endpointA]) in injections
        || Injection(l.endpointB, lab.pairs[Pair(l)].interfaces[l.endpointB]) in injections)
  }

  /** What the injected fault really removes from the declared graph. */
  ghost function Isolated(t: Topology, lab: Lab, injections: seq<Injection>): Cut
    requires ValidLab(lab)
  {
    Cut(set l | l in t.links && Hit(lab, injections, l) :: l.id, {})
  }

  /** The lab gives both links the same interface at some node. */
  ghost predicate SharesInterface(lab: Lab, l: Link, k: Link)
    requires ValidLab(lab) && Pair(l) in lab.pairs && Pair(k) in lab.pairs
  {
    exists n :: n in Pair(l) && n in Pair(k) && lab.pairs[Pair(l)].interfaces[n] == lab.pairs[Pair(k)].interfaces[n]
  }

  /** No other declared link uses one of the link's two interfaces. */
  ghost predicate Exclusive(t: Topology, lab: Lab, l: Link)
    requires ValidLab(lab) && LabCovers(t, lab) && Pair(l) in lab.pairs
  {
    forall k | k in t.links && k != l :: !SharesInterface(lab, l, k)
  }

  /** Taking down a link's interfaces hits exactly the links that share one with it. */
  lemma HitMeansShared(lab: Lab, l: Link, k: Link)
    requires ValidLab(lab) && Pair(l) in lab.pairs && Pair(k) in lab.pairs
    ensures Hit(lab, LinkInjections(lab, l), k) <==> SharesInterface(lab, l, k)
  {
    var injections := LinkInjections(lab, l);
    forall n, i ensures Injection(n, i) in injections <==> n in Pair(l) && lab.pairs[Pair(l)].interfaces[n] == i {
      assert injections[0] in injections && injections[1] in injections;
    }
  }

  /** Taking down a link's interfaces removes that link alone exactly when it shares neither of them. */
  lemma LinkInjectionIsolatesLink(t: Topology, lab: Lab, l: Link)
    requires t.Valid() && ValidLab(lab) && LabCovers(t, lab) && l in t.links
    ensures Isolated(t, lab, LinkInjections(lab, l)) == LinkScenario(l.id).cut <==> Exclusive(t, lab, l)
  {
    var isolated := Isolated(t, lab, LinkInjections(lab, l));
    forall k | k in t.links ensures Hit(lab, LinkInjections(lab, l), k) <==> SharesInterface(lab, l, k) {
      HitMeansShared(lab, l, k);
    }
    assert l.endpointA in Pair(l);
    assert SharesInterface(lab, l, l);
    assert forall k | k in t.links && k.id == l.id :: k == l;
    if Exclusive(t, lab, l) {
      assert isolated.links == {l.id};
    } else {
      var k :| k in t.links && k != l && SharesInterface(lab, l, k);
      assert k.id in isolated.links && k.id != l.id;
    }
  }

  /** In a lab that names its interfaces apart, a link shares one exactly with the links parallel to it. */
  lemma OnlyParallelLinksShare(t: Topology, lab: Lab, l: Link)
    requires t.Valid() && ValidLab(lab) && LabCovers(t, lab) && l in t.links
    requires DistinctInterfaces(lab, l.endpointA) && DistinctInterfaces(lab, l.endpointB)
    ensures Exclusive(t, lab, l) <==> forall k | k in t.links && k != l :: Pair(k) != Pair(l)
  {
    forall k | k in t.links ensures SharesInterface(lab, l, k) <==> Pair(k) == Pair(l) {
      assert l.endpointA in Pair(l);
    }
  }

  /** A node's injections are its own lab interfaces, each once, in order of their names. */
  lemma NodeInjectionsListed(lab: Lab, n: Name)
    requires ValidLab(lab)
    ensures var injections := NodeInjections(lab, n);
            && (forall i, j | 0 <= i < j < |injections| :: Text.Less(injections[i].interface, injections[j].interface))
            && forall x :: x in injections <==>
                 exists pair :: pair in lab.pairs && n in pair && x == Injection(n, lab.pairs[pair].interfaces[n])
  {
    var interfaces, injections := Text.SortedSet(InterfacesOf(lab, n)), NodeInjections(lab, n);
    forall x ensures x in injections <==> x.node == n && x.interface in InterfacesOf(lab, n) {
      if x.node == n && x.interface in InterfacesOf(lab, n) {
        assert x.interface in interfaces;
        var k :| 0 <= k < |interfaces| && interfaces[k] == x.interface;
        assert injections[k] == x;
      }
    }
  }

  /** Taking down every lab interface of a node removes exactly its declared links. */
  lemma NodeInjectionIsolatesNode(t: Topology, lab: Lab, n: Name)
    requires t.Valid() && ValidLab(lab) && LabCovers(t, lab)
    ensures Isolated(t, lab, NodeInjections(lab, n)) == Cut(Incident(t, {n}), {})
  {
    var injections := NodeInjections(lab, n);
    assert forall x, i :: Injection(x, i) in injections <==> x == n && i in InterfacesOf(lab, n) by {
      var interfaces := Text.SortedSet(InterfacesOf(lab, n));
      forall i | i in InterfacesOf(lab, n) ensures Injection(n, i) in injections {
        assert i in interfaces;
        var k :| 0 <= k < |interfaces| && interfaces[k] == i;
        assert injections[k] == Injection(n, i);
      }
    }
    forall l | l in t.links ensures Hit(lab, injections, l) <==> l.Touches(n) {
      assert Pair(l) in lab.pairs;
      if l.Touches(n) {
        assert n in Pair(l) && lab.pairs[Pair(l)].interfaces[n] in InterfacesOf(lab, n);
      }
    }
  }

  /** The metric a plan expects under a node fault is the one its injections produce. */
  lemma NodePlanPredictsIsolation(t: Topology, lab: Lab, n: Name, access: Name)
    requires t.Valid() && ValidLab(lab) && LabCovers(t, lab)
    requires n in TransportNodes(t) && access in AccessNodes(t)
    ensures PostFault(t, NodeScenario(n).cut, access) == PostFault(t, Isolated(t, lab, NodeInjections(lab, n)), access)
  {
    NodeInjectionIsolatesNode(t, lab, n);
    IsolationPreservesCosts(t, {}, {n}, access, ServiceNodes(t));
    assert {} + Incident(t, {n}) == Incident(t, {n});
  }

  /** The failed link is among the links its injections remove. */
  lemma IsolationContainsLink(t: Topology, lab: Lab, l: Link)
    requires t.Valid() && ValidLab(lab) && LabCovers(t, lab) && l in t.links
    ensures LinkScenario(l.id).cut.Within(Isolated(t, lab, LinkInjections(lab, l)))
  {
    assert Hit(lab, LinkInjections(lab, l), l);
  }

  /**
   The metric a plan expects under a link fault is the one its injections produce exactly when no service path
   is expected, or some least-cost one avoids every link that the injections remove.
   */
  lemma LinkPlanPredictsIsolation(t: Topology, lab: Lab, l: Link, access: Name)
    requires t.Valid() && ValidLab(lab) && LabCovers(t, lab) && l in t.links
    ensures var expected, isolated := PostFault(t, LinkScenario(l.id).cut, access),
            Isolated(t, lab, LinkInjections(lab, l));
            expected == PostFault(t, isolated, access)
            <==> expected.None? || OptimalSurvives(t, LinkScenario(l.id).cut, isolated, access, ServiceNodes(t))
  {
    IsolationContainsLink(t, lab, l);
    SameCostMeansOptimalSurvives(t, LinkScenario(l.id).cut, Isolated(t, lab, LinkInjections(lab, l)), access,
                                 ServiceNodes(t));
  }

  /** A link with interfaces of its own is always predicted. */
  lemma ExclusiveLinkIsPredicted(t: Topology, lab: Lab, l: Link, access: Name)
    requires t.Valid() && ValidLab(lab) && LabCovers(t, lab) && l in t.links && Exclusive(t, lab, l)
    ensures PostFault(t, LinkScenario(l.id).cut, access)
              == PostFault(t, Isolated(t, lab, LinkInjections(lab, l)), access)
  {
    LinkInjectionIsolatesLink(t, lab, l);
  }

  // ----- the plan

  /** The injections and expectations planned for one fault. */
  ghost predicate PlansFault(t: Topology, lab: Lab, accessNodes: seq<Name>, fault: FaultScenario, plan: FaultPlan)
    requires t.Valid() && ValidLab(lab)
  {
    && plan.fault == fault && PathsFor(t, fault.cut, accessNodes, plan.paths)
    && if fault.kind.LinkFault? then
      exists l :: l in t.links && fault == LinkScenario(l.id) && PlansLink(lab, l, plan)
    else
      exists n :: n in TransportNodes(t) && fault == NodeScenario(n) && plan.component == n
          && plan.injections == NodeInjections(lab, n)
  }

  ghost predicate PlansLink(lab: Lab, l: Link, plan: FaultPlan)
    requires ValidLab(lab)
  {
    Pair(l) in lab.pairs && plan.component == l.id && plan.injections == LinkInjections(lab, l)
  }

  /** A single fault of the design: one link, or one transport node. */
  ghost predicate DesignFault(t: Topology, fault: FaultScenario) {
    if fault.kind.LinkFault? then
      exists l :: l in t.links && fault == LinkScenario(l.id)
    else
      exists n :: n in TransportNodes(t) && fault == NodeScenario(n)
  }

  /** The lab supplies what the fault needs. */
  ghost predicate LabSupports(t: Topology, lab: Lab, fault: FaultScenario)
    requires t.Valid() && ValidLab(lab)
  {
    && (forall l | l in t.links && fault == LinkScenario(l.id) :: Pair(l) in lab.pairs)
    && (forall n | n in TransportNodes(t) && fault == NodeScenario(n) :: NodePlannable(lab, n))
  }

  ghost predicate NodePlannable(lab: Lab, n: Name)
    requires ValidLab(lab)
  {
    InterfacesOf(lab, n) != {} && DistinctInterfaces(lab, n) && |InterfacesOf(lab, n)| <= MAX_INJECTIONS
  }

  ghost predicate LabReady(t: Topology, lab: Lab)
    requires ValidLab(lab)
  {
    LabCovers(t, lab) && forall n | n in TransportNodes(t) :: NodePlannable(lab, n)
  }

  ghost predicate EveryNodeLinked(t: Topology) {
    forall n | n in t.nodes :: Degree(t.links, n) != 0
  }

  ghost predicate NeighborsBounded(t: Topology) {
    forall n | n in t.nodes :: Degree(t.links, n) <= MAX_NEIGHBORS
  }

  predicate WithinLimits(t: Topology) {
    1 <= |t.nodes| <= MAX_NODES && 1 <= |t.links| <= MAX_LINKS
  }

  predicate NamesBounded(t: Topology) {
    forall n | n in t.nodes :: |n| <= MAX_NAME
  }

  function Octet(n: int): string
    requires 0 <= n < 256
  {
    if n < 10 then ['0' + n as char] else Octet(n / 10) + ['0' + (n % 10) as char]
  }

  /** An octet is its number in decimal, without leading zeros. */
  lemma {:induction false} OctetIsDecimal(n: int)
    requires 0 <= n < 256
    ensures Text.IsDecimal(Octet(n)) && Text.Number(Octet(n)) == n
    ensures 1 <= |Octet(n)| && (|Octet(n)| == 1 || Octet(n)[0] != '0')
  {
    if n >= 10 {
      OctetIsDecimal(n / 10);
      assert Octet(n)[..|Octet(n)| - 1] == Octet(n / 10);
    } else {
      assert Text.Number(Octet(n)[..0]) == 0;
    }
  }

  function Quad(a: int, b: int, c: int, d: int): string
    requires 0 <= a < 256 && 0 <= b < 256 && 0 <= c < 256 && 0 <= d < 256
  {
    Octet(a) + "." + Octet(b) + "." + Octet(c) + "." + Octet(d)
  }

  predicate EndsWithHostMask(s: string) {
    |s| >= 3 && s[|s| - 3..] == "/32"
  }

  /** The service prefix as the plan writes it. */
  function HostText(s: string): string {
    if EndsWithHostMask(s) then s else s + "/32"
  }

  /** An IPv4 network of one address, written with or without its mask. */
  predicate IsHostPrefix(s: string) {
    exists a, b, c, d | 0 <= a < 256 && 0 <= b < 256 && 0 <= c < 256 && 0 <= d < 256 ::
        HostText(s) == Quad(a, b, c, d) + "/32"
  }

  /** Four octets hold no slash, so they do not end with a mask. */
  lemma QuadHasNoMask(a: int, b: int, c: int, d: int)
    requires 0 <= a < 256 && 0 <= b < 256 && 0 <= c < 256 && 0 <= d < 256
    ensures !EndsWithHostMask(Quad(a, b, c, d)) && EndsWithHostMask(Quad(a, b, c, d) + "/32")
  {
    OctetIsDecimal(a);
    OctetIsDecimal(b);
    OctetIsDecimal(c);
    OctetIsDecimal(d);
    var s, last := Quad(a, b, c, d), Octet(d);
    assert s[|s| - |last|..] == last;
    assert s == (Octet(a) + "." + Octet(b) + "." + Octet(c) + ".") + last;
    assert (s + "/32")[|s + "/32"| - 3..] == "/32";
    assert "/32"[0] == '/' && "/32"[1] == '3';
    NoSlash(Octet(a) + "." + Octet(b) + "." + Octet(c) + ".", last);
  }

  lemma NoSlash(head: string, last: string)
    requires (forall i | 0 <= i < |head| :: head[i] != '/') && forall i | 0 <= i < |last| :: last[i] != '/'
    ensures !EndsWithHostMask(head + last)
  {
    var s := head + last;
    assert forall i | 0 <= i < |s| :: s[i] != '/';
    if |s| >= 3 {
      assert s[|s| - 3..][0] == s[|s| - 3] && "/32"[0] == '/';
    }
  }

  /** A host prefix is four octets, alone or with the mask "/32"; the plan writes it with the mask. */
  lemma HostPrefixMeans(s: string)
    ensures IsHostPrefix(s) <==>
            exists a, b, c, d | 0 <= a < 256 && 0 <= b < 256 && 0 <= c < 256 && 0 <= d < 256 ::
              s == Quad(a, b, c, d) || s == Quad(a, b, c, d) + "/32"
  {
    forall a, b, c, d | 0 <= a < 256 && 0 <= b < 256 && 0 <= c < 256 && 0 <= d < 256
      ensures HostText(s) == Quad(a, b, c, d) + "/32" <==> s == Quad(a, b, c, d) || s == Quad(a, b, c, d) + "/32"
    {
      QuadHasNoMask(a, b, c, d);
      SameBeforeMask(s, Quad(a, b, c, d));
    }
  }

  lemma SameBeforeMask(s: string, q: string)
    ensures s + "/32" == q + "/32" <==> s == q
  {
    if s + "/32" == q + "/32" {
      assert |s| == |q| && (s + "/32")[..|s|] == s && (q + "/32")[..|q|] == q;
    }
  }

  ghost predicate SizesAllowed(t: Topology) {
    && WithinLimits(t)
    && 1 <= |AccessNodes(t)| <= MAX_ACCESS
    && |Prefixes(t, Text.SortedSet(t.nodes.Keys))| <= MAX_PREFIXES
    && |Prefixes(t, Text.SortedSet(ServiceNodes(t)))| == 1
    && TransportNodes(t) != {} && |t.LinkIds()| + |TransportNodes(t)| <= MAX_SCENARIOS
  }

  /** The sizes that a design may have, in numbers. */
  lemma SizesInNumbers(t: Topology)
    ensures SizesAllowed(t) <==>
            AllowedNumbers(t, |DeclaredPrefixes(t, t.nodes.Keys)|, |DeclaredPrefixes(t, ServiceNodes(t))|)
  {
    PrefixTotal(t, t.nodes.Keys);
    PrefixTotal(t, ServiceNodes(t));
    SizesByPrefixes(t, |DeclaredPrefixes(t, t.nodes.Keys)|, |DeclaredPrefixes(t, ServiceNodes(t))|);
  }

  ghost predicate AllowedNumbers(t: Topology, prefixes: int, servicePrefixes: int) {
    && 1 <= |t.nodes| <= 64 && 1 <= |t.links| <= 128 && 1 <= |AccessNodes(t)| <= 16
    && prefixes <= 128 && servicePrefixes == 1
    && TransportNodes(t) != {} && |t.LinkIds()| + |TransportNodes(t)| <= 64
  }

  lemma SizesByPrefixes(t: Topology, prefixes: int, servicePrefixes: int)
    requires |Prefixes(t, Text.SortedSet(t.nodes.Keys))| == prefixes
    requires |Prefixes(t, Text.SortedSet(ServiceNodes(t)))| == servicePrefixes
    ensures SizesAllowed(t) <==> AllowedNumbers(t, prefixes, servicePrefixes)
  {
  }

  lemma PrefixTotal(t: Topology, names: set<Name>)
    requires names <= t.nodes.Keys
    ensures |Prefixes(t, Text.SortedSet(names))| == |DeclaredPrefixes(t, names)|
  {
    PrefixCount(t, Text.SortedSet(names));
    assert (set n | n in Text.SortedSet(names)) == names;
  }

  /** The places where the nodes declare a prefix. */
  ghost function DeclaredPrefixes(t: Topology, names: set<Name>): set<(Name, int)> {
    set n, k | n in names && n in t.nodes && 0 <= k < |t.nodes[n].prefixes| :: (n, k)
  }

  ghost function Places(n: Name, count: nat): set<(Name, int)> {
    set k | 0 <= k < count :: (n, k)
  }

  lemma {:induction false} PlacesCount(n: Name, count: nat)
    ensures |Places(n, count)| == count
  {
    if count == 0 {
      assert Places(n, count) == {};
    } else {
      PlacesCount(n, count - 1);
      assert Places(n, count) == Places(n, count - 1) + {(n, count - 1)};
    }
  }

  lemma {:induction false} PrefixCount(t: Topology, names: seq<Name>)
    requires Text.StrictlyAscending(names) && forall n | n in names :: n in t.nodes
    ensures |Prefixes(t, names)| == |DeclaredPrefixes(t, (set n | n in names))|
  {
    if names == [] {
      assert DeclaredPrefixes(t, {}) == {};
    } else {
      var first, rest := names[0], names[1..];
      assert names == [first] + rest;
      PrefixCount(t, rest);
      PlacesCount(first, |t.nodes[first].prefixes|);
      Text.LessIrreflexive(first);
      assert first !in rest;
      DeclaredStep(t, first, (set n | n in rest));
      assert (set n | n in names) == {first} + (set n | n in rest);
    }
  }

  lemma DeclaredStep(t: Topology, first: Name, rest: set<Name>)
    requires first in t.nodes && first !in rest
    ensures |DeclaredPrefixes(t, {first} + rest)|
              == |Places(first, |t.nodes[first].prefixes|)| + |DeclaredPrefixes(t, rest)|
  {
    var here, there := Places(first, |t.nodes[first].prefixes|), DeclaredPrefixes(t, rest);
    assert DeclaredPrefixes(t, {first} + rest) == here + there;
    assert here !! there;
  }

  /** The other bounds of the plan's fields, in numbers. */
  lemma FieldsInNumbers(t: Topology, lab: Lab, n: Name)
    requires SizesAllowed(t) && ValidLab(lab)
    ensures FieldsAllowed(t) <==>
            && (forall m | m in t.nodes :: Degree(t.links, m) <= 16 && |m| <= 64)
            && IsHostPrefix(ServicePrefix(t))
    ensures NodePlannable(lab, n) <==> DistinctInterfaces(lab, n) && 1 <= |InterfacesOf(lab, n)| <= 16
  {
    assert |InterfacesOf(lab, n)| == 0 <==> InterfacesOf(lab, n) == {};
  }

  /** The one service prefix of a design within its sizes. */
  function ServicePrefix(t: Topology): string
    requires |Prefixes(t, Text.SortedSet(ServiceNodes(t)))| == 1
  {
    Prefixes(t, Text.SortedSet(ServiceNodes(t)))[0]
  }

  /** What the plan's own field bounds ask, beyond the sizes checked on the way. */
  ghost predicate FieldsAllowed(t: Topology)
    requires SizesAllowed(t)
  {
    NeighborsBounded(t) && NamesBounded(t) && IsHostPrefix(ServicePrefix(t))
  }

  /** Everything a plan needs of the design and of the lab. */
  ghost predicate Plannable(t: Topology, lab: Lab)
    requires t.Valid() && ValidLab(lab)
  {
    SizesAllowed(t) && HasBaselines(t) && EveryNodeLinked(t) && LabReady(t, lab) && FieldsAllowed(t)
  }

  /** Every link in name order, then every transport node in name order. */
  function Faults(t: Topology): seq<FaultScenario> {
    LinkFaults(t) + NodeFaults(t)
  }

  ghost predicate ListsDegrees(t: Topology, adjacencies: seq<(Name, nat)>) {
    var names := Text.SortedSet(t.nodes.Keys);
    |adjacencies| == |names| && forall i | 0 <= i < |names| :: adjacencies[i] == (names[i], Degree(t.links, names[i]))
  }

  ghost predicate PlansFaults(t: Topology, lab: Lab, accessNodes: seq<Name>, faults: seq<FaultScenario>,
                              plans: seq<FaultPlan>)
    requires t.Valid() && ValidLab(lab)
  {
    |plans| == |faults| && forall i | 0 <= i < |plans| :: PlansFault(t, lab, accessNodes, faults[i], plans[i])
  }

  ghost predicate IsPlan(t: Topology, lab: Lab, plan: Plan)
    requires t.Valid() && ValidLab(lab)
  {
    && |Prefixes(t, Text.SortedSet(ServiceNodes(t)))| == 1 && plan.servicePrefix == HostText(ServicePrefix(t))
    && ListsDegrees(t, plan.adjacencies)
    && PlansFaults(t, lab, Text.SortedSet(AccessNodes(t)), Faults(t), plan.scenarios)
  }

  lemma SortedIdsDistinct(names: seq<string>, kind: string)
    requires Text.StrictlyAscending(names)
    ensures forall i, j | 0 <= i < j < |names| :: kind + names[i] != kind + names[j]
  {
    forall i, j | 0 <= i < j < |names| ensures kind + names[i] != kind + names[j] {
      Text.LessIrreflexive(names[i]);
      assert (kind + names[i])[|kind|..] == names[i] && (kind + names[j])[|kind|..] == names[j];
    }
  }

  lemma LinkFaultsFacts(t: Topology)
    ensures |LinkFaults(t)| == |t.LinkIds()|
    ensures DistinctIds(LinkFaults(t))
    ensures forall s | s in LinkFaults(t) :: s.id[..5] == "link:" && s.kind == LinkFault && t.Knows(s.cut)
    ensures forall s | s in LinkFaults(t) :: exists l :: l in t.links && s == LinkScenario(l.id)
    ensures forall l | l in t.links :: LinkScenario(l.id) in LinkFaults(t)
  {
    var ids := Text.SortedSet(t.LinkIds());
    Text.SortedSetLength(t.LinkIds());
    SortedIdsDistinct(ids, "link:");
    forall i | 0 <= i < |ids| ensures exists l ::
        l in t.links && LinkFaults(t)[i] == LinkScenario(l.id) && t.Knows(LinkScenario(l.id).cut) {
      assert ids[i] in ids;
      var l :| l in t.links && l.id == ids[i];
    }
    forall l | l in t.links ensures LinkScenario(l.id) in LinkFaults(t) {
      assert l.id in ids;
      var i :| 0 <= i < |ids| && ids[i] == l.id;
      assert LinkFaults(t)[i] == LinkScenario(l.id);
    }
  }

  lemma NodeFaultsFacts(t: Topology)
    ensures |NodeFaults(t)| == |TransportNodes(t)|
    ensures DistinctIds(NodeFaults(t))
    ensures forall s | s in NodeFaults(t) :: s.id[..5] == "node:" && s.kind == NodeFault && t.Knows(s.cut)
    ensures forall s | s in NodeFaults(t) :: exists n :: n in TransportNodes(t) && s == NodeScenario(n)
    ensures forall n | n in TransportNodes(t) :: NodeScenario(n) in NodeFaults(t)
  {
    var names := Text.SortedSet(TransportNodes(t));
    Text.SortedSetLength(TransportNodes(t));
    SortedIdsDistinct(names, "node:");
    forall i | 0 <= i < |names| ensures NodeFaults(t)[i] == NodeScenario(names[i]) && names[i] in TransportNodes(t) {
      assert names[i] in names;
    }
    forall n | n in TransportNodes(t) ensures NodeScenario(n) in NodeFaults(t) {
      assert n in names;
      var i :| 0 <= i < |names| && names[i] == n;
      assert NodeFaults(t)[i] == NodeScenario(n);
    }
  }

  lemma DistinctIdsOfConcat(s: seq<FaultScenario>, r: seq<FaultScenario>)
    requires DistinctIds(s) && DistinctIds(r)
    requires forall x, y | x in s && y in r :: x.id != y.id
    ensures DistinctIds(s + r)
  {
    assert forall i | 0 <= i < |s| :: s[i] in s;
    assert forall i | 0 <= i < |r| :: r[i] in r;
  }

  lemma FaultsAreAuditable(t: Topology)
    ensures DistinctIds(Faults(t))
    ensures forall s | s in Faults(t) :: t.Knows(s.cut)
    ensures |Faults(t)| == |t.LinkIds()| + |TransportNodes(t)|
  {
    LinkFaultsFacts(t);
    NodeFaultsFacts(t);
    assert "link:"[0] != "node:"[0];
    DistinctIdsOfConcat(LinkFaults(t), NodeFaults(t));
  }

  lemma ReadySupports(t: Topology, lab: Lab, s: FaultScenario)
    requires t.Valid() && ValidLab(lab) && LabReady(t, lab) && DesignFault(t, s)
    ensures LabSupports(t, lab, s)
  {
    if s.kind.LinkFault? {
      var l :| l in t.links && s == LinkScenario(l.id);
    } else {
      var n :| n in TransportNodes(t) && s == NodeScenario(n);
    }
  }

  lemma LabSupportsAll(t: Topology, lab: Lab)
    requires t.Valid() && ValidLab(lab)
    ensures LabReady(t, lab) <==> forall s | s in Faults(t) :: LabSupports(t, lab, s)
  {
    if LabReady(t, lab) {
      FaultsAreDesignFaults(t);
      forall s | s in Faults(t) ensures LabSupports(t, lab, s) {
        ReadySupports(t, lab, s);
      }
    } else if l :| l in t.links && Pair(l) !in lab.pairs {
      LinkFaultsFacts(t);
      assert LinkScenario(l.id) in Faults(t);
    } else {
      var n :| n in TransportNodes(t) && !NodePlannable(lab, n);
      NodeFaultsFacts(t);
      assert NodeScenario(n) in Faults(t);
    }
  }

  /** One pass of the planning loop, for a link: its two ends in the lab. */
  method PlanLinkFault(t: Topology, lab: Lab, ghost accessNodes: seq<Name>, link: Link, paths: seq<AccessPath>)
    returns (r: Result<FaultPlan, PlanError>)
    requires t.Valid() && ValidLab(lab) && link in t.links && PathsFor(t, LinkScenario(link.id).cut, accessNodes, paths)
    ensures r.Success? <==> Pair(link) in lab.pairs
    ensures r.Success? ==> PlansFault(t, lab, accessNodes, LinkScenario(link.id), r.value)
    ensures r.Failure? ==> r.error == MissingLabLink(link.id)
  {
    if Pair(link) !in lab.pairs {
      return Failure(MissingLabLink(link.id));
    }
    r := Success(FaultPlan(LinkScenario(link.id), link.id, LinkInjections(lab, link), paths));
    assert PlansLink(lab, link, r.value);
  }

  /** One pass of the planning loop, for a transport node: every lab interface it has. */
  method PlanNodeFault(t: Topology, lab: Lab, ghost accessNodes: seq<Name>, node: Name, paths: seq<AccessPath>)
    returns (r: Result<FaultPlan, PlanError>)
    requires t.Valid() && ValidLab(lab) && node in TransportNodes(t)
             && PathsFor(t, NodeScenario(node).cut, accessNodes, paths)
    ensures r.Success? <==> NodePlannable(lab, node)
    ensures r.Success? ==> PlansFault(t, lab, accessNodes, NodeScenario(node), r.value)
    ensures r.Failure? ==>
              match r.error
              case MissingLabNode(n) => n == node && InterfacesOf(lab, n) == {}
              case RepeatedInterface(n) => n == node && !DistinctInterfaces(lab, n)
              case SizeLimit => |InterfacesOf(lab, node)| > MAX_INJECTIONS
              case _ => false
  {
    if InterfacesOf(lab, node) == {} {
      return Failure(MissingLabNode(node));
    }
    if !DistinctInterfaces(lab, node) {
      return Failure(RepeatedInterface(node));
    }
    if |InterfacesOf(lab, node)| > MAX_INJECTIONS {
      return Failure(SizeLimit);
    }
    r := Success(FaultPlan(NodeScenario(node), node, NodeInjections(lab, node), paths));
  }

  method PlanFault(t: Topology, lab: Lab, ghost accessNodes: seq<Name>, result: ScenarioResult)
    returns (r: Result<FaultPlan, PlanError>)
    requires t.Valid() && ValidLab(lab) && DesignFault(t, result.fault)
             && PathsFor(t, result.fault.cut, accessNodes, result.paths)
    ensures r.Success? <==> LabSupports(t, lab, result.fault)
    ensures r.Success? ==> PlansFault(t, lab, accessNodes, result.fault, r.value)
    ensures r.Failure? ==> LabRefusedFor(t, lab, r.error)
  {
    if result.fault.kind.LinkFault? {
      var link :| link in t.links && result.fault == LinkScenario(link.id);
      r := PlanLinkFault(t, lab, accessNodes, link, result.paths);
    } else {
      var node :| node in TransportNodes(t) && result.fault == NodeScenario(node);
      r := PlanNodeFault(t, lab, accessNodes, node, result.paths);
    }
  }

  method PlanFaults(t: Topology, lab: Lab, ghost accessNodes: seq<Name>, ghost faults: seq<FaultScenario>,
                    results: seq<ScenarioResult>)
    returns (r: Result<seq<FaultPlan>, PlanError>)
    requires t.Valid() && ValidLab(lab) && |results| == |faults|
    requires forall i | 0 <= i < |results| ::
               results[i].fault == faults[i] && PathsFor(t, faults[i].cut, accessNodes, results[i].paths)
    requires forall s | s in faults :: DesignFault(t, s)
    ensures r.Success? <==> forall s | s in faults :: LabSupports(t, lab, s)
    ensures r.Success? ==> PlansFaults(t, lab, accessNodes, faults, r.value)
    ensures r.Failure? ==> LabRefusedFor(t, lab, r.error)
  {
    var scenarios: seq<FaultPlan> := [];
    for i := 0 to |results|
      invariant forall s | s in faults[..i] :: LabSupports(t, lab, s)
      invariant PlansFaults(t, lab, accessNodes, faults[..i], scenarios)
    {
      assert faults[i] in faults;
      var plan := PlanFault(t, lab, accessNodes, results[i]);
      if plan.Failure? {
        return Failure(plan.error);
      }
      PrefixStep(faults, i);
      scenarios := scenarios + [plan.value];
    }
    assert faults[..|faults|] == faults;
    return Success(scenarios);
  }

  /** A refusal before the audit names a limit that the design breaks. */
  ghost predicate SizeRefused(t: Topology, e: PlanError) {
    match e
    case TopologyLimit => !WithinLimits(t)
    case AccessNodeLimit => !(1 <= |AccessNodes(t)| <= MAX_ACCESS)
    case PrefixLimit => |Prefixes(t, Text.SortedSet(t.nodes.Keys))| > MAX_PREFIXES
    case ServicePrefixCount => |Prefixes(t, Text.SortedSet(ServiceNodes(t)))| != 1
    case NoTransportNode => TransportNodes(t) == {}
    case ScenarioLimit => |t.LinkIds()| + |TransportNodes(t)| > MAX_SCENARIOS
    case _ => false
  }

  ghost predicate DesignRefusedFor(t: Topology, e: PlanError)
    requires t.Valid()
  {
    if e.AuditRefused? then RefusedFor(t, Faults(t), e.error) else SizeRefused(t, e)
  }

  /** A refusal for the lab names a link or a node that lacks something, or a limit that is broken. */
  ghost predicate LabRefusedFor(t: Topology, lab: Lab, e: PlanError)
    requires t.Valid() && ValidLab(lab)
  {
    match e
    case MissingLabLink(link) => exists l :: l in t.links && l.id == link && Pair(l) !in lab.pairs
    case MissingLabNode(n) => n in TransportNodes(t) && InterfacesOf(lab, n) == {}
    case RepeatedInterface(n) => n in TransportNodes(t) && !DistinctInterfaces(lab, n)
    case SizeLimit => exists n :: n in TransportNodes(t) && |InterfacesOf(lab, n)| > MAX_INJECTIONS
    case _ => false
  }

  /** What a refusal says is so. */
  ghost predicate PlanRefusedFor(t: Topology, lab: Lab, e: PlanError)
    requires t.Valid() && ValidLab(lab)
  {
    || DesignRefusedFor(t, e)
    || LabRefusedFor(t, lab, e)
    || (e == IsolatedNode && !EveryNodeLinked(t))
    || (e == SizeLimit && !NeighborsBounded(t))
    || (e == NameLimit && !NamesBounded(t))
    || (e == ServicePrefixKind && SizesAllowed(t) && !IsHostPrefix(ServicePrefix(t)))
  }

  /** The limits checked before the audit, and the faults to audit. */
  method ListFaults(t: Topology) returns (r: Result<seq<FaultScenario>, PlanError>)
    requires t.Valid()
    ensures r.Success? <==> SizesAllowed(t)
    ensures r.Success? ==> r.value == Faults(t) && r.value != [] && AccessNodes(t) != {} && ServiceNodes(t) != {}
    ensures r.Failure? ==> SizeRefused(t, r.error)
  {
    if !WithinLimits(t) {
      return Failure(TopologyLimit);
    }
    if !(1 <= |AccessNodes(t)| <= MAX_ACCESS) {
      return Failure(AccessNodeLimit);
    }
    if |Prefixes(t, Text.SortedSet(t.nodes.Keys))| > MAX_PREFIXES {
      return Failure(PrefixLimit);
    }
    if |Prefixes(t, Text.SortedSet(ServiceNodes(t)))| != 1 {
      return Failure(ServicePrefixCount);
    }
    assert ServiceNodes(t) != {};
    if TransportNodes(t) == {} {
      return Failure(NoTransportNode);
    }
    var faults := Faults(t);
    FaultCount(t);
    if |faults| > MAX_SCENARIOS {
      return Failure(ScenarioLimit);
    }
    return Success(faults);
  }

  lemma FaultCount(t: Topology)
    ensures |Faults(t)| == |t.LinkIds()| + |TransportNodes(t)|
  {
    Text.SortedSetLength(t.LinkIds());
    Text.SortedSetLength(TransportNodes(t));
  }

  lemma FaultsAreDesignFaults(t: Topology)
    ensures forall s | s in Faults(t) :: DesignFault(t, s)
  {
    LinkFaultsFacts(t);
    NodeFaultsFacts(t);
  }

  method ListAdjacencies(t: Topology, degrees: map<Name, nat>) returns (r: Result<seq<(Name, nat)>, PlanError>)
    requires degrees.Keys == t.nodes.Keys && forall n | n in degrees :: degrees[n] == Degree(t.links, n)
    ensures r.Success? <==> EveryNodeLinked(t) && NeighborsBounded(t)
    ensures r.Success? ==> ListsDegrees(t, r.value)
    ensures r == Failure(IsolatedNode) <==> !EveryNodeLinked(t)
    ensures r.Failure? ==> r.error == IsolatedNode || (r.error == SizeLimit && !NeighborsBounded(t))
  {
    if n :| n in degrees && degrees[n] == 0 {
      return Failure(IsolatedNode);
    }
    if n :| n in degrees && degrees[n] > MAX_NEIGHBORS {
      return Failure(SizeLimit);
    }
    var names := Text.SortedSet(t.nodes.Keys);
    assert forall i | 0 <= i < |names| :: names[i] in names;
    return Success(seq(|names|, i requires 0 <= i < |names| => (names[i], degrees[names[i]])));
  }

  ghost predicate AuditsFaults(t: Topology, accessNodes: seq<Name>, faults: seq<FaultScenario>,
                               results: seq<ScenarioResult>)
    requires t.Valid()
  {
    |results| == |faults| &&
    forall i | 0 <= i < |results| :: results[i].fault == faults[i]
        && PathsFor(t, faults[i].cut, accessNodes, results[i].paths)
  }

  lemma ClassifiedFaultsAreAudited(t: Topology, results: seq<ScenarioResult>)
    requires t.Valid() && |results| == |Faults(t)|
    requires forall i | 0 <= i < |results| :: Classifies(t, Faults(t)[i], results[i])
    ensures AuditsFaults(t, Text.SortedSet(AccessNodes(t)), Faults(t), results)
  {
  }

  lemma DesignIsAuditable(t: Topology)
    requires t.Valid() && SizesAllowed(t) && Faults(t) != [] && ServiceNodes(t) != {}
    ensures Auditable(t, Faults(t)) <==> HasBaselines(t)
  {
    FaultsAreAuditable(t);
  }

  /** The faults audited, in order, with their paths. */
  method AuditDesign(t: Topology) returns (r: Result<seq<ScenarioResult>, PlanError>)
    requires t.Valid()
    ensures r.Success? <==> SizesAllowed(t) && HasBaselines(t)
    ensures r.Success? ==> AuditsFaults(t, Text.SortedSet(AccessNodes(t)), Faults(t), r.value)
    ensures r.Failure? ==> DesignRefusedFor(t, r.error)
  {
    var faults :- ListFaults(t);
    DesignIsAuditable(t);
    r := AuditListed(t, faults);
  }

  method AuditListed(t: Topology, faults: seq<FaultScenario>) returns (r: Result<seq<ScenarioResult>, PlanError>)
    requires t.Valid() && faults == Faults(t)
    ensures r.Success? <==> Auditable(t, faults)
    ensures r.Success? ==> AuditsFaults(t, Text.SortedSet(AccessNodes(t)), faults, r.value)
    ensures r.Failure? ==> r.error.AuditRefused? && RefusedFor(t, faults, r.error.error)
  {
    var audit := AuditFaultScenarios(t, faults);
    if audit.Failure? {
      return Failure(AuditRefused(audit.error));
    }
    ClassifiedFaultsAreAudited(t, audit.value);
    return Success(audit.value);
  }

  method PlanScenarios(t: Topology, lab: Lab, results: seq<ScenarioResult>)
    returns (r: Result<seq<FaultPlan>, PlanError>)
    requires t.Valid() && ValidLab(lab) && AuditsFaults(t, Text.SortedSet(AccessNodes(t)), Faults(t), results)
    ensures r.Success? <==> LabReady(t, lab)
    ensures r.Success? ==> PlansFaults(t, lab, Text.SortedSet(AccessNodes(t)), Faults(t), r.value)
    ensures r.Failure? ==> LabRefusedFor(t, lab, r.error)
  {
    FaultsAreDesignFaults(t);
    LabSupportsAll(t, lab);
    r := PlanFaults(t, lab, Text.SortedSet(AccessNodes(t)), Faults(t), results);
  }

  ghost function Assemble(t: Topology, adjacencies: seq<(Name, nat)>, scenarios: seq<FaultPlan>): Plan
    requires SizesAllowed(t)
  {
    Plan(HostText(ServicePrefix(t)), adjacencies, scenarios)
  }

  lemma AssembledIsPlan(t: Topology, lab: Lab, adjacencies: seq<(Name, nat)>, scenarios: seq<FaultPlan>)
    requires t.Valid() && ValidLab(lab) && SizesAllowed(t) && ListsDegrees(t, adjacencies)
    requires PlansFaults(t, lab, Text.SortedSet(AccessNodes(t)), Faults(t), scenarios)
    ensures IsPlan(t, lab, Assemble(t, adjacencies, scenarios))
  {
  }

  method BuildRuntimeN1Plan(t: Topology, lab: Lab) returns (r: Result<Plan, PlanError>)
    requires t.Valid() && ValidLab(lab)
    ensures r.Success? <==> Plannable(t, lab)
    ensures r.Failure? ==> PlanRefusedFor(t, lab, r.error)
    ensures r.Success? ==> IsPlan(t, lab, r.value)
  {
    var results :- AuditDesign(t);
    var degrees := CountDegrees(t);
    var adjacencies := ListAdjacencies(t, degrees);
    if adjacencies == Failure(IsolatedNode) {
      return Failure(IsolatedNode);
    }
    var scenarios :- PlanScenarios(t, lab, results);
    if adjacencies.Failure? {
      return Failure(adjacencies.error);
    }
    if !NamesBounded(t) {
      return Failure(NameLimit);
    }
    if !IsHostPrefix(ServicePrefix(t)) {
      return Failure(ServicePrefixKind);
    }
    AssembledIsPlan(t, lab, adjacencies.value, scenarios);
    return Success(Plan(HostText(ServicePrefix(t)), adjacencies.value, scenarios));
  }

  /** A node's fault, or no path expected, or a least-cost path that avoids everything the injections remove. */
  ghost predicate ExpectationHolds(t: Topology, lab: Lab, scenario: FaultPlan, path: AccessPath)
    requires t.Valid() && ValidLab(lab)
  {
    || !scenario.fault.kind.LinkFault?
    || path.postFaultCost.None?
    || OptimalSurvives(t, scenario.fault.cut, Isolated(t, lab, scenario.injections), path.accessNode, ServiceNodes(t))
  }

  /**
   An expectation of a built plan is the cost that its injections leave exactly when the fault is a node's, or
   no service path is expected, or some least-cost one avoids everything that the injections remove.
   */
  lemma PlanPredictsInjectedFaults(t: Topology, lab: Lab, plan: Plan, i: nat, j: nat)
    requires t.Valid() && ValidLab(lab) && Plannable(t, lab) && IsPlan(t, lab, plan)
    requires i < |plan.scenarios| && j < |plan.scenarios[i].paths|
    ensures var scenario, path := plan.scenarios[i], plan.scenarios[i].paths[j];
            path.postFaultCost == PostFault(t, Isolated(t, lab, scenario.injections), path.accessNode)
            <==> ExpectationHolds(t, lab, scenario, path)
  {
    var accessNodes := Text.SortedSet(AccessNodes(t));
    assert PlansFault(t, lab, accessNodes, Faults(t)[i], plan.scenarios[i]);
    assert accessNodes[j] in accessNodes;
    PlannedFaultPredicts(t, lab, accessNodes, plan.scenarios[i], j);
  }

  lemma PlannedFaultPredicts(t: Topology, lab: Lab, accessNodes: seq<Name>, scenario: FaultPlan, j: nat)
    requires t.Valid() && ValidLab(lab) && LabCovers(t, lab)
             && PlansFault(t, lab, accessNodes, scenario.fault, scenario)
    requires j < |accessNodes| && accessNodes[j] in AccessNodes(t)
    ensures var path := scenario.paths[j];
            path.postFaultCost == PostFault(t, Isolated(t, lab, scenario.injections), path.accessNode)
            <==> ExpectationHolds(t, lab, scenario, path)
  {
    assert IsPath(t, scenario.fault.cut, accessNodes[j], scenario.paths[j]);
    if scenario.fault.kind.LinkFault? {
      var l :| l in t.links && scenario.fault == LinkScenario(l.id) && PlansLink(lab, l, scenario);
      LinkPlanPredictsIsolation(t, lab, l, accessNodes[j]);
    } else {
      var n :| n in TransportNodes(t) && scenario.fault == NodeScenario(n) && scenario.component == n
          && scenario.injections == NodeInjections(lab, n);
      NodePlanPredictsIsolation(t, lab, n, accessNodes[j]);
    }
  }

  // ----- where the prediction fails: parallel links

  /** An access node doubly linked to a transit node that serves it. */
  ghost predicate DoublyLinked(t: Topology, p: Link, q: Link, r: Link) {
    && t.Valid() && t.links == [p, q, r]
    && p.endpointA == q.endpointA && p.endpointB == q.endpointB && p.endpointB == r.endpointA
    && AccessNodes(t) == {p.endpointA} && r.endpointB in ServiceNodes(t)
  }

  lemma {:induction false} BothLinksDown(t: Topology, cut: Cut, p: Link, q: Link, r: Link, walk: seq<Link>, v: Name)
    requires DoublyLinked(t, p, q, r) && p.id in cut.links && q.id in cut.links
    requires Walk(t, cut, p.endpointA, walk, v)
    ensures v == p.endpointA
    decreases |walk|
  {
    if walk != [] {
      var l := walk[|walk| - 1];
      BothLinksDown(t, cut, p, q, r, walk[..|walk| - 1], l.Other(v));
    }
  }

  lemma DetourExists(t: Topology, cut: Cut, p: Link, q: Link, r: Link)
    requires DoublyLinked(t, p, q, r) && cut.nodes == {} && q.id !in cut.links && r.id !in cut.links
    ensures PostFault(t, cut, p.endpointA).Some?
  {
    assert q == t.links[1] && r == t.links[2];
    assert Walk(t, cut, p.endpointA, [], p.endpointA);
    WalkExtends(t, cut, p.endpointA, [], p.endpointA, q);
    WalkExtends(t, cut, p.endpointA, [] + [q], q.endpointB, r);
    var walk := [] + [q] + [r];
    assert Attains(t, cut, p.endpointA, r.endpointB, Cost(walk));
    assert Reaches(t, cut, p.endpointA, ServiceNodes(t), Cost(walk));
  }

  /** Parallel links share their lab link: the plan expects a detour that its own injection removes. */
  lemma ParallelLinksMispredict(t: Topology, lab: Lab, p: Link, q: Link, r: Link)
    requires DoublyLinked(t, p, q, r) && ValidLab(lab) && LabCovers(t, lab)
    ensures PostFault(t, LinkScenario(p.id).cut, p.endpointA).Some?
    ensures PostFault(t, Isolated(t, lab, LinkInjections(lab, p)), p.endpointA).None?
    ensures !Exclusive(t, lab, p)
  {
    assert p == t.links[0] && q == t.links[1] && r == t.links[2];
    DetourExists(t, LinkScenario(p.id).cut, p, q, r);
    var isolated := Isolated(t, lab, LinkInjections(lab, p));
    assert Hit(lab, LinkInjections(lab, p), p) && Hit(lab, LinkInjections(lab, p), q);
    HitMeansShared(lab, p, q);
    assert t.nodes[p.endpointA].role == Access;
    forall walk, v | Walk(t, isolated, p.endpointA, walk, v) ensures v !in ServiceNodes(t) {
      BothLinksDown(t, isolated, p, q, r, walk, v);
    }
  }

  lemma {:induction false} FewPrefixes(t: Topology, names: seq<Name>)
    requires forall n | n in names :: n in t.nodes && |t.nodes[n].prefixes| <= 1
    ensures |Prefixes(t, names)| <= |names|
  {
    if names != [] {
      FewPrefixes(t, names[1..]);
    }
  }

  lemma SortedSingleton(x: string)
    ensures Text.SortedSet({x}) == [x]
  {
    Text.AscendingUnique(Text.SortedSet({x}), [x]);
  }

  lemma LinkIdsOfThree(t: Topology, p: Link, q: Link, r: Link)
    requires t.links == [p, q, r]
    ensures t.LinkIds() == {p.id, q.id, r.id} && |t.LinkIds()| <= 3
  {
    assert p == t.links[0] && q == t.links[1] && r == t.links[2];
  }

  lemma FewPrefixesInAll(t: Topology, names: set<Name>)
    requires forall n | n in names :: n in t.nodes && |t.nodes[n].prefixes| <= 1
    ensures |Prefixes(t, Text.SortedSet(names))| <= |names|
  {
    Text.SortedSetLength(names);
    FewPrefixes(t, Text.SortedSet(names));
  }

  lemma SolePrefix(t: Topology, s: Name)
    requires s in t.nodes && |t.nodes[s].prefixes| == 1
    ensures |Prefixes(t, Text.SortedSet({s}))| == 1
  {
    SortedSingleton(s);
    assert [s][1..] == [];
  }

  lemma SmallSizes(t: Topology, s: Name)
    requires 1 <= |t.nodes.Keys| <= 3 && |t.links| == 3 && |t.LinkIds()| <= 3
             && forall n | n in t.nodes :: |t.nodes[n].prefixes| <= 1
    requires |AccessNodes(t)| == 1 && |TransportNodes(t)| == 1
    requires ServiceNodes(t) == {s} && |t.nodes[s].prefixes| == 1
    ensures SizesAllowed(t)
  {
    FewPrefixesInAll(t, t.nodes.Keys);
    SolePrefix(t, s);
  }

  lemma DegreeOfThree(links: seq<Link>, n: Name)
    requires |links| == 3
    ensures Degree(links, n) ==
            (if links[0].Touches(n) then 1 else 0) + (if links[1].Touches(n) then 1 else 0)
                + (if links[2].Touches(n) then 1 else 0)
  {
    assert links[..2][1] == links[1] && links[..2][..1][0] == links[0];
    assert Degree(links[..2][..1], n) == if links[0].Touches(n) then 1 else 0;
  }

  lemma SmallDegrees(t: Topology)
    requires t.Valid() && |t.links| == 3
    requires t.nodes.Keys == {t.links[0].endpointA, t.links[0].endpointB, t.links[2].endpointB}
    ensures EveryNodeLinked(t) && NeighborsBounded(t)
  {
    forall n | n in t.nodes ensures 1 <= Degree(t.links, n) <= 3 {
      DegreeOfThree(t.links, n);
    }
  }

  lemma SmallLab(a: Name, g: Name, s: Name, e: string, f: string) returns (lab: Lab)
    requires a != g && g != s && a != s && e != f
    ensures ValidLab(lab) && {a, g} in lab.pairs && {g, s} in lab.pairs && NodePlannable(lab, g)
  {
    var access, service := {a, g}, {g, s};
    assert a in access && a !in service;
    lab := Lab(map[access := Ends(map[a := e, g := e]), service := Ends(map[g := f, s := e])]);
    assert lab.pairs[access].interfaces[g] == e && lab.pairs[service].interfaces[g] == f;
    assert ValidLab(lab) && DistinctInterfaces(lab, g);
    assert InterfacesOf(lab, g) == {e, f};
  }

  const HOST := "10.0.0.1/32"

  lemma HostIsHostPrefix()
    ensures IsHostPrefix(HOST)
  {
    assert Octet(10) == "10";
    assert HOST == Quad(10, 0, 0, 1) + "/32";
    assert HOST[|HOST| - 3..] == "/32";
  }

  lemma SoleServicePrefix(t: Topology, s: Name, host: string)
    requires ServiceNodes(t) == {s} && s in t.nodes && t.nodes[s].prefixes == [host]
    ensures Prefixes(t, Text.SortedSet(ServiceNodes(t))) == [host]
  {
    SortedSingleton(s);
    assert Prefixes(t, [s]) == [host] + Prefixes(t, [s][1..]);
  }

  /** The access node `a`, the transit node `g` and the service node `s`, with `p` and `q` parallel and `r` onwards. */
  ghost predicate IsSmall(t: Topology, a: Name, g: Name, s: Name, p: Link, q: Link, r: Link, host: string) {
    && DoublyLinked(t, p, q, r) && t.nodes.Keys == {a, g, s} && |{a, g, s}| == 3
    && p.endpointA == a && p.endpointB == g && r.endpointB == s
    && AccessNodes(t) == {a} && TransportNodes(t) == {g} && ServiceNodes(t) == {s}
    && t.nodes[s].prefixes == [host] && t.nodes[a].prefixes == [] && t.nodes[g].prefixes == []
  }

  lemma SmallGraph(a: Name, g: Name, s: Name, p: Link, q: Link, r: Link, host: string) returns (t: Topology)
    requires a != g && g != s && a != s && p.id != q.id && q.id != r.id && p.id != r.id
    requires p.endpointA == q.endpointA == a && p.endpointB == q.endpointB == r.endpointA == g && r.endpointB == s
    requires p.cost > 0 && q.cost > 0 && r.cost > 0
    ensures IsSmall(t, a, g, s, p, q, r, host)
  {
    t := Topology(map[a := Node(a, Access, []), g := Node(g, Aggregation, []), s := Node(s, Service, [host])],
                  [p, q, r]);
    assert t.nodes.Keys == {a, g, s};
    assert AccessNodes(t) == {a} && ServiceNodes(t) == {s} && TransportNodes(t) == {g};
  }

  lemma SmallFieldsAllowed(t: Topology, a: Name, g: Name, s: Name, p: Link, q: Link, r: Link, host: string)
    requires IsSmall(t, a, g, s, p, q, r, host) && IsHostPrefix(host) && SizesAllowed(t) && NeighborsBounded(t)
    requires |a| <= MAX_NAME && |g| <= MAX_NAME && |s| <= MAX_NAME
    ensures FieldsAllowed(t)
  {
    SoleServicePrefix(t, s, host);
    ThreeNamesBounded(t, a, g, s);
  }

  lemma ThreeNamesBounded(t: Topology, a: Name, g: Name, s: Name)
    requires t.nodes.Keys == {a, g, s} && |a| <= MAX_NAME && |g| <= MAX_NAME && |s| <= MAX_NAME
    ensures NamesBounded(t)
  {
    assert forall n | n in t.nodes :: n in {a, g, s};
  }

  lemma SmallIsWithinSizes(t: Topology, a: Name, g: Name, s: Name, p: Link, q: Link, r: Link, host: string)
    requires IsSmall(t, a, g, s, p, q, r, host)
    ensures SizesAllowed(t)
  {
    LinkIdsOfThree(t, p, q, r);
    SmallSizes(t, s);
  }

  lemma SmallIsConnected(t: Topology, a: Name, g: Name, s: Name, p: Link, q: Link, r: Link, host: string)
    requires IsSmall(t, a, g, s, p, q, r, host)
    ensures HasBaselines(t) && EveryNodeLinked(t) && NeighborsBounded(t)
  {
    SmallDegrees(t);
    DetourExists(t, NO_CUT, p, q, r);
  }

  lemma SmallNames()
    ensures "a" != "g" && "g" != "s" && "a" != "s" && "p" != "q" && "q" != "r" && "p" != "r" && "eth1" != "eth2"
  {
    assert "a"[0] != "g"[0] && "g"[0] != "s"[0] && "a"[0] != "s"[0];
    assert "p"[0] != "q"[0] && "q"[0] != "r"[0] && "p"[0] != "r"[0];
    assert "eth1"[3] != "eth2"[3];
  }

  /** Such a design does get a plan: the smallest one has three nodes. */
  lemma ParallelLinksArePlannable() returns (t: Topology, lab: Lab, p: Link, q: Link, r: Link)
    ensures DoublyLinked(t, p, q, r) && ValidLab(lab) && Plannable(t, lab)
  {
    SmallNames();
    HostIsHostPrefix();
    p, q, r := Link("p", "a", "g", 1), Link("q", "a", "g", 1), Link("r", "g", "s", 1);
    t := SmallGraph("a", "g", "s", p, q, r, HOST);
    SmallIsWithinSizes(t, "a", "g", "s", p, q, r, HOST);
    SmallIsConnected(t, "a", "g", "s", p, q, r, HOST);
    SmallFieldsAllowed(t, "a", "g", "s", p, q, r, HOST);
    lab := SmallLab("a", "g", "s", "eth1", "eth2");
    assert Pair(p) == {"a", "g"} && Pair(q) == {"a", "g"} && Pair(r) == {"g", "s"};
    SmallLabReady(t, lab, p, q, r);
  }

  lemma SmallLabReady(t: Topology, lab: Lab, p: Link, q: Link, r: Link)
    requires t.links == [p, q, r] && Pair(p) in lab.pairs && Pair(q) in lab.pairs && Pair(r) in lab.pairs
    requires ValidLab(lab) && TransportNodes(t) == {r.endpointA} && NodePlannable(lab, r.endpointA)
    ensures LabReady(t, lab)
  {
  }
}
