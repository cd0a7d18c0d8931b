/** Declared shared-risk groups, audited as composite faults, and the single-link incident analysis. */
module FailureDomain {
  import opened Wrappers
  import opened Collections
  import Text
  import opened Topology
  import opened ShortestPath
  import opened Paths
  import opened Audit

  // ----- the fingerprint that binds a catalog to a design

  /** The canonical document behind a topology fingerprint; hashing it is taken to be injective. */
  datatype Document = Document(nodes: map<Name, Node>, links: set<(string, set<Name>, int)>)

  function DocumentOf(t: Topology): Document {
    Document(t.nodes, set l | l in t.links :: (l.id, {l.endpointA, l.endpointB}, l.cost))
  }

  lemma DocumentLinks(t: Topology, s: Topology)
    requires DocumentOf(t) == DocumentOf(s)
    ensures LinksWithin(t, s)
  {
    forall l | l in t.links ensures exists k :: k in s.links && SameLink(l, k) {
      assert (l.id, {l.endpointA, l.endpointB}, l.cost) in DocumentOf(s).links;
      var k :| k in s.links && (k.id, {k.endpointA, k.endpointB}, k.cost) == (l.id, {l.endpointA, l.endpointB}, l.cost);
      assert k.endpointA in {l.endpointA, l.endpointB} && k.endpointB in {l.endpointA, l.endpointB};
      assert l.endpointA in {k.endpointA, k.endpointB} && l.endpointB in {k.endpointA, k.endpointB};
      assert SameLink(l, k);
    }
  }

  /** Whatever the order links and endpoints were declared in, equal fingerprints give equal verdicts. */
  lemma FingerprintDeterminesVerdicts(t: Topology, s: Topology, cut: Cut)
    requires t.Valid() && s.Valid() && DocumentOf(t) == DocumentOf(s) && HasBaselines(t)
    ensures HasBaselines(s) && t.LinkIds() == s.LinkIds()
    ensures forall a :: Baseline(t, a) == Baseline(s, a) && PostFault(t, cut, a) == PostFault(s, cut, a)
    ensures Unavailable(t, cut) == Unavailable(s, cut) && DegradedNodes(t, cut) == DegradedNodes(s, cut)
    ensures ImpactOf(t, cut) == ImpactOf(s, cut)
  {
    DocumentLinks(t, s);
    DocumentLinks(s, t);
    forall a ensures Baseline(t, a) == Baseline(s, a) && PostFault(t, cut, a) == PostFault(s, cut, a) {
      DocumentDeterminesDistance(t, s, NO_CUT, a, ServiceNodes(t));
      DocumentDeterminesDistance(t, s, cut, a, ServiceNodes(t));
    }
    forall a | a in AccessNodes(t)
      ensures a in Unavailable(t, cut) <==> a in Unavailable(s, cut)
      ensures a in DegradedNodes(t, cut) <==> a in DegradedNodes(s, cut)
    {
      CostTestMeansWalks(t, cut, a);
      CostTestMeansWalks(s, cut, a);
    }
  }

  /** Fingerprints agree exactly on designs with the same nodes and the same links, endpoints taken without order. */
  lemma FingerprintsAgreeIff(t: Topology, s: Topology)
    ensures DocumentOf(t) == DocumentOf(s) <==> SameDocument(t, s)
  {
    if DocumentOf(t) == DocumentOf(s) {
      DocumentLinks(t, s);
      DocumentLinks(s, t);
    }
    if SameDocument(t, s) {
      SameLinkEntries(t, s);
      SameLinkEntries(s, t);
    }
  }

  lemma SameLinkEntries(t: Topology, s: Topology)
    requires LinksWithin(t, s)
    ensures DocumentOf(t).links <= DocumentOf(s).links
  {
    forall l | l in t.links ensures (l.id, {l.endpointA, l.endpointB}, l.cost) in DocumentOf(s).links {
      var k :| k in s.links && SameLink(l, k);
      assert {k.endpointA, k.endpointB} == {l.endpointA, l.endpointB};
    }
  }

  lemma SamePrefixes(t: Topology, s: Topology, names: set<Name>, prefixes: seq<string>)
    requires t.nodes == s.nodes
    ensures ListsPrefixes(t, names, prefixes) <==> ListsPrefixes(s, names, prefixes)
  {
    forall p ensures Declarations(t, names, p) == Declarations(s, names, p) {
    }
  }

  lemma SamePaths(t: Topology, s: Topology, cut: Cut, names: seq<Name>, paths: seq<AccessPath>)
    requires t.Valid() && s.Valid() && DocumentOf(t) == DocumentOf(s) && HasBaselines(t)
    ensures PathsFor(t, cut, names, paths) <==> PathsFor(s, cut, names, paths)
  {
    FingerprintDeterminesVerdicts(t, s, cut);
    forall i | 0 <= i < |paths| && i < |names|
      ensures IsPath(t, cut, names[i], paths[i]) <==> IsPath(s, cut, names[i], paths[i])
    {
    }
  }

  /** Equal fingerprints give equal results, prefixes and costs included. */
  lemma FingerprintDeterminesResults(t: Topology, s: Topology, fault: FaultScenario, r: ScenarioResult)
    requires t.Valid() && s.Valid() && DocumentOf(t) == DocumentOf(s) && HasBaselines(t)
    ensures Classifies(t, fault, r) <==> Classifies(s, fault, r)
  {
    FingerprintDeterminesVerdicts(t, s, fault.cut);
    SamePrefixes(t, s, Unavailable(t, fault.cut) + DegradedNodes(t, fault.cut), r.affectedPrefixes);
    SamePaths(t, s, fault.cut, Text.SortedSet(AccessNodes(t)), r.paths);
    assert AccessNodes(t) == AccessNodes(s);
  }

  // ----- shared-risk groups

  datatype DomainType = SharedConduit | PowerDomain | Site

  datatype Domain = Domain(kind: DomainType, links: seq<string>, nodes: seq<Name>) {
    /** The catalog's validators: unique components, at least two of them. */
    ghost predicate Valid() {
      Unique() && |links| + |nodes| >= 2
    }

    ghost predicate Unique() {
      && (forall i, j | 0 <= i < j < |links| :: links[i] != links[j])
      && (forall i, j | 0 <= i < j < |nodes| :: nodes[i] != nodes[j])
    }

    function Group(): Cut {
      Cut(set l | l in links, set n | n in nodes)
    }
  }

  datatype Catalog = Catalog(document: Document, domains: map<string, Domain>) {
    ghost predicate Valid() {
      domains != map[] && forall d | d in domains :: domains[d].Valid()
    }
  }

  datatype DomainResult = DomainResult(domainId: string, kind: DomainType, result: ScenarioResult)

  datatype DomainError = FingerprintMismatch | AuditFailed(error: AuditError)

  lemma DomainFaultIsWellFormed(id: string, d: Domain)
    requires d.Unique()
    ensures DomainFault(id, d).WellFormed() <==> |d.links| + |d.nodes| >= 2
    ensures DomainFault(id, d).kind == Composite && DomainFault(id, d).id == "srlg:" + id
    ensures forall l :: l in DomainFault(id, d).cut.links <==> l in d.links
    ensures forall n :: n in DomainFault(id, d).cut.nodes <==> n in d.nodes
  {
    DistinctCount(d.links);
    DistinctCount(d.nodes);
  }

  function DomainFault(id: string, d: Domain): FaultScenario {
    FaultScenario("srlg:" + id, Composite, d.Group())
  }

  function DomainIds(catalog: Catalog): seq<string> {
    Text.SortedSet(catalog.domains.Keys)
  }

  function DomainFaults(catalog: Catalog): seq<FaultScenario> {
    var ids := DomainIds(catalog);
    seq(|ids|, i requires 0 <= i < |ids| => DomainFault(ids[i], catalog.domains[ids[i]]))
  }

  ghost predicate KnowsDomains(t: Topology, catalog: Catalog) {
    forall d | d in catalog.domains :: t.Knows(catalog.domains[d].Group())
  }

  lemma DomainFaultsFacts(t: Topology, catalog: Catalog)
    requires catalog.Valid()
    ensures DomainFaults(catalog) != [] && DistinctIds(DomainFaults(catalog))
    ensures KnowsDomains(t, catalog) <==> forall s | s in DomainFaults(catalog) :: t.Knows(s.cut)
  {
    var d :| d in catalog.domains;
    assert d in DomainIds(catalog);
    DomainFaultIds(catalog);
    DomainFaultCuts(t, catalog);
  }

  lemma DomainFaultIds(catalog: Catalog)
    ensures DistinctIds(DomainFaults(catalog))
  {
    var ids, faults := DomainIds(catalog), DomainFaults(catalog);
    forall i, j | 0 <= i < j < |faults| ensures faults[i].id != faults[j].id {
      assert Text.Less(ids[i], ids[j]);
      Text.LessIrreflexive(ids[i]);
      assert faults[i].id[5..] == ids[i] && faults[j].id[5..] == ids[j];
    }
  }

  lemma DomainFaultCuts(t: Topology, catalog: Catalog)
    ensures KnowsDomains(t, catalog) <==> forall s | s in DomainFaults(catalog) :: t.Knows(s.cut)
  {
    if KnowsDomains(t, catalog) {
      forall s | s in DomainFaults(catalog) ensures t.Knows(s.cut) {
        var d := DomainOfFault(catalog, s);
      }
    } else {
      var d :| d in catalog.domains && !t.Knows(catalog.domains[d].Group());
      FaultOfDomain(catalog, d);
    }
  }

  lemma FaultOfDomain(catalog: Catalog, d: string)
    requires d in catalog.domains
    ensures DomainFault(d, catalog.domains[d]) in DomainFaults(catalog)
  {
    var ids := DomainIds(catalog);
    assert d in ids;
    var i :| 0 <= i < |ids| && ids[i] == d;
    assert DomainFaults(catalog)[i] == DomainFault(d, catalog.domains[d]);
  }

  lemma DomainOfFault(catalog: Catalog, s: FaultScenario) returns (d: string)
    requires s in DomainFaults(catalog)
    ensures d in catalog.domains && s == DomainFault(d, catalog.domains[d])
  {
    var ids := DomainIds(catalog);
    var i :| 0 <= i < |ids| && DomainFaults(catalog)[i] == s;
    assert ids[i] in ids;
    d := ids[i];
  }

  ghost predicate DomainResults(t: Topology, catalog: Catalog, r: seq<DomainResult>)
    requires t.Valid()
  {
    && |r| == |DomainIds(catalog)|
    && forall i | 0 <= i < |r| :: DomainResultFor(t, catalog, DomainIds(catalog)[i], r[i])
  }

  ghost predicate DomainResultFor(t: Topology, catalog: Catalog, id: string, r: DomainResult)
    requires t.Valid()
  {
    && id in catalog.domains && r.domainId == id && r.kind == catalog.domains[id].kind
    && Classifies(t, DomainFault(id, catalog.domains[id]), r.result)
  }

  function Labelled(catalog: Catalog, results: seq<ScenarioResult>): seq<DomainResult>
    requires |results| == |DomainIds(catalog)|
  {
    var ids := DomainIds(catalog);
    seq(|ids|, i requires 0 <= i < |ids| => DomainResult(ids[i], catalog.domains[ids[i]].kind, results[i]))
  }

  method AuditFailureDomains(t: Topology, catalog: Catalog) returns (r: Result<seq<DomainResult>, DomainError>)
    requires t.Valid() && catalog.Valid()
    ensures r.Success? <==>
              && DocumentOf(t) == catalog.document
              && AccessNodes(t) != {} && ServiceNodes(t) != {} && HasBaselines(t)
              && KnowsDomains(t, catalog)
    ensures r.Success? ==> DomainResults(t, catalog, r.value)
    ensures r.Failure? ==> (r.error == FingerprintMismatch <==> DocumentOf(t) != catalog.document)
    ensures r.Failure? && r.error.AuditFailed? ==> RefusedFor(t, DomainFaults(catalog), r.error.error)
  {
    if DocumentOf(t) != catalog.document {
      return Failure(FingerprintMismatch);
    }
    DomainFaultsFacts(t, catalog);
    var audit := AuditFaultScenarios(t, DomainFaults(catalog));
    if audit.Failure? {
      return Failure(AuditFailed(audit.error));
    }
    return Success(Labelled(catalog, audit.value));
  }

  /** A group that survives contains no link or node whose own failure is an outage. */
  lemma PassingGroupsHaveNoCriticalMember(t: Topology, id: string, d: Domain, r: ScenarioResult)
    requires t.Valid() && HasBaselines(t) && Classifies(t, DomainFault(id, d), r)
    requires r.impact != Outage
    ensures forall l | l in d.links :: ImpactOf(t, LinkScenario(l).cut) != Outage
    ensures forall n | n in d.nodes :: ImpactOf(t, NodeScenario(n).cut) != Outage
  {
    SurvivableGroupHasNoCriticalMember(t, d.Group());
    assert forall l | l in d.links :: l in d.Group().links;
    assert forall n | n in d.nodes :: n in d.Group().nodes;
  }

  // ----- the incident path's own analysis

  datatype ImpactAnalysis = ImpactAnalysis(
    failedComponent: string,
    affectedNodes: seq<Name>,
    affectedPrefixes: seq<string>,
    impact: ServiceImpact)

  datatype ImpactError =
    | UnsupportedEvent(eventType: string)
    | UnknownFailedLink(link: string)
    | NoService
    | NoBaseline(access: Name)

  /** The analysis that `AnalyzeLinkDown` reaches, when it reaches one. */
  ghost predicate Analyzes(t: Topology, link: string, a: ImpactAnalysis)
    requires t.Valid()
  {
    var cut := LinkScenario(link).cut;
    && a.failedComponent == link
    && a.impact == ImpactOf(t, cut)
    && a.affectedNodes == Text.SortedSet(Unavailable(t, cut) + DegradedNodes(t, cut))
    && (forall n | n in a.affectedNodes :: n in t.nodes)
    && ListsPrefixes(t, Unavailable(t, cut) + DegradedNodes(t, cut), a.affectedPrefixes)
  }

  ghost predicate Affected(t: Topology, cut: Cut, seen: seq<Name>, unavailable: set<Name>, affected: set<Name>)
    requires t.Valid()
  {
    && (forall a | a in seen :: Baseline(t, a).Some?)
    && (forall a :: a in unavailable <==> a in seen && a in Unavailable(t, cut))
    && (forall a :: a in affected <==> a in seen && a in Unavailable(t, cut) + DegradedNodes(t, cut))
  }

  lemma AffectedStep(t: Topology, cut: Cut, seen: seq<Name>, unavailable: set<Name>, affected: set<Name>, access: Name)
    requires t.Valid() && Affected(t, cut, seen, unavailable, affected)
    requires access in AccessNodes(t) && Baseline(t, access).Some?
    ensures var after := PostFault(t, cut, access);
            var changed := after.None? || after.value > Baseline(t, access).value;
            Affected(t, cut, seen + [access],
                     if after.None? then unavailable + {access} else unavailable,
                     if changed then affected + {access} else affected)
  {
    CostTestMeansWalks(t, cut, access);
  }

  /** The first check that fails, in the order they are made, and what it names. */
  ghost predicate LinkDownRefusedFor(t: Topology, eventType: string, link: string, e: ImpactError)
    requires t.Valid()
  {
    match e
    case UnsupportedEvent(kind) => kind == eventType && eventType != "link_down"
    case UnknownFailedLink(l) => eventType == "link_down" && l == link && link !in t.LinkIds()
    case NoService => eventType == "link_down" && link in t.LinkIds() && ServiceNodes(t) == {}
    case NoBaseline(a) =>
      eventType == "link_down" && link in t.LinkIds() && ServiceNodes(t) != {} && FirstWithoutPath(t, a)
  }

  lemma SeenBefore(t: Topology, cut: Cut, accessNodes: seq<Name>, i: nat, unavailable: set<Name>, affected: set<Name>)
    requires t.Valid() && accessNodes == Text.SortedSet(AccessNodes(t)) && i < |accessNodes|
    requires Affected(t, cut, accessNodes[..i], unavailable, affected) && Baseline(t, accessNodes[i]).None?
    ensures FirstWithoutPath(t, accessNodes[i])
  {
    assert forall j | 0 <= j < i :: accessNodes[..i][j] == accessNodes[j] && accessNodes[j] in accessNodes[..i];
    FirstInOrder(t, accessNodes, accessNodes[i]);
  }

  method AnalyzeLinkDown(t: Topology, eventType: string, link: string) returns (r: Result<ImpactAnalysis, ImpactError>)
    requires t.Valid()
    ensures r.Success? <==> eventType == "link_down" && link in t.LinkIds() && ServiceNodes(t) != {} && HasBaselines(t)
    ensures r.Success? ==> Analyzes(t, link, r.value)
    ensures r.Failure? ==> LinkDownRefusedFor(t, eventType, link, r.error)
  {
    if eventType != "link_down" {
      return Failure(UnsupportedEvent(eventType));
    }
    if link !in t.LinkIds() {
      return Failure(UnknownFailedLink(link));
    }
    if ServiceNodes(t) == {} {
      return Failure(NoService);
    }
    var cut := LinkScenario(link).cut;
    var accessNodes := Text.SortedSet(AccessNodes(t));
    var unavailable: set<Name>, affected: set<Name> := {}, {};
    for i := 0 to |accessNodes|
      invariant Affected(t, cut, accessNodes[..i], unavailable, affected)
    {
      var access := accessNodes[i];
      assert access in accessNodes;
      PrefixStep(accessNodes, i);
      var before := ShortestDistance(t, access, ServiceNodes(t), None, None);
      var after := ShortestDistance(t, access, ServiceNodes(t), Some(link), None);
      if before.value.None? {
        SeenBefore(t, cut, accessNodes, i, unavailable, affected);
        return Failure(NoBaseline(access));
      }
      AffectedStep(t, cut, accessNodes[..i], unavailable, affected, access);
      if after.value.None? {
        unavailable := unavailable + {access};
        affected := affected + {access};
      } else if after.value.value > before.value.value {
        affected := affected + {access};
      }
    }
    assert accessNodes[..|accessNodes|] == accessNodes;
    assert unavailable == Unavailable(t, cut) && affected == Unavailable(t, cut) + DegradedNodes(t, cut);
    assert HasBaselines(t) by {
      assert forall a | a in AccessNodes(t) :: a in accessNodes;
    }
    var impact := if unavailable != {} then Outage else if affected != {} then Degraded else RedundancyReduced;
    var affectedNodes := Text.SortedSet(affected);
    SortedPrefixes(t, affected);
    return Success(ImpactAnalysis(link, affectedNodes, Text.Sorted(Prefixes(t, affectedNodes)), impact));
  }

  lemma {:induction false} AscendingBagUnique(r: seq<string>, q: seq<string>)
    requires Text.Ascending(r) && Text.Ascending(q) && multiset(r) == multiset(q)
    ensures r == q
  {
    if r == [] {
      assert |multiset(q)| == 0;
    } else {
      assert |multiset(q)| == |multiset(r)| && q != [];
      HeadsAgree(r, q);
      BagOfRest(r);
      BagOfRest(q);
      AscendingBagUnique(r[1..], q[1..]);
      assert r == [r[0]] + r[1..] && q == [q[0]] + q[1..];
    }
  }

  lemma BagOfRest(r: seq<string>)
    requires r != []
    ensures multiset(r[1..]) == multiset(r) - multiset{r[0]}
  {
    assert r == [r[0]] + r[1..];
  }

  lemma HeadsAgree(r: seq<string>, q: seq<string>)
    requires r != [] && q != [] && Text.Ascending(r) && Text.Ascending(q) && multiset(r) == multiset(q)
    ensures r[0] == q[0]
  {
    assert r[0] in multiset(r) && q[0] in multiset(q);
    if r[0] != q[0] {
      Text.LessAsymmetric(r[0], q[0]);
    }
  }

  /** The incident analysis and the audit engine, written separately, give one verdict on a failed link. */
  lemma IncidentAgreesWithAudit(t: Topology, link: string, a: ImpactAnalysis, r: ScenarioResult)
    requires t.Valid() && Analyzes(t, link, a) && Classifies(t, LinkScenario(link), r)
    ensures a.impact == r.impact && a.affectedNodes == r.affectedNodes && a.affectedPrefixes == r.affectedPrefixes
  {
    assert forall p :: multiset(a.affectedPrefixes)[p] == multiset(r.affectedPrefixes)[p];
    assert multiset(a.affectedPrefixes) == multiset(r.affectedPrefixes);
    AscendingBagUnique(a.affectedPrefixes, r.affectedPrefixes);
  }
}
