/** What excluding components means, in terms of walks. */
module Paths {
  import opened Wrappers
  import opened Topology

  /** Costs compared with None as infinity. */
  predicate NoCheaper(a: Option<int>, b: Option<int>) {
    a.None? || (b.Some? && b.value <= a.value)
  }

  // ----- surviving walks

  /** The nodes a walk arriving at `v` passes through. */
  ghost function Visits(walk: seq<Link>, v: Name): set<Name> {
    if walk == [] then
      {v}
    else
      var l := walk[|walk| - 1];
      {v} + Visits(walk[..|walk| - 1], if l.Touches(v) then l.Other(v) else v)
  }

  /** The walk relies on a component of the cut. */
  ghost predicate Uses(cut: Cut, walk: seq<Link>, v: Name) {
    (exists l :: l in walk && l.id in cut.links) || Visits(walk, v) * cut.nodes != {}
  }

  lemma {:induction false} SurvivingWalks(t: Topology, cut: Cut, u: Name, walk: seq<Link>, v: Name)
    requires t.Valid()
    ensures Walk(t, cut, u, walk, v) <==> Walk(t, NO_CUT, u, walk, v) && !Uses(cut, walk, v)
    decreases |walk|
  {
    if walk != [] {
      var before, l := walk[..|walk| - 1], walk[|walk| - 1];
      assert walk == before + [l];
      if l.Touches(v) {
        SurvivingWalks(t, cut, u, before, l.Other(v));
        assert (exists k :: k in walk && k.id in cut.links)
               <==> l.id in cut.links || exists k :: k in before && k.id in cut.links;
      }
    }
  }

  /** A walk that attains the least cost under `cut`. */
  ghost predicate Optimal(t: Topology, cut: Cut, u: Name, targets: set<Name>, walk: seq<Link>, v: Name)
    requires t.Valid()
  {
    v in targets && Walk(t, cut, u, walk, v) && Distance(t, cut, u, targets) == Some(Cost(walk))
  }

  ghost predicate EveryWalkUses(t: Topology, cut: Cut, u: Name, targets: set<Name>) {
    forall walk, v | v in targets && Walk(t, NO_CUT, u, walk, v) :: Uses(cut, walk, v)
  }

  ghost predicate EveryOptimalWalkUses(t: Topology, cut: Cut, u: Name, targets: set<Name>)
    requires t.Valid()
  {
    forall walk, v | Optimal(t, NO_CUT, u, targets, walk, v) :: Uses(cut, walk, v)
  }

  /** Excluding more never lowers a cost. */
  lemma LargerCutCostsMore(t: Topology, cut: Cut, larger: Cut, u: Name, targets: set<Name>)
    requires t.Valid() && cut.Within(larger)
    ensures NoCheaper(Distance(t, larger, u, targets), Distance(t, cut, u, targets))
  {
    forall walk, v | Walk(t, larger, u, walk, v) ensures Walk(t, cut, u, walk, v) {
      SurvivingWalks(t, larger, u, walk, v);
      SurvivingWalks(t, cut, u, walk, v);
    }
    assert forall v, c | Attains(t, larger, u, v, c) :: Attains(t, cut, u, v, c);
    assert forall c | Reaches(t, larger, u, targets, c) :: Reaches(t, cut, u, targets, c);
  }

  /** No post-fault path exactly when the fault cuts every walk. */
  lemma UnavailableMeansCutOff(t: Topology, cut: Cut, u: Name, targets: set<Name>)
    requires t.Valid()
    ensures Distance(t, cut, u, targets).None? <==> EveryWalkUses(t, cut, u, targets)
  {
    if EveryWalkUses(t, cut, u, targets) {
      forall walk, v | Walk(t, cut, u, walk, v) ensures v !in targets {
        SurvivingWalks(t, cut, u, walk, v);
      }
    } else {
      var walk, v :| v in targets && Walk(t, NO_CUT, u, walk, v) && !Uses(cut, walk, v);
      SurvivingWalks(t, cut, u, walk, v);
      assert Attains(t, cut, u, v, Cost(walk));
      assert Reaches(t, cut, u, targets, Cost(walk));
    }
  }

  /** Some least-cost walk under `cut` avoids every component of `larger`. */
  ghost predicate OptimalSurvives(t: Topology, cut: Cut, larger: Cut, u: Name, targets: set<Name>)
    requires t.Valid()
  {
    exists walk, v :: Optimal(t, cut, u, targets, walk, v) && !Uses(larger, walk, v)
  }

  /** Walks under a larger cut are the walks under the smaller one that avoid it. */
  lemma SurvivingWithin(t: Topology, cut: Cut, larger: Cut, u: Name, walk: seq<Link>, v: Name)
    requires t.Valid() && cut.Within(larger)
    ensures Walk(t, larger, u, walk, v) <==> Walk(t, cut, u, walk, v) && !Uses(larger, walk, v)
  {
    SurvivingWalks(t, larger, u, walk, v);
    SurvivingWalks(t, cut, u, walk, v);
    assert Uses(cut, walk, v) ==> Uses(larger, walk, v);
  }

  /** Excluding more leaves a cost as it was exactly when there was none, or some least-cost walk avoids all of it. */
  lemma SameCostMeansOptimalSurvives(t: Topology, cut: Cut, larger: Cut, u: Name, targets: set<Name>)
    requires t.Valid() && cut.Within(larger)
    ensures Distance(t, larger, u, targets) == Distance(t, cut, u, targets)
       <==> Distance(t, cut, u, targets).None? || OptimalSurvives(t, cut, larger, u, targets)
  {
    var base, after := Distance(t, cut, u, targets), Distance(t, larger, u, targets);
    LargerCutCostsMore(t, cut, larger, u, targets);
    if after == base && base.Some? {
      var v :| v in targets && Attains(t, larger, u, v, base.value);
      var walk :| Walk(t, larger, u, walk, v) && Cost(walk) == base.value;
      SurvivingWithin(t, cut, larger, u, walk, v);
      assert Optimal(t, cut, u, targets, walk, v);
    }
    if walk, v :| Optimal(t, cut, u, targets, walk, v) && !Uses(larger, walk, v) {
      SurvivingWithin(t, cut, larger, u, walk, v);
      assert Attains(t, larger, u, v, Cost(walk));
      assert Reaches(t, larger, u, targets, Cost(walk));
    }
  }

  /** The cost is unchanged exactly when some minimum-cost walk avoids the fault. */
  lemma UnchangedMeansOptimalSurvives(t: Topology, cut: Cut, u: Name, targets: set<Name>)
    requires t.Valid() && Distance(t, NO_CUT, u, targets).Some?
    ensures Distance(t, cut, u, targets) == Distance(t, NO_CUT, u, targets)
            <==> !EveryOptimalWalkUses(t, cut, u, targets)
  {
    SameCostMeansOptimalSurvives(t, NO_CUT, cut, u, targets);
  }

  // ----- the two searches agree

  /** Breadth-first reachability holds exactly when the cheapest-path search finds a cost. */
  lemma ReachableIffDistance(t: Topology, source: Name, targets: set<Name>, excluded: Option<string>)
    requires t.Valid()
    ensures (exists v :: v in targets && Reachable(t, excluded, source, v))
       <==> Distance(t, ExcludedLink(excluded), source, targets).Some?
  {
    var cut := ExcludedLink(excluded);
    if v :| v in targets && Reachable(t, excluded, source, v) {
      var walk :| Walk(t, cut, source, walk, v);
      assert Attains(t, cut, source, v, Cost(walk));
      assert Reaches(t, cut, source, targets, Cost(walk));
    }
    var d := Distance(t, cut, source, targets);
    if d.Some? {
      var v :| v in targets && Attains(t, cut, source, v, d.value);
      assert Reachable(t, excluded, source, v);
    }
  }

  // ----- a failed node and its isolated interfaces

  ghost function Incident(t: Topology, nodes: set<Name>): set<string> {
    set l | l in t.links && (l.endpointA in nodes || l.endpointB in nodes) :: l.id
  }

  lemma {:induction false} IsolatedWalks(t: Topology, links: set<string>, nodes: set<Name>, u: Name, walk: seq<Link>,
                                         v: Name)
    requires t.Valid() && u !in nodes
    ensures Walk(t, Cut(links, nodes), u, walk, v) <==> Walk(t, Cut(links + Incident(t, nodes), {}), u, walk, v)
    decreases |walk|
  {
    if walk != [] {
      var l := walk[|walk| - 1];
      if l in t.links && l.Touches(v) {
        IsolatedWalks(t, links, nodes, u, walk[..|walk| - 1], l.Other(v));
        assert l.id in Incident(t, nodes) <==> v in nodes || l.Other(v) in nodes by {
          if l.id in Incident(t, nodes) {
            var k :| k in t.links && (k.endpointA in nodes || k.endpointB in nodes) && k.id == l.id;
            assert k == l;
          }
        }
        if Walk(t, Cut(links, nodes), u, walk[..|walk| - 1], l.Other(v)) {
          WalkFacts(t, Cut(links, nodes), u, walk[..|walk| - 1], l.Other(v));
        }
      }
    }
  }

  lemma IsolationPreservesCosts(t: Topology, links: set<string>, nodes: set<Name>, u: Name, targets: set<Name>)
    requires t.Valid() && u !in nodes
    ensures Distance(t, Cut(links, nodes), u, targets) == Distance(t, Cut(links + Incident(t, nodes), {}), u, targets)
  {
    var down, isolated := Cut(links, nodes), Cut(links + Incident(t, nodes), {});
    forall walk, v ensures Walk(t, down, u, walk, v) <==> Walk(t, isolated, u, walk, v) {
      IsolatedWalks(t, links, nodes, u, walk, v);
    }
    assert forall v, c :: Attains(t, down, u, v, c) <==> Attains(t, isolated, u, v, c);
    assert forall c :: Reaches(t, down, u, targets, c) <==> Reaches(t, isolated, u, targets, c);
  }

  /**
   Failing nodes and isolating their interfaces give the same cost, except for a failed source that is
   itself a target: isolated it still reaches itself for nothing, failed it does not.
   */
  lemma NodeFailureIsIsolation(t: Topology, links: set<string>, nodes: set<Name>, u: Name, targets: set<Name>)
    requires t.Valid() && u in t.nodes
    ensures Distance(t, Cut(links, nodes), u, targets) == Distance(t, Cut(links + Incident(t, nodes), {}), u, targets)
       <==> !(u in nodes && u in targets)
  {
    var down, isolated := Cut(links, nodes), Cut(links + Incident(t, nodes), {});
    if u !in nodes {
      IsolationPreservesCosts(t, links, nodes, u, targets);
    } else {
      AttainsFacts(t, down, u);
      forall walk, v | Walk(t, isolated, u, walk, v) ensures v == u {
        IsolatedStaysPut(t, isolated, nodes, u, walk, v);
      }
      assert Distance(t, down, u, targets) == None;
      if u in targets {
        assert Walk(t, isolated, u, [], u);
        assert Attains(t, isolated, u, u, Cost([]));
        assert Reaches(t, isolated, u, targets, Cost([]));
      }
    }
  }

  lemma {:induction false} IsolatedStaysPut(t: Topology, isolated: Cut, nodes: set<Name>, u: Name, walk: seq<Link>,
                                            v: Name)
    requires t.Valid() && u in nodes && Incident(t, nodes) <= isolated.links
    requires Walk(t, isolated, u, walk, v)
    ensures v == u
    decreases |walk|
  {
    if walk != [] {
      var l := walk[|walk| - 1];
      IsolatedStaysPut(t, isolated, nodes, u, walk[..|walk| - 1], l.Other(v));
    }
  }

  // ----- what a topology fingerprint pins down

  /** The unordered content of a link, as the canonical document records it. */
  ghost predicate SameLink(l: Link, k: Link) {
    && l.id == k.id && l.cost == k.cost
    && ((l.endpointA == k.endpointA && l.endpointB == k.endpointB)
        || (l.endpointA == k.endpointB && l.endpointB == k.endpointA))
  }

  ghost predicate LinksWithin(t: Topology, s: Topology) {
    forall l | l in t.links :: exists k :: k in s.links && SameLink(l, k)
  }

  /** Equal canonical documents: the fingerprint is taken to be injective on them. */
  ghost predicate SameDocument(t: Topology, s: Topology) {
    t.nodes == s.nodes && LinksWithin(t, s) && LinksWithin(s, t)
  }

  lemma {:induction false} WalkTransfers(t: Topology, s: Topology, cut: Cut, u: Name, walk: seq<Link>, v: Name)
    returns (other: seq<Link>)
    requires t.Valid() && s.Valid() && t.nodes == s.nodes && LinksWithin(t, s)
    requires Walk(t, cut, u, walk, v)
    ensures Walk(s, cut, u, other, v) && Cost(other) == Cost(walk)
    decreases |walk|
  {
    if walk == [] {
      other := [];
    } else {
      var l := walk[|walk| - 1];
      assert l in t.links;
      var k :| k in s.links && SameLink(l, k);
      var before := WalkTransfers(t, s, cut, u, walk[..|walk| - 1], l.Other(v));
      other := before + [k];
      assert other[..|other| - 1] == before;
    }
  }

  lemma CostsTransfer(t: Topology, s: Topology, cut: Cut, u: Name)
    requires t.Valid() && s.Valid() && t.nodes == s.nodes && LinksWithin(t, s)
    ensures forall v, c | Attains(t, cut, u, v, c) :: Attains(s, cut, u, v, c)
  {
    forall v, c | Attains(t, cut, u, v, c) ensures Attains(s, cut, u, v, c) {
      var walk :| Walk(t, cut, u, walk, v) && Cost(walk) == c;
      var other := WalkTransfers(t, s, cut, u, walk, v);
    }
  }

  /** Topologies with equal fingerprints agree on every cost, whatever their link order and endpoint order. */
  lemma DocumentDeterminesDistance(t: Topology, s: Topology, cut: Cut, u: Name, targets: set<Name>)
    requires t.Valid() && s.Valid() && SameDocument(t, s)
    ensures Distance(t, cut, u, targets) == Distance(s, cut, u, targets)
  {
    CostsTransfer(t, s, cut, u);
    CostsTransfer(s, t, cut, u);
    assert forall c :: Reaches(t, cut, u, targets, c) <==> Reaches(s, cut, u, targets, c);
  }
  // ----- certificates for a distance

  /** No usable link is steeper than its cost: then no walk costs less than the height it comes down. */
  ghost predicate IsPotential(t: Topology, cut: Cut, height: map<Name, int>) {
    && height.Keys == t.nodes.Keys
    && forall l | l in t.links :: NotSteep(cut, height, l)
  }

  predicate NotSteep(cut: Cut, height: map<Name, int>, l: Link) {
    || l.id in cut.links || l.endpointA in cut.nodes || l.endpointB in cut.nodes
    || (l.endpointA in height && l.endpointB in height
        && -l.cost <= height[l.endpointA] - height[l.endpointB] <= l.cost)
  }

  lemma {:induction false} WalkComesDown(t: Topology, cut: Cut, height: map<Name, int>, u: Name, walk: seq<Link>,
                                         v: Name)
    requires t.Valid() && IsPotential(t, cut, height) && Walk(t, cut, u, walk, v)
    ensures u in height && v in height && height[u] - height[v] <= Cost(walk)
    decreases |walk|
  {
    WalkFacts(t, cut, u, walk, v);
    if walk != [] {
      var l := walk[|walk| - 1];
      WalkComesDown(t, cut, height, u, walk[..|walk| - 1], l.Other(v));
      WalkFacts(t, cut, u, walk[..|walk| - 1], l.Other(v));
      assert NotSteep(cut, height, l);
    }
  }

  /**
   A walk to a target, and a potential that comes down by its cost with every target at the bottom, prove
   the distance.
   */
  lemma DistanceCertificate(t: Topology, cut: Cut, u: Name, targets: set<Name>, walk: seq<Link>, v: Name,
                            height: map<Name, int>)
    requires t.Valid() && Walk(t, cut, u, walk, v) && v in targets
    requires IsPotential(t, cut, height) && u in height && height[u] == Cost(walk)
    requires forall w | w in targets && w in height :: height[w] == 0
    ensures Distance(t, cut, u, targets) == Some(Cost(walk))
  {
    assert Attains(t, cut, u, v, Cost(walk));
    forall c | Reaches(t, cut, u, targets, c) ensures Cost(walk) <= c {
      var w :| w in targets && Attains(t, cut, u, w, c);
      var other :| Walk(t, cut, u, other, w) && Cost(other) == c;
      WalkComesDown(t, cut, height, u, other, w);
    }
    DistanceIs(t, cut, u, targets, Cost(walk));
  }

  /** A set that holds the source and no target, and that no usable link leaves, proves that there is no walk. */
  lemma NoDistanceCertificate(t: Topology, cut: Cut, u: Name, targets: set<Name>, side: set<Name>)
    requires t.Valid() && u in side && side !! targets
    requires forall l | l in t.links && l.id !in cut.links :: l.endpointA in side <==> l.endpointB in side
    ensures Distance(t, cut, u, targets) == None
  {
    forall walk, v | Walk(t, cut, u, walk, v) ensures v in side {
      WalkStaysInside(t, cut, side, u, walk, v);
    }
  }

  lemma {:induction false} WalkStaysInside(t: Topology, cut: Cut, side: set<Name>, u: Name, walk: seq<Link>, v: Name)
    requires t.Valid() && u in side && Walk(t, cut, u, walk, v)
    requires forall l | l in t.links && l.id !in cut.links :: l.endpointA in side <==> l.endpointB in side
    ensures v in side
    decreases |walk|
  {
    if walk != [] {
      var l := walk[|walk| - 1];
      WalkStaysInside(t, cut, side, u, walk[..|walk| - 1], l.Other(v));
    }
  }
  /** The links lead along the names, one after the other, each coming down by its own cost. */
  ghost predicate ComesDownAlong(t: Topology, cut: Cut, height: map<Name, int>, names: seq<Name>, links: seq<Link>) {
    && |names| == |links| + 1
    && (forall n | n in names :: n in t.nodes && n !in cut.nodes && n in height)
    && (forall i | 0 <= i < |links| :: StepsDown(t, cut, height, names[i], links[i], names[i + 1]))
  }

  ghost predicate StepsDown(t: Topology, cut: Cut, height: map<Name, int>, n: Name, l: Link, m: Name) {
    && l in t.links && l.id !in cut.links && n != m && {l.endpointA, l.endpointB} == {n, m}
    && n in height && m in height && height[n] - height[m] == l.cost
  }

  lemma {:induction false} SteepestWalk(t: Topology, cut: Cut, height: map<Name, int>, names: seq<Name>,
                                        links: seq<Link>)
    requires t.Valid() && ComesDownAlong(t, cut, height, names, links)
    ensures Walk(t, cut, names[0], links, names[|links|])
    ensures Cost(links) == height[names[0]] - height[names[|links|]]
    decreases |links|
  {
    assert names[0] in names && names[|links|] in names;
    if links != [] {
      var n := |links| - 1;
      AlongPrefix(t, cut, height, names, links);
      SteepestWalk(t, cut, height, names[..n + 1], links[..n]);
      EndsMeet(links[n], names[n], names[n + 1]);
    }
  }

  lemma AlongPrefix(t: Topology, cut: Cut, height: map<Name, int>, names: seq<Name>, links: seq<Link>)
    requires links != [] && ComesDownAlong(t, cut, height, names, links)
    ensures var n := |links| - 1;
            && ComesDownAlong(t, cut, height, names[..n + 1], links[..n])
            && StepsDown(t, cut, height, names[n], links[n], names[n + 1])
  {
    var n := |links| - 1;
    forall i | 0 <= i < n ensures StepsDown(t, cut, height, names[..n + 1][i], links[..n][i], names[..n + 1][i + 1]) {
      assert StepsDown(t, cut, height, names[i], links[i], names[i + 1]);
    }
  }

  lemma EndsMeet(l: Link, n: Name, m: Name)
    requires n != m && {l.endpointA, l.endpointB} == {n, m}
    ensures l.Touches(m) && l.Other(m) == n
  {
    assert n in {l.endpointA, l.endpointB} && m in {l.endpointA, l.endpointB};
    assert l.endpointA in {n, m} && l.endpointB in {n, m};
  }

  /** A potential, and a way down from the source to a target at the bottom, prove the distance to be the height. */
  lemma HeightIsDistance(t: Topology, cut: Cut, targets: set<Name>, height: map<Name, int>, names: seq<Name>,
                         links: seq<Link>)
    requires t.Valid() && IsPotential(t, cut, height) && ComesDownAlong(t, cut, height, names, links)
    requires names[|links|] in targets && forall w | w in targets && w in height :: height[w] == 0
    ensures names[0] in height && Distance(t, cut, names[0], targets) == Some(height[names[0]])
  {
    SteepestWalk(t, cut, height, names, links);
    assert names[0] in names && names[|links|] in names;
    DistanceCertificate(t, cut, names[0], targets, links, names[|links|], height);
  }
}
