/** The topology binding a telemetry snapshot is checked against, and that check. */
module TelemetryConfig {
  import opened Wrappers
  import opened IsoTime
  import opened TelemetryModels

  const CONFIG_IDENTIFIER_LIMIT: nat := 128
  const MAX_FUTURE_SKEW_MICROS: int := 60_000_000

  datatype Peer = Peer(peer: string, interface: string)

  datatype Target = Target(node: string, interfaces: seq<string>, peers: seq<Peer>) {
    predicate Valid() {
      && IsIdentifier(node, CONFIG_IDENTIFIER_LIMIT)
      && 1 <= |interfaces| <= 64 && |peers| <= 64 && Unique(interfaces) && Unique(peers)
      && (forall i | i in interfaces :: IsIdentifier(i, CONFIG_IDENTIFIER_LIMIT))
      && (forall p | p in peers :: IsIdentifier(p.peer, CONFIG_IDENTIFIER_LIMIT) && p.interface in interfaces)
    }
  }

  datatype Binding = Binding(fingerprint: string, servicePrefix: string, targets: seq<Target>) {
    function Nodes(): seq<string> {
      seq(|targets|, i requires 0 <= i < |targets| => targets[i].node)
    }

    /** What loading a binding establishes: six validated targets, one per baseline router. */
    predicate Valid() {
      && IsFingerprint(fingerprint) && 3 <= |servicePrefix| <= 64 && |targets| == 6
      && (forall t | t in targets :: t.Valid())
      && Unique(Nodes()) && (set n | n in Nodes()) == BASELINE_ROUTERS
    }
  }

  datatype Problem =
    | WrongFingerprint
    | FutureSkew
    | UnexpectedInterfaces(router: string)
    | IncompleteInterfaces(router: string)
    | ForeignRoute(router: string)
    | NotOneRoute(router: string)
    | WrongOspfPeers(router: string)
    | WrongBfdPeers(router: string)

  function PeerKeys(t: Target): set<(string, string)> {
    set p | p in t.peers :: (p.peer, p.interface)
  }

  function OspfPeers(r: Router): set<(string, string)> {
    set n | n in r.ospf :: (n.neighbor, n.interface)
  }

  function BfdPeers(r: Router): set<(string, string)> {
    set p | p in r.bfd :: (p.peer, p.interface)
  }

  function Observed(r: Router): set<string> {
    set i | i in r.interfaces :: i.name
  }

  function Allowed(t: Target): set<string> {
    set i | i in t.interfaces
  }

  /** A router record that carries exactly what is bound: the whole inventory and one service route. */
  predicate Complete(r: Router, t: Target, prefix: string) {
    && Observed(r) == Allowed(t) && OspfPeers(r) == PeerKeys(t) && BfdPeers(r) == PeerKeys(t)
    && |r.routes| == 1 && r.routes[0].prefix == prefix
  }

  /** What an accepted record looks like. */
  predicate Conforms(r: Router, t: Target, prefix: string) {
    if r.success then Complete(r, t, prefix)
    else Observed(r) <= Allowed(t) && forall x | x in r.routes :: x.prefix == prefix
  }

  function RouterProblem(r: Router, t: Target, prefix: string): (p: Option<Problem>)
    ensures p.None? <==> Conforms(r, t, prefix)
  {
    if !(Observed(r) <= Allowed(t)) then Some(UnexpectedInterfaces(r.name))
    else if r.success && Observed(r) != Allowed(t) then Some(IncompleteInterfaces(r.name))
    else if exists x :: x in r.routes && x.prefix != prefix then Some(ForeignRoute(r.name))
    else if r.success && |r.routes| != 1 then Some(NotOneRoute(r.name))
    else if r.success && OspfPeers(r) != PeerKeys(t) then Some(WrongOspfPeers(r.name))
    else if r.success && BfdPeers(r) != PeerKeys(t) then Some(WrongBfdPeers(r.name))
    else None
  }

  ghost predicate ShowsInterface(r: Router, name: string) {
    exists i :: i in r.interfaces && i.name == name
  }

  ghost predicate ShowsNeighbor(r: Router, p: Peer) {
    exists n :: n in r.ospf && n.neighbor == p.peer && n.interface == p.interface
  }

  ghost predicate ShowsBfdPeer(r: Router, p: Peer) {
    exists b :: b in r.bfd && b.peer == p.peer && b.interface == p.interface
  }

  /** The record is about exactly the bound interfaces and peers, each protocol apart, and one service route. */
  ghost predicate CoversTarget(r: Router, t: Target, prefix: string) {
    && (forall name :: name in t.interfaces <==> ShowsInterface(r, name))
    && (forall p :: p in t.peers <==> ShowsNeighbor(r, p))
    && (forall p :: p in t.peers <==> ShowsBfdPeer(r, p))
    && |r.routes| == 1 && r.routes[0].prefix == prefix
  }

  /** A successful record conforms exactly when it covers its target; another one when it oversteps nothing. */
  lemma ConformsMeans(r: Router, t: Target, prefix: string)
    ensures Conforms(r, t, prefix) <==>
            if r.success then CoversTarget(r, t, prefix)
            else (forall i | i in r.interfaces :: i.name in t.interfaces)
                 && forall route | route in r.routes :: route.prefix == prefix
  {
    ObservedMeans(r, t);
    PeersMean(r, t);
  }

  lemma ObservedMeans(r: Router, t: Target)
    ensures Observed(r) == Allowed(t) <==> forall name :: name in t.interfaces <==> ShowsInterface(r, name)
    ensures Observed(r) <= Allowed(t) <==> forall i | i in r.interfaces :: i.name in t.interfaces
  {
    forall name ensures name in Observed(r) <==> ShowsInterface(r, name) {
    }
    forall name ensures name in Allowed(t) <==> name in t.interfaces {
    }
  }

  lemma PeersMean(r: Router, t: Target)
    ensures OspfPeers(r) == PeerKeys(t) <==> forall p :: p in t.peers <==> ShowsNeighbor(r, p)
    ensures BfdPeers(r) == PeerKeys(t) <==> forall p :: p in t.peers <==> ShowsBfdPeer(r, p)
  {
    forall p ensures Key(p) in PeerKeys(t) <==> p in t.peers {
      if Key(p) in PeerKeys(t) {
        var q :| q in t.peers && Key(q) == Key(p);
        assert q.peer == Key(q).0 == p.peer && q.interface == Key(q).1 == p.interface;
      }
    }
    forall p ensures Key(p) in OspfPeers(r) <==> ShowsNeighbor(r, p) {
    }
    forall p ensures Key(p) in BfdPeers(r) <==> ShowsBfdPeer(r, p) {
    }
    SamePairs(OspfPeers(r), PeerKeys(t));
    SamePairs(BfdPeers(r), PeerKeys(t));
  }

  function Key(p: Peer): (string, string) {
    (p.peer, p.interface)
  }

  lemma SamePairs(a: set<(string, string)>, b: set<(string, string)>)
    ensures a == b <==> forall p :: Key(p) in a <==> Key(p) in b
  {
    if forall p :: Key(p) in a <==> Key(p) in b {
      forall x ensures x in a <==> x in b {
        assert x == Key(Peer(x.0, x.1));
      }
    }
  }

  /** The record of each target conforms to that target. */
  ghost predicate Accepted(s: Snapshot, b: Binding) {
    && s.fingerprint == b.fingerprint
    && forall r, t | r in s.routers && t in b.targets && t.node == r.name :: Conforms(r, t, b.servicePrefix)
  }

  function TargetsByNode(b: Binding): map<string, Target>
    requires Unique(b.Nodes())
  {
    DistinctNodes(b);
    map t | t in b.targets :: t.node := t
  }

  lemma DistinctNodes(b: Binding)
    requires Unique(b.Nodes())
    ensures forall t, u | t in b.targets && u in b.targets && t.node == u.node :: t == u
  {
    forall t, u | t in b.targets && u in b.targets && t.node == u.node ensures t == u {
      var i, j :| 0 <= i < |b.targets| && b.targets[i] == t && 0 <= j < |b.targets| && b.targets[j] == u;
      assert b.Nodes()[i] == b.Nodes()[j];
    }
  }

  lemma BaselineName(s: Snapshot, i: int)
    requires SnapshotOk(s) && 0 <= i < |s.routers|
    ensures s.routers[i].name in BASELINE_ROUTERS
  {
    assert RouterNames(s)[i] in RouterNames(s);
  }

  ghost predicate AcceptedUpTo(s: Snapshot, b: Binding, n: int)
    requires 0 <= n <= |s.routers|
  {
    forall k, t | 0 <= k < n && t in b.targets && t.node == s.routers[k].name ::
        Conforms(s.routers[k], t, b.servicePrefix)
  }

  lemma AcceptedStep(s: Snapshot, b: Binding, n: int, target: Target)
    requires b.Valid() && 0 <= n < |s.routers|
    requires target in b.targets && target.node == s.routers[n].name
    ensures AcceptedUpTo(s, b, n + 1) <==> AcceptedUpTo(s, b, n) && Conforms(s.routers[n], target, b.servicePrefix)
  {
    DistinctNodes(b);
  }

  /** The record does what the problem says. */
  ghost predicate NamesProblem(r: Router, t: Target, prefix: string, p: Problem) {
    match p
    case UnexpectedInterfaces(name) => name == r.name && exists i :: i in r.interfaces && i.name !in t.interfaces
    case IncompleteInterfaces(name) =>
      name == r.name && r.success && exists i :: i in t.interfaces && !ShowsInterface(r, i)
    case ForeignRoute(name) => name == r.name && exists route :: route in r.routes && route.prefix != prefix
    case NotOneRoute(name) => name == r.name && r.success && |r.routes| != 1
    case WrongOspfPeers(name) => name == r.name && r.success && exists p :: !(p in t.peers <==> ShowsNeighbor(r, p))
    case WrongBfdPeers(name) => name == r.name && r.success && exists p :: !(p in t.peers <==> ShowsBfdPeer(r, p))
    case _ => false
  }

  lemma ProblemIsReal(r: Router, t: Target, prefix: string)
    ensures RouterProblem(r, t, prefix).Some? ==> NamesProblem(r, t, prefix, RouterProblem(r, t, prefix).value)
  {
    ObservedMeans(r, t);
    PeersMean(r, t);
    if Observed(r) <= Allowed(t) && Observed(r) != Allowed(t) {
      var name :| name in Allowed(t) && name !in Observed(r);
      assert name in t.interfaces && !ShowsInterface(r, name);
    }
  }

  /** The first router, as the snapshot lists them, that does not conform, and a problem it has. */
  ghost predicate FirstProblem(s: Snapshot, b: Binding, p: Problem) {
    exists i, t | 0 <= i < |s.routers| && t in b.targets ::
      && AcceptedUpTo(s, b, i) && t.node == s.routers[i].name && NamesProblem(s.routers[i], t, b.servicePrefix, p)
  }

  method ValidateSnapshot(s: Snapshot, b: Binding) returns (problem: Option<Problem>)
    requires SnapshotOk(s) && b.Valid()
    ensures problem.None? <==> Accepted(s, b)
    ensures problem.Some? ==>
              if s.fingerprint != b.fingerprint then problem.value == WrongFingerprint
              else FirstProblem(s, b, problem.value)
  {
    if s.fingerprint != b.fingerprint {
      return Some(WrongFingerprint);
    }
    for i := 0 to |s.routers|
      invariant AcceptedUpTo(s, b, i)
    {
      problem := CheckRouter(s, b, i);
      if problem.Some? {
        return;
      }
    }
    problem := None;
  }

  /** One round of the loop: look the target up by the router's name and compare. */
  method CheckRouter(s: Snapshot, b: Binding, i: int) returns (problem: Option<Problem>)
    requires SnapshotOk(s) && b.Valid() && 0 <= i < |s.routers| && AcceptedUpTo(s, b, i)
    ensures problem.None? <==> AcceptedUpTo(s, b, i + 1)
    ensures problem.Some? ==> FirstProblem(s, b, problem.value)
  {
    BaselineName(s, i);
    var target := TargetsByNode(b)[s.routers[i].name];
    AcceptedStep(s, b, i, target);
    ProblemIsReal(s.routers[i], target, b.servicePrefix);
    problem := RouterProblem(s.routers[i], target, b.servicePrefix);
  }

  /** What the server admits at time `now`, in microseconds since the start of year 1. */
  ghost predicate Admitted(s: Snapshot, b: Binding, now: int)
    requires s.observedAt.Valid()
  {
    Instant(s.observedAt) <= now + MAX_FUTURE_SKEW_MICROS && Accepted(s, b)
  }

  method ValidateIngest(s: Snapshot, b: Binding, now: int) returns (problem: Option<Problem>)
    requires SnapshotOk(s) && b.Valid()
    ensures problem.None? <==> Admitted(s, b, now)
    ensures Instant(s.observedAt) - now > 60_000_000 <==> problem == Some(FutureSkew)
  {
    if Instant(s.observedAt) > now + MAX_FUTURE_SKEW_MICROS {
      return Some(FutureSkew);
    }
    problem := ValidateSnapshot(s, b);
  }

  /** A conforming snapshot is admitted exactly while it is at most a minute ahead of the server. */
  lemma AdmittedWithinAMinute(s: Snapshot, b: Binding, now: int)
    requires s.observedAt.Valid() && Accepted(s, b)
    ensures Admitted(s, b, now) <==> Instant(s.observedAt) - now <= 60_000_000
  {
  }
}
