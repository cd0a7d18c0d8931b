/** The typed telemetry snapshot and the checks made when each part is constructed. */
module TelemetryModels {
  import opened Wrappers
  import opened Collections
  import opened IsoTime

  datatype State = Up | Down | Unknown

  datatype Interface = Interface(name: string, state: State, rxBytes: int, txBytes: int, rxDrops: int, txDrops: int)

  datatype OspfNeighbor = OspfNeighbor(neighbor: string, interface: string, state: State)

  datatype BfdPeer = BfdPeer(peer: string, interface: string, configured: bool, state: State)

  datatype Route = Route(prefix: string, present: bool, metric: Option<int>, egress: Option<string>)

  datatype Router = Router(
    name: string,
    success: bool,
    state: State,
    error: Option<string>,
    interfaces: seq<Interface>,
    ospf: seq<OspfNeighbor>,
    bfd: seq<BfdPeer>,
    routes: seq<Route>)

  datatype Snapshot = Snapshot(id: string, observedAt: Utc, fingerprint: string, routers: seq<Router>)

  const BASELINE_ROUTERS: set<string> := {"access1", "access2", "agg1", "agg2", "core1", "core2"}

  const IDENTIFIER_LIMIT: nat := 64

  // ----- fields

  predicate IsAlphanumeric(c: char) {
    'A' <= c <= 'Z' || 'a' <= c <= 'z' || '0' <= c <= '9'
  }

  predicate IsIdentifier(s: string, limit: nat) {
    1 <= |s| <= limit && IsAlphanumeric(s[0]) && forall c | c in s :: IsAlphanumeric(c) || c in "_.:-"
  }

  predicate IsCounter(n: int) {
    0 <= n <= 0xFFFF_FFFF_FFFF_FFFF
  }

  predicate IsFingerprint(s: string) {
    |s| == 64 && forall c | c in s :: '0' <= c <= '9' || 'a' <= c <= 'f'
  }

  predicate IsErrorLine(s: string) {
    1 <= |s| <= 256 && '\r' !in s && '\n' !in s
  }

  predicate Unique<T(==)>(s: seq<T>) {
    forall i, j | 0 <= i < j < |s| :: s[i] != s[j]
  }

  /** A letter or a digit, by character code. */
  predicate IsLetterOrDigit(code: int) {
    48 <= code <= 57 || 65 <= code <= 90 || 97 <= code <= 122
  }

  /**
   The field rules, in numbers: counters fit in 64 bits; identifiers have 1 to 64 letters, digits, dots, dashes,
   underscores and colons, the first one a letter or digit; fingerprints are 64 hexadecimal digits; errors are lines.
   */
  lemma FieldRules(n: int, s: string)
    ensures IsCounter(n) <==> 0 <= n < 18_446_744_073_709_551_616
    ensures IsIdentifier(s, IDENTIFIER_LIMIT) <==>
            && 1 <= |s| <= 64 && IsLetterOrDigit(s[0] as int)
            && forall i | 0 <= i < |s| :: IsLetterOrDigit(s[i] as int) || s[i] as int in {45, 46, 58, 95}
    ensures IsFingerprint(s) <==>
            |s| == 64 && forall i | 0 <= i < |s| :: 48 <= s[i] as int <= 57 || 97 <= s[i] as int <= 102
    ensures IsErrorLine(s) <==> 1 <= |s| <= 256 && forall i | 0 <= i < |s| :: s[i] as int !in {10, 13}
  {
    forall c: char ensures c in "_.:-" <==> c as int in {45, 46, 58, 95} {
      if c as int in {45, 46, 58, 95} {
        assert c in ['_', '.', ':', '-'];
      }
    }
    forall c | c in s ensures exists i :: 0 <= i < |s| && s[i] == c {
    }
    assert forall i | 0 <= i < |s| :: s[i] in s;
    assert '\n' as int == 10 && '\r' as int == 13;
  }

  // ----- records

  predicate InterfaceOk(i: Interface) {
    IsIdentifier(i.name, IDENTIFIER_LIMIT) && IsCounter(i.rxBytes) && IsCounter(i.txBytes) && IsCounter(i.rxDrops)
        && IsCounter(i.txDrops)
  }

  predicate OspfOk(n: OspfNeighbor) {
    IsIdentifier(n.neighbor, IDENTIFIER_LIMIT) && IsIdentifier(n.interface, IDENTIFIER_LIMIT)
  }

  predicate BfdOk(p: BfdPeer) {
    IsIdentifier(p.peer, IDENTIFIER_LIMIT) && IsIdentifier(p.interface, IDENTIFIER_LIMIT)
        && (!p.configured ==> p.state.Unknown?)
  }

  predicate RouteOk(r: Route) {
    && 3 <= |r.prefix| <= 64
    && (r.metric.Some? ==> IsCounter(r.metric.value))
    && (r.egress.Some? ==> IsIdentifier(r.egress.value, IDENTIFIER_LIMIT))
    && (if r.present then r.metric.Some? && r.egress.Some? else r.metric.None? && r.egress.None?)
  }

  function InterfaceNames(r: Router): seq<string> {
    seq(|r.interfaces|, i requires 0 <= i < |r.interfaces| => r.interfaces[i].name)
  }

  function OspfKeys(r: Router): seq<(string, string)> {
    seq(|r.ospf|, i requires 0 <= i < |r.ospf| => (r.ospf[i].neighbor, r.ospf[i].interface))
  }

  function BfdKeys(r: Router): seq<(string, string)> {
    seq(|r.bfd|, i requires 0 <= i < |r.bfd| => (r.bfd[i].peer, r.bfd[i].interface))
  }

  function Prefixes(r: Router): seq<string> {
    seq(|r.routes|, i requires 0 <= i < |r.routes| => r.routes[i].prefix)
  }

  predicate ReferencesKnown(r: Router) {
    && (forall n | n in r.ospf :: n.interface in InterfaceNames(r))
    && (forall p | p in r.bfd :: p.interface in InterfaceNames(r))
    && (forall t | t in r.routes && t.egress.Some? :: t.egress.value in InterfaceNames(r))
  }

  predicate OutcomeOk(r: Router) {
    if r.success then r.error.None? && r.state.Up?
    else r.state.Unknown? && r.error.Some? && r.interfaces == [] && r.ospf == [] && r.bfd == [] && r.routes == []
  }

  predicate PartsOk(r: Router) {
    && |r.interfaces| <= 64 && |r.ospf| <= 128 && |r.bfd| <= 128 && |r.routes| <= 256
    && (forall i | i in r.interfaces :: InterfaceOk(i))
    && (forall n | n in r.ospf :: OspfOk(n))
    && (forall p | p in r.bfd :: BfdOk(p))
    && (forall t | t in r.routes :: RouteOk(t))
  }

  predicate KeysOk(r: Router) {
    Unique(InterfaceNames(r)) && Unique(OspfKeys(r)) && Unique(BfdKeys(r)) && Unique(Prefixes(r))
  }

  predicate RouterOk(r: Router) {
    && IsIdentifier(r.name, IDENTIFIER_LIMIT) && (r.error.Some? ==> IsErrorLine(r.error.value))
    && PartsOk(r) && OutcomeOk(r) && KeysOk(r) && ReferencesKnown(r)
  }

  function RouterNames(s: Snapshot): seq<string> {
    seq(|s.routers|, i requires 0 <= i < |s.routers| => s.routers[i].name)
  }

  predicate SnapshotOk(s: Snapshot) {
    && IsIdentifier(s.id, IDENTIFIER_LIMIT) && s.observedAt.Valid() && IsFingerprint(s.fingerprint)
    && (forall r | r in s.routers :: RouterOk(r))
    && Unique(RouterNames(s)) && (set n | n in RouterNames(s)) == BASELINE_ROUTERS
  }
  predicate FitsCounter(n: int) {
    0 <= n < 18_446_744_073_709_551_616
  }

  /** What every valid router record keeps to. */
  lemma ValidRecordMeans(r: Router)
    requires RouterOk(r)
    ensures r.success <==> r.error.None?
    ensures r.state == if r.success then Up else Unknown
    ensures !r.success ==> r.interfaces == [] && r.ospf == [] && r.bfd == [] && r.routes == []
    ensures |r.interfaces| <= 64 && |r.ospf| <= 128 && |r.bfd| <= 128 && |r.routes| <= 256
    ensures forall i | i in r.interfaces ::
              FitsCounter(i.rxBytes) && FitsCounter(i.txBytes) && FitsCounter(i.rxDrops) && FitsCounter(i.txDrops)
    ensures forall b | b in r.bfd :: b.configured || b.state == Unknown
    ensures forall route | route in r.routes ::
              && (route.present <==> route.metric.Some?) && (route.present <==> route.egress.Some?)
              && (route.metric.Some? ==> FitsCounter(route.metric.value))
    ensures forall i, j | 0 <= i < j < |r.interfaces| :: r.interfaces[i].name != r.interfaces[j].name
    ensures forall i, j | 0 <= i < j < |r.routes| :: r.routes[i].prefix != r.routes[j].prefix
  {
    forall i, j | 0 <= i < j < |r.interfaces| ensures r.interfaces[i].name != r.interfaces[j].name {
      assert InterfaceNames(r)[i] != InterfaceNames(r)[j];
    }
    forall i, j | 0 <= i < j < |r.routes| ensures r.routes[i].prefix != r.routes[j].prefix {
      assert Prefixes(r)[i] != Prefixes(r)[j];
    }
  }

  /** In a valid record every session and egress is on an interface of the record, and no session is listed twice. */
  lemma SessionsAreOnInterfaces(r: Router)
    requires RouterOk(r)
    ensures forall n | n in r.ospf :: exists i :: i in r.interfaces && i.name == n.interface
    ensures forall b | b in r.bfd :: exists i :: i in r.interfaces && i.name == b.interface
    ensures forall route | route in r.routes && route.egress.Some? ::
              exists i :: i in r.interfaces && i.name == route.egress.value
    ensures forall i, j | 0 <= i < j < |r.ospf| ::
              (r.ospf[i].neighbor, r.ospf[i].interface) != (r.ospf[j].neighbor, r.ospf[j].interface)
    ensures forall i, j | 0 <= i < j < |r.bfd| ::
              (r.bfd[i].peer, r.bfd[i].interface) != (r.bfd[j].peer, r.bfd[j].interface)
  {
    forall name | name in InterfaceNames(r) ensures exists i :: i in r.interfaces && i.name == name {
      var k :| 0 <= k < |r.interfaces| && InterfaceNames(r)[k] == name;
      assert r.interfaces[k] in r.interfaces;
    }
    forall i, j | 0 <= i < j < |r.ospf|
      ensures (r.ospf[i].neighbor, r.ospf[i].interface) != (r.ospf[j].neighbor, r.ospf[j].interface)
    {
      assert OspfKeys(r)[i] != OspfKeys(r)[j];
    }
    forall i, j | 0 <= i < j < |r.bfd|
      ensures (r.bfd[i].peer, r.bfd[i].interface) != (r.bfd[j].peer, r.bfd[j].interface)
    {
      assert BfdKeys(r)[i] != BfdKeys(r)[j];
    }
  }

  /** A valid snapshot has six records, one for each of the baseline routers. */
  lemma OneRecordPerRouter(s: Snapshot)
    requires SnapshotOk(s)
    ensures |s.routers| == 6 && (set r | r in s.routers :: r.name) == BASELINE_ROUTERS
    ensures forall i, j | 0 <= i < j < |s.routers| :: s.routers[i].name != s.routers[j].name
  {
    var names := RouterNames(s);
    assert forall i | 0 <= i < |s.routers| :: names[i] == s.routers[i].name;
    DistinctCount(names);
    SixRouters();
    NamesOfRouters(s);
  }

  lemma NamesOfRouters(s: Snapshot)
    ensures (set r | r in s.routers :: r.name) == (set n | n in RouterNames(s))
  {
    forall r | r in s.routers ensures r.name in RouterNames(s) {
      var i :| 0 <= i < |s.routers| && s.routers[i] == r;
      assert RouterNames(s)[i] == r.name;
    }
    forall n | n in RouterNames(s) ensures exists r :: r in s.routers && r.name == n {
      var i :| 0 <= i < |s.routers| && RouterNames(s)[i] == n;
      assert s.routers[i] in s.routers;
    }
  }

  lemma SixRouters()
    ensures |BASELINE_ROUTERS| == 6
  {
    var names := ["access1", "access2", "agg1", "agg2", "core1", "core2"];
    assert "access1"[6] != "access2"[6] && "agg1"[3] != "agg2"[3] && "core1"[4] != "core2"[4];
    DistinctCount(names);
    assert (set n | n in names) == BASELINE_ROUTERS;
  }
}
