/**
 The telemetry collector: from four command outputs per router to a typed snapshot.  Whatever the commands
 print, the snapshot is valid and conforms to the binding it was collected for.
 */
module TelemetryCollector {
  import opened Wrappers
  import opened Json
  import opened IsoTime
  import opened TelemetryModels
  import opened TelemetryConfig

  // ----- scalar readings

  function NonnegativeInt(v: Json): int {
    if v.Integer? && v.number >= 0 then v.number else 0
  }

  predicate IsSpace(c: char) {
    c in " \t\n\r\U{0B}\U{0C}\U{1C}\U{1D}\U{1E}\U{1F}"
  }

  function StripLeft(s: string): string {
    if s != [] && IsSpace(s[0]) then StripLeft(s[1..]) else s
  }

  function StripRight(s: string): string {
    if s != [] && IsSpace(s[|s| - 1]) then StripRight(s[..|s| - 1]) else s
  }

  function Lower(s: string): string {
    seq(|s|, i requires 0 <= i < |s| => if 'A' <= s[i] <= 'Z' then s[i] - 'A' + 'a' else s[i])
  }

  predicate StartsWith(s: string, head: string) {
    |head| <= |s| && s[..|head|] == head
  }

  /** The text of a value that is not a string starts with neither "up" nor "full" and is never blank. */
  function StateOf(v: Json, up: string): State {
    if !v.Text? then Down
    else
      var normalized := Lower(StripRight(StripLeft(v.text)));
      if StartsWith(normalized, up) then Up
      else if normalized == "" || normalized == "unknown" then Unknown
      else Down
  }

  // ----- interfaces

  /** The last entry that carries the name wins. */
  function Named(items: seq<Json>, name: string): Option<Json> {
    if items == [] then None
    else
      var last := items[|items| - 1];
      if Get(last, "ifname") == Text(name) then Some(last) else Named(items[..|items| - 1], name)
  }

  function InterfaceReading(name: string, entry: Option<Json>): Interface {
    match entry
    case None => Interface(name, Unknown, 0, 0, 0, 0)
    case Some(e) =>
      var stats := Get(e, "stats64");
      var rx, tx := Get(stats, "rx"), Get(stats, "tx");
      Interface(
        name,
        StateOf(Get(e, "operstate"), "up"),
        NonnegativeInt(Get(rx, "bytes")),
        NonnegativeInt(Get(tx, "bytes")),
        NonnegativeInt(Get(rx, "dropped")),
        NonnegativeInt(Get(tx, "dropped")))
  }

  /** One observation per bound interface, in the bound order; any of them may fail its own checks. */
  ghost predicate InterfacesRead(doc: Option<Json>, expected: seq<string>, r: Option<seq<Interface>>) {
    var good := doc.Some? && doc.value.Array?
                && forall n | n in expected :: InterfaceOk(InterfaceReading(n, Named(doc.value.items, n)));
    if !good then r.None?
    else
      && r.Some? && |r.value| == |expected|
      && forall i | 0 <= i < |expected| ::
         r.value[i] == InterfaceReading(expected[i], Named(doc.value.items, expected[i]))
  }

  /** The dictionary holds, for each name, the last entry seen. */
  ghost predicate Indexed(entries: map<string, Json>, items: seq<Json>) {
    forall n :: (if n in entries then Some(entries[n]) else None) == Named(items, n)
  }

  lemma IndexStep(entries: map<string, Json>, items: seq<Json>, last: Json)
    requires Indexed(entries, items)
    ensures Indexed(if Get(last, "ifname").Text? then entries[Get(last, "ifname").text := last]
                    else entries, items + [last])
  {
    assert (items + [last])[..|items|] == items;
  }

  method IndexByName(items: seq<Json>) returns (entries: map<string, Json>)
    ensures Indexed(entries, items)
  {
    entries := map[];
    for i := 0 to |items|
      invariant Indexed(entries, items[..i])
    {
      IndexStep(entries, items[..i], items[i]);
      assert items[..i + 1] == items[..i] + [items[i]];
      var name := Get(items[i], "ifname");
      if name.Text? {
        entries := entries[name.text := items[i]];
      }
    }
    assert items[..|items|] == items;
  }

  method ParseInterfaces(doc: Option<Json>, expected: seq<string>) returns (r: Option<seq<Interface>>)
    ensures InterfacesRead(doc, expected, r)
  {
    if doc.None? || !doc.value.Array? {
      return None;
    }
    var entries := IndexByName(doc.value.items);
    var observations: seq<Interface> := [];
    for i := 0 to |expected|
      invariant |observations| == i
      invariant forall k | 0 <= k < i :: observations[k]
                  == InterfaceReading(expected[k], Named(doc.value.items, expected[k]))
      invariant forall k | 0 <= k < i :: InterfaceOk(observations[k])
    {
      var name := expected[i];
      var reading := InterfaceReading(name, if name in entries then Some(entries[name]) else None);
      if !InterfaceOk(reading) {
        return None;
      }
      observations := observations + [reading];
    }
    return Some(observations);
  }

  // ----- protocol sessions

  datatype Sighting = Sighting(interface: string, state: State)

  /** Every sighting is on a bound interface, and no interface is seen twice. */
  ghost predicate Admissible(seen: seq<Sighting>, allowed: set<string>) {
    && (forall s | s in seen :: s.interface in allowed)
    && (forall i, j | 0 <= i < j < |seen| :: seen[i].interface != seen[j].interface)
  }

  /** The states recorded so far are exactly those seen. */
  ghost predicate Recorded(states: map<string, State>, seen: seq<Sighting>, allowed: set<string>) {
    && Admissible(seen, allowed)
    && (forall s | s in seen :: s.interface in states && states[s.interface] == s.state)
    && (forall i | i in states :: Sighting(i, states[i]) in seen)
  }

  method Record(states: map<string, State>, s: Sighting, allowed: set<string>, ghost seen: seq<Sighting>)
    returns (r: Option<map<string, State>>)
    requires Recorded(states, seen, allowed)
    ensures r.Some? <==> Admissible(seen + [s], allowed)
    ensures r.Some? ==> Recorded(r.value, seen + [s], allowed)
  {
    ghost var more := seen + [s];
    assert more[|seen|] == s && forall i | 0 <= i < |seen| :: more[i] == seen[i];
    if s.interface !in allowed {
      return None;
    }
    if s.interface in states {
      assert Sighting(s.interface, states[s.interface]) in seen;
      return None;
    }
    r := Some(states[s.interface := s.state]);
  }

  lemma AdmissiblePrefix(a: seq<Sighting>, b: seq<Sighting>, allowed: set<string>)
    requires Admissible(a + b, allowed)
    ensures Admissible(a, allowed)
  {
    forall i | 0 <= i < |a| ensures a[i] == (a + b)[i] {
    }
  }

  function Allowing(peers: seq<Peer>): set<string> {
    set p | p in peers :: p.interface
  }

  // ----- OSPF

  function BeforeColon(s: string): string {
    if s == [] || s[0] == ':' then [] else [s[0]] + BeforeColon(s[1..])
  }

  function OspfState(entry: Json): State {
    StateOf(if Has(entry, "converged") then Get(entry, "converged") else Get(entry, "nbrState"), "full")
  }

  function OspfSighting(entry: Json): Option<Sighting> {
    var name := Get(entry, "ifaceName");
    if !name.Text? || name.text == "" then None else Some(Sighting(BeforeColon(name.text), OspfState(entry)))
  }

  function OptionSeq<T>(o: Option<T>): seq<T> {
    if o.Some? then [o.value] else []
  }

  function OspfGroup(items: seq<Json>): seq<Sighting> {
    if items == [] then []
    else OspfGroup(items[..|items| - 1]) + OptionSeq(OspfSighting(items[|items| - 1]))
  }

  function OspfGroups(groups: seq<Json>): seq<Sighting> {
    if groups == [] then []
    else OspfGroups(groups[..|groups| - 1]) + OspfGroup(Sequence(groups[|groups| - 1]))
  }

  function NeighborGroups(doc: Json): seq<Json> {
    Values(Mapping(Get(doc, "neighbors")))
  }

  lemma OspfGroupStep(items: seq<Json>, i: int)
    requires 0 <= i < |items|
    ensures OspfGroup(items[..i + 1]) == OspfGroup(items[..i]) + OptionSeq(OspfSighting(items[i]))
  {
    assert items[..i + 1][..i] == items[..i];
  }

  lemma OspfGroupsStep(groups: seq<Json>, i: int)
    requires 0 <= i < |groups|
    ensures OspfGroups(groups[..i + 1]) == OspfGroups(groups[..i]) + OspfGroup(Sequence(groups[i]))
  {
    assert groups[..i + 1][..i] == groups[..i];
  }

  lemma {:induction false} OspfGroupPrefix(before: seq<Sighting>, items: seq<Json>, i: int, allowed: set<string>)
    requires 0 <= i <= |items| && Admissible(before + OspfGroup(items), allowed)
    ensures Admissible(before + OspfGroup(items[..i]), allowed)
    decreases |items| - i
  {
    if i == |items| {
      assert items[..i] == items;
    } else {
      OspfGroupPrefix(before, items, i + 1, allowed);
      OspfGroupStep(items, i);
      var now, next := OspfGroup(items[..i]), OptionSeq(OspfSighting(items[i]));
      assert before + (now + next) == (before + now) + next;
      AdmissiblePrefix(before + now, next, allowed);
    }
  }

  lemma {:induction false} OspfGroupsPrefix(groups: seq<Json>, i: int, allowed: set<string>)
    requires 0 <= i <= |groups| && Admissible(OspfGroups(groups), allowed)
    ensures Admissible(OspfGroups(groups[..i]), allowed)
    decreases |groups| - i
  {
    if i == |groups| {
      assert groups[..i] == groups;
    } else {
      OspfGroupsPrefix(groups, i + 1, allowed);
      OspfGroupsStep(groups, i);
      AdmissiblePrefix(OspfGroups(groups[..i]), OspfGroup(Sequence(groups[i])), allowed);
    }
  }

  /** The inner loop: the entries of one neighbor address. */
  method RecordOspfGroup(states: map<string, State>, items: seq<Json>, allowed: set<string>, ghost seen: seq<Sighting>)
    returns (r: Option<map<string, State>>)
    requires Recorded(states, seen, allowed)
    ensures r.Some? <==> Admissible(seen + OspfGroup(items), allowed)
    ensures r.Some? ==> Recorded(r.value, seen + OspfGroup(items), allowed)
  {
    var current := states;
    assert seen + OspfGroup(items[..0]) == seen;
    for i := 0 to |items|
      invariant Recorded(current, seen + OspfGroup(items[..i]), allowed)
    {
      OspfGroupStep(items, i);
      ghost var sofar := seen + OspfGroup(items[..i]);
      var sighting := OspfSighting(items[i]);
      assert seen + OspfGroup(items[..i + 1]) == sofar + OptionSeq(sighting);
      if sighting.Some? {
        var next := Record(current, sighting.value, allowed, sofar);
        if next.None? {
          if Admissible(seen + OspfGroup(items), allowed) {
            OspfGroupPrefix(seen, items, i + 1, allowed);
          }
          return None;
        }
        current := next.value;
      } else {
        assert sofar + OptionSeq(sighting) == sofar;
      }
    }
    assert items[..|items|] == items;
    return Some(current);
  }

  /** The outer loop: the neighbor addresses. */
  method RecordOspf(groups: seq<Json>, allowed: set<string>) returns (r: Option<map<string, State>>)
    ensures r.Some? <==> Admissible(OspfGroups(groups), allowed)
    ensures r.Some? ==> Recorded(r.value, OspfGroups(groups), allowed)
  {
    var states: map<string, State> := map[];
    for i := 0 to |groups|
      invariant Recorded(states, OspfGroups(groups[..i]), allowed)
    {
      OspfGroupsStep(groups, i);
      var next := RecordOspfGroup(states, Sequence(groups[i]), allowed, OspfGroups(groups[..i]));
      if next.None? {
        if Admissible(OspfGroups(groups), allowed) {
          OspfGroupsPrefix(groups, i + 1, allowed);
        }
        return None;
      }
      states := next.value;
    }
    assert groups[..|groups|] == groups;
    return Some(states);
  }

  predicate PeersNameable(peers: seq<Peer>) {
    forall p | p in peers :: IsIdentifier(p.peer, IDENTIFIER_LIMIT) && IsIdentifier(p.interface, IDENTIFIER_LIMIT)
  }

  /** The neighbor of each bound peer: up or unknown as seen on its interface, and down when not seen. */
  ghost predicate OspfMatches(n: OspfNeighbor, p: Peer, seen: seq<Sighting>) {
    && n.neighbor == p.peer && n.interface == p.interface
    && (Sighting(p.interface, n.state) in seen
        || (n.state == Down && forall s | s in seen :: s.interface != p.interface))
  }

  ghost predicate OspfRead(doc: Option<Json>, peers: seq<Peer>, r: Option<seq<OspfNeighbor>>) {
    if doc.None? || !PeersNameable(peers) || !Admissible(OspfGroups(NeighborGroups(doc.value)), Allowing(peers))
        then r.None?
    else
      && r.Some? && |r.value| == |peers|
      && forall i | 0 <= i < |peers| :: OspfMatches(r.value[i], peers[i], OspfGroups(NeighborGroups(doc.value)))
  }

  method ParseOspf(doc: Option<Json>, peers: seq<Peer>) returns (r: Option<seq<OspfNeighbor>>)
    ensures OspfRead(doc, peers, r)
  {
    if doc.None? {
      return None;
    }
    var recorded := RecordOspf(NeighborGroups(doc.value), Allowing(peers));
    if recorded.None? || !PeersNameable(peers) {
      return None;
    }
    var states := recorded.value;
    return Some(seq(|peers|, i requires 0 <= i < |peers| =>
      OspfNeighbor(peers[i].peer, peers[i].interface, if peers[i].interface in states then states[peers[i].interface]
                   else Down)));
  }

  // ----- BFD

  /** Every mapping inside a value, outermost first. */
  function Walk(v: Json): seq<Json>
    decreases v
  {
    match v
    case Object(members) => [v] + WalkMembers(members)
    case Array(items) => WalkItems(items)
    case _ => []
  }

  function WalkItems(items: seq<Json>): seq<Json>
    decreases items
  {
    if items == [] then [] else Walk(items[0]) + WalkItems(items[1..])
  }

  function WalkMembers(members: seq<Member>): seq<Json>
    decreases members
  {
    if members == [] then [] else Walk(members[0].value) + WalkMembers(members[1..])
  }

  /** `m` is `v`, or lies inside one of its items or member values, at any depth. */
  ghost predicate Inside(m: Json, v: Json)
    decreases v
  {
    || m == v
    || (v.Array? && exists i :: 0 <= i < |v.items| && Inside(m, v.items[i]))
    || (v.Object? && exists i :: 0 <= i < |v.members| && Inside(m, v.members[i].value))
  }

  /** The walk yields every mapping in the document, at any depth, and nothing else. */
  lemma {:induction false} WalkFindsEveryMapping(m: Json, v: Json)
    ensures m in Walk(v) <==> m.Object? && Inside(m, v)
    decreases v
  {
    match v
    case Object(members) => WalkMembersFind(m, members);
    case Array(items) => WalkItemsFind(m, items);
    case _ =>
  }

  lemma {:induction false} WalkItemsFind(m: Json, items: seq<Json>)
    ensures m in WalkItems(items) <==> m.Object? && exists i :: 0 <= i < |items| && Inside(m, items[i])
    decreases items
  {
    if items != [] {
      WalkFindsEveryMapping(m, items[0]);
      WalkItemsFind(m, items[1..]);
      assert forall i | 1 <= i < |items| :: items[i] == items[1..][i - 1];
    }
  }

  lemma {:induction false} WalkMembersFind(m: Json, members: seq<Member>)
    ensures m in WalkMembers(members) <==> m.Object? && exists i :: 0 <= i < |members| && Inside(m, members[i].value)
    decreases members
  {
    if members != [] {
      WalkFindsEveryMapping(m, members[0].value);
      WalkMembersFind(m, members[1..]);
      assert forall i | 1 <= i < |members| :: members[i] == members[1..][i - 1];
    }
  }

  function BfdSighting(entry: Json): Option<Sighting> {
    var name := Get(entry, "interface");
    if !name.Text? || !(Has(entry, "peer") || Has(entry, "status")) then None
    else Some(Sighting(name.text, StateOf(Get(entry, "status"), "up")))
  }

  function BfdSightings(entries: seq<Json>): seq<Sighting> {
    if entries == [] then []
    else BfdSightings(entries[..|entries| - 1]) + OptionSeq(BfdSighting(entries[|entries| - 1]))
  }

  lemma BfdStep(entries: seq<Json>, i: int)
    requires 0 <= i < |entries|
    ensures BfdSightings(entries[..i + 1]) == BfdSightings(entries[..i]) + OptionSeq(BfdSighting(entries[i]))
  {
    assert entries[..i + 1][..i] == entries[..i];
  }

  lemma {:induction false} BfdPrefix(entries: seq<Json>, i: int, allowed: set<string>)
    requires 0 <= i <= |entries| && Admissible(BfdSightings(entries), allowed)
    ensures Admissible(BfdSightings(entries[..i]), allowed)
    decreases |entries| - i
  {
    if i == |entries| {
      assert entries[..i] == entries;
    } else {
      BfdPrefix(entries, i + 1, allowed);
      BfdStep(entries, i);
      AdmissiblePrefix(BfdSightings(entries[..i]), OptionSeq(BfdSighting(entries[i])), allowed);
    }
  }

  method RecordBfd(entries: seq<Json>, allowed: set<string>) returns (r: Option<map<string, State>>)
    ensures r.Some? <==> Admissible(BfdSightings(entries), allowed)
    ensures r.Some? ==> Recorded(r.value, BfdSightings(entries), allowed)
  {
    var states: map<string, State> := map[];
    for i := 0 to |entries|
      invariant Recorded(states, BfdSightings(entries[..i]), allowed)
    {
      BfdStep(entries, i);
      var sighting := BfdSighting(entries[i]);
      if sighting.Some? {
        var next := Record(states, sighting.value, allowed, BfdSightings(entries[..i]));
        if next.None? {
          if Admissible(BfdSightings(entries), allowed) {
            BfdPrefix(entries, i + 1, allowed);
          }
          return None;
        }
        states := next.value;
      } else {
        assert BfdSightings(entries[..i]) + [] == BfdSightings(entries[..i]);
      }
    }
    assert entries[..|entries|] == entries;
    return Some(states);
  }

  /** A bound peer that is not reported is unconfigured, and its state unknown rather than down. */
  ghost predicate BfdMatches(b: BfdPeer, p: Peer, seen: seq<Sighting>) {
    && b.peer == p.peer && b.interface == p.interface
    && (if b.configured then Sighting(p.interface, b.state) in seen
        else b.state == Unknown && forall s | s in seen :: s.interface != p.interface)
  }

  ghost predicate BfdRead(doc: Option<Json>, peers: seq<Peer>, r: Option<seq<BfdPeer>>) {
    if doc.None? || !PeersNameable(peers) || !Admissible(BfdSightings(Walk(doc.value)), Allowing(peers)) then r.None?
    else
      && r.Some? && |r.value| == |peers|
      && forall i | 0 <= i < |peers| :: BfdMatches(r.value[i], peers[i], BfdSightings(Walk(doc.value)))
  }

  method ParseBfd(doc: Option<Json>, peers: seq<Peer>) returns (r: Option<seq<BfdPeer>>)
    ensures BfdRead(doc, peers, r)
  {
    if doc.None? {
      return None;
    }
    var recorded := RecordBfd(Walk(doc.value), Allowing(peers));
    if recorded.None? || !PeersNameable(peers) {
      return None;
    }
    var states := recorded.value;
    return Some(seq(|peers|, i requires 0 <= i < |peers| =>
      BfdPeer(
        peers[i].peer,
        peers[i].interface,
        peers[i].interface in states,
        if peers[i].interface in states then states[peers[i].interface] else Unknown)));
  }

  // ----- the service route

  predicate IsSelected(entry: Json) {
    Get(entry, "selected") == Boolean(true) && Get(entry, "installed") == Boolean(true)
  }

  predicate IsForwarding(hop: Json) {
    Get(hop, "active") == Boolean(true) && Get(hop, "fib") == Boolean(true) && Get(hop, "interfaceName").Text?
  }

  /** `first` is the first item that satisfies `p`, if any does. */
  ghost predicate IsFirst(items: seq<Json>, p: Json -> bool, first: Option<Json>) {
    match first
    case None => forall x | x in items :: !p(x)
    case Some(f) => exists k :: 0 <= k < |items| && items[k] == f && p(f) && forall j | 0 <= j < k :: !p(items[j])
  }

  lemma FirstIsUnique(items: seq<Json>, p: Json -> bool, a: Option<Json>, b: Option<Json>)
    requires IsFirst(items, p, a) && IsFirst(items, p, b)
    ensures a == b
  {
  }

  method FindFirst(items: seq<Json>, p: Json -> bool) returns (first: Option<Json>)
    ensures IsFirst(items, p, first)
  {
    for i := 0 to |items|
      invariant forall j | 0 <= j < i :: !p(items[j])
    {
      if p(items[i]) {
        return Some(items[i]);
      }
    }
    return None;
  }

  /** The route record: absent, or present with the metric and egress of the first usable entries. */
  ghost predicate RouteRead(doc: Option<Json>, prefix: string, r: Option<Route>) {
    if doc.None? then r.None?
    else exists selected, hop ::
      && IsFirst(Sequence(Get(doc.value, prefix)), IsSelected, selected)
      && IsFirst(if selected.Some? then Sequence(Get(selected.value, "nexthops")) else [], IsForwarding, hop)
      && var route := RouteReading(prefix, selected, hop);
         r == if RouteOk(route) then Some(route) else None
  }

  function RouteReading(prefix: string, selected: Option<Json>, hop: Option<Json>): Route {
    match selected
    case None => Route(prefix, false, None, None)
    case Some(entry) =>
      var metric := Get(entry, "metric");
      Route(
        prefix,
        true,
        if metric.Integer? && metric.number >= 0 then Some(metric.number) else None,
        if hop.None? || !Get(hop.value, "interfaceName").Text? then None
        else Some(Get(hop.value, "interfaceName").text))
  }

  method ParseRoute(doc: Option<Json>, prefix: string) returns (r: Option<Route>)
    ensures RouteRead(doc, prefix, r)
  {
    if doc.None? {
      return None;
    }
    var selected := FindFirst(Sequence(Get(doc.value, prefix)), IsSelected);
    var hop := FindFirst(if selected.Some? then Sequence(Get(selected.value, "nexthops")) else [], IsForwarding);
    var route := RouteReading(prefix, selected, hop);
    return if RouteOk(route) then Some(route) else None;
  }

  // ----- one router

  /** What came of running one command: printed text that is or is not JSON, or an exception. */
  datatype Output = Printed(doc: Option<Json>) | TimedOut | CommandFailed | Unreadable | Broken

  datatype Outputs = Outputs(interfaces: Output, ospf: Output, bfd: Output, route: Output)

  const TIMED_OUT := "collection timed out"
  const COMMAND_FAILED := "collection command failed"
  const INVALID := "invalid telemetry response"
  const COLLECTOR_ERROR := "collector error"

  predicate IsReason(s: string) {
    s in {TIMED_OUT, COMMAND_FAILED, INVALID, COLLECTOR_ERROR}
  }

  function FailedRouter(name: string, error: string): Router {
    Router(name, false, Unknown, Some(if |error| <= 200 then error else error[..200]), [], [], [], [])
  }

  /** The reason a command that printed nothing usable leads to. */
  function Reason(o: Output): string {
    match o
    case Printed(_) => INVALID
    case TimedOut => TIMED_OUT
    case CommandFailed => COMMAND_FAILED
    case Unreadable => INVALID
    case Broken => COLLECTOR_ERROR
  }

  function Document(o: Output): Option<Json> {
    if o.Printed? then o.doc else None
  }

  ghost predicate InterfacesParse(t: Target, o: Outputs) {
    exists r :: InterfacesRead(Document(o.interfaces), t.interfaces, Some(r))
  }

  ghost predicate OspfParses(t: Target, o: Outputs) {
    exists r :: OspfRead(Document(o.ospf), t.peers, Some(r))
  }

  ghost predicate BfdParses(t: Target, o: Outputs) {
    exists r :: BfdRead(Document(o.bfd), t.peers, Some(r))
  }

  ghost predicate RouteParses(prefix: string, o: Outputs) {
    exists r :: RouteRead(Document(o.route), prefix, Some(r))
  }

  /** The first command, in the order they run, whose output could not be used decides the reason. */
  ghost function FailureReason(t: Target, prefix: string, o: Outputs): Option<string> {
    if !InterfacesParse(t, o) then Some(Reason(o.interfaces))
    else if !OspfParses(t, o) then Some(Reason(o.ospf))
    else if !BfdParses(t, o) then Some(Reason(o.bfd))
    else if !RouteParses(prefix, o) then Some(Reason(o.route))
    else None
  }

  /** A successful record: everything bound, as the four outputs show it. */
  ghost predicate Shows(r: Router, t: Target, prefix: string, o: Outputs) {
    && r.success && r.name == t.node && r.state == Up && r.error == None
    && InterfacesRead(Document(o.interfaces), t.interfaces, Some(r.interfaces))
    && OspfRead(Document(o.ospf), t.peers, Some(r.ospf))
    && BfdRead(Document(o.bfd), t.peers, Some(r.bfd))
    && |r.routes| == 1 && RouteRead(Document(o.route), prefix, Some(r.routes[0]))
  }

  // ----- from records to a valid router

  lemma ShownInterfaces(r: Router, t: Target, prefix: string, o: Outputs)
    requires Shows(r, t, prefix, o)
    ensures InterfaceNames(r) == t.interfaces && forall i | i in r.interfaces :: InterfaceOk(i)
  {
    assert forall i | 0 <= i < |r.interfaces| :: t.interfaces[i] in t.interfaces;
  }

  ghost predicate SamePeers(keys: seq<(string, string)>, peers: seq<Peer>) {
    |keys| == |peers| && forall i | 0 <= i < |peers| :: keys[i] == (peers[i].peer, peers[i].interface)
  }

  lemma ShownOspf(r: Router, t: Target, prefix: string, o: Outputs)
    requires t.Valid() && Shows(r, t, prefix, o)
    ensures Unique(OspfKeys(r)) && OspfPeers(r) == PeerKeys(t) && |r.ospf| == |t.peers|
    ensures forall n | n in r.ospf :: OspfOk(n) && n.interface in t.interfaces
  {
    assert SamePeers(OspfKeys(r), t.peers);
    OspfKeySet(r);
    forall n | n in r.ospf ensures OspfOk(n) && n.interface in t.interfaces {
      var i :| 0 <= i < |r.ospf| && r.ospf[i] == n;
      assert t.peers[i] in t.peers;
    }
  }

  lemma OspfKeySet(r: Router)
    ensures OspfPeers(r) == set k | k in OspfKeys(r)
  {
    forall n | n in r.ospf ensures (n.neighbor, n.interface) in OspfKeys(r) {
      var i :| 0 <= i < |r.ospf| && r.ospf[i] == n;
      assert OspfKeys(r)[i] == (n.neighbor, n.interface);
    }
  }

  lemma ShownBfd(r: Router, t: Target, prefix: string, o: Outputs)
    requires t.Valid() && Shows(r, t, prefix, o)
    ensures Unique(BfdKeys(r)) && BfdPeers(r) == PeerKeys(t) && |r.bfd| == |t.peers|
    ensures forall p | p in r.bfd :: BfdOk(p) && p.interface in t.interfaces
  {
    assert SamePeers(BfdKeys(r), t.peers);
    BfdKeySet(r);
    forall p | p in r.bfd ensures BfdOk(p) && p.interface in t.interfaces {
      var i :| 0 <= i < |r.bfd| && r.bfd[i] == p;
      assert t.peers[i] in t.peers;
    }
  }

  lemma BfdKeySet(r: Router)
    ensures BfdPeers(r) == set k | k in BfdKeys(r)
  {
    forall p | p in r.bfd ensures (p.peer, p.interface) in BfdKeys(r) {
      var i :| 0 <= i < |r.bfd| && r.bfd[i] == p;
      assert BfdKeys(r)[i] == (p.peer, p.interface);
    }
  }

  lemma ObservedNames(r: Router, t: Target)
    requires InterfaceNames(r) == t.interfaces
    ensures Observed(r) == Allowed(t)
  {
    forall i | i in r.interfaces ensures i.name in t.interfaces {
      var k :| 0 <= k < |r.interfaces| && r.interfaces[k] == i;
      assert InterfaceNames(r)[k] == i.name;
    }
    forall n | n in t.interfaces ensures n in Observed(r) {
      var k :| 0 <= k < |t.interfaces| && t.interfaces[k] == n;
      assert r.interfaces[k].name == InterfaceNames(r)[k] == n;
    }
  }

  ghost predicate EgressBound(route: Route, t: Target) {
    route.egress.Some? ==> route.egress.value in t.interfaces
  }

  /**
   A record of four usable outputs is complete, and it is valid exactly when the route leaves by a bound
   interface.
   */
  lemma ShownIsComplete(r: Router, t: Target, prefix: string, o: Outputs)
    requires t.Valid() && IsIdentifier(t.node, IDENTIFIER_LIMIT) && Shows(r, t, prefix, o)
    ensures Complete(r, t, prefix)
    ensures RouterOk(r) <==> EgressBound(r.routes[0], t)
  {
    ShownInterfaces(r, t, prefix, o);
    ShownOspf(r, t, prefix, o);
    ShownBfd(r, t, prefix, o);
    ObservedNames(r, t);
    assert RouteOk(r.routes[0]) && r.routes[0].prefix == prefix;
    assert r.routes == [r.routes[0]];
    assert PartsOk(r) && OutcomeOk(r) && KeysOk(r);
  }

  lemma EmptyRouterOk(r: Router)
    requires !r.success && r.state.Unknown? && r.error.Some? && IsErrorLine(r.error.value)
             && IsIdentifier(r.name, IDENTIFIER_LIMIT)
    requires r.interfaces == [] && r.ospf == [] && r.bfd == [] && r.routes == []
    ensures RouterOk(r)
  {
  }

  lemma FailedIsOk(t: Target, prefix: string, reason: string)
    requires IsIdentifier(t.node, IDENTIFIER_LIMIT) && IsReason(reason)
    ensures RouterOk(FailedRouter(t.node, reason)) && Conforms(FailedRouter(t.node, reason), t, prefix)
  {
    EmptyRouterOk(FailedRouter(t.node, reason));
  }

  /** What one target contributes: the first failure's reason, a complete record, or the collector's own error. */
  ghost predicate Contributes(r: Router, t: Target, prefix: string, o: Outputs) {
    match FailureReason(t, prefix, o)
    case Some(reason) => r == FailedRouter(t.node, reason)
    case None =>
      if RouteLeavesBound(t, prefix, o) then Shows(r, t, prefix, o) else r == FailedRouter(t.node, COLLECTOR_ERROR)
  }

  ghost predicate RouteLeavesBound(t: Target, prefix: string, o: Outputs) {
    exists route :: RouteRead(Document(o.route), prefix, Some(route)) && EgressBound(route, t)
  }

  lemma RouteReadIsUnique(doc: Option<Json>, prefix: string, a: Option<Route>, b: Option<Route>)
    requires RouteRead(doc, prefix, a) && RouteRead(doc, prefix, b)
    ensures a == b
  {
    if doc.Some? {
      var items := Sequence(Get(doc.value, prefix));
      var s, h :| IsFirst(items, IsSelected, s)
        && IsFirst(if s.Some? then Sequence(Get(s.value, "nexthops")) else [], IsForwarding, h)
        && a == if RouteOk(RouteReading(prefix, s, h)) then Some(RouteReading(prefix, s, h)) else None;
      var u, k :| IsFirst(items, IsSelected, u)
        && IsFirst(if u.Some? then Sequence(Get(u.value, "nexthops")) else [], IsForwarding, k)
        && b == if RouteOk(RouteReading(prefix, u, k)) then Some(RouteReading(prefix, u, k)) else None;
      FirstIsUnique(items, IsSelected, s, u);
      FirstIsUnique(if s.Some? then Sequence(Get(s.value, "nexthops")) else [], IsForwarding, h, k);
    }
  }

  lemma RecordedReason(t: Target, prefix: string, o: Outputs)
    ensures FailureReason(t, prefix, o).Some? ==> IsReason(FailureReason(t, prefix, o).value)
    ensures IsReason(COLLECTOR_ERROR)
  {
  }

  lemma ShownConforms(r: Router, t: Target, prefix: string, o: Outputs)
    requires t.Valid() && IsIdentifier(t.node, IDENTIFIER_LIMIT) && Shows(r, t, prefix, o)
             && RouteLeavesBound(t, prefix, o)
    ensures r.success && r.name == t.node && RouterOk(r) && Complete(r, t, prefix)
  {
    ShownIsComplete(r, t, prefix, o);
    RouteDecides(t, prefix, o, r.routes[0]);
  }

  /** Every contribution is a valid router record that the binding accepts. */
  lemma ContributionConforms(r: Router, t: Target, prefix: string, o: Outputs)
    requires t.Valid() && IsIdentifier(t.node, IDENTIFIER_LIMIT) && Contributes(r, t, prefix, o)
    ensures r.name == t.node && RouterOk(r) && Conforms(r, t, prefix)
    ensures r.success <==> FailureReason(t, prefix, o).None? && RouteLeavesBound(t, prefix, o)
    ensures r.success ==> Complete(r, t, prefix)
  {
    RecordedReason(t, prefix, o);
    var reason := FailureReason(t, prefix, o);
    if reason.Some? {
      FailedIsOk(t, prefix, reason.value);
    } else if RouteLeavesBound(t, prefix, o) {
      ShownConforms(r, t, prefix, o);
    } else {
      FailedIsOk(t, prefix, COLLECTOR_ERROR);
    }
  }

  lemma BfdDecides(t: Target, o: Outputs, r: Option<seq<BfdPeer>>)
    requires BfdRead(Document(o.bfd), t.peers, r)
    ensures BfdParses(t, o) <==> r.Some?
  {
  }

  /** What the caller of the collector records: its own error when an exception escaped. */
  function Outcome(t: Target, r: Option<Router>): Router {
    if r.Some? then r.value else FailedRouter(t.node, COLLECTOR_ERROR)
  }

  lemma CaughtContributes(t: Target, prefix: string, o: Outputs, output: Output)
    requires FailureReason(t, prefix, o) == Some(Reason(output))
    ensures Contributes(Outcome(t, Caught(t, output)), t, prefix, o)
  {
  }

  lemma CompletedContributes(r: Router, t: Target, prefix: string, o: Outputs)
    requires t.Valid() && IsIdentifier(t.node, IDENTIFIER_LIMIT) && Shows(r, t, prefix, o)
    requires FailureReason(t, prefix, o).None?
    ensures Contributes(Outcome(t, if RouterOk(r) then Some(r) else None), t, prefix, o)
  {
    ShownIsComplete(r, t, prefix, o);
    RouteDecides(t, prefix, o, r.routes[0]);
  }

  /** One router's record; none when an exception other than the four caught ones escapes. */
  method CollectRouter(t: Target, prefix: string, o: Outputs) returns (r: Option<Router>)
    requires t.Valid() && IsIdentifier(t.node, IDENTIFIER_LIMIT)
    ensures Contributes(Outcome(t, r), t, prefix, o)
  {
    var interfaces := ParseInterfaces(Document(o.interfaces), t.interfaces);
    if interfaces.None? {
      CaughtContributes(t, prefix, o, o.interfaces);
      return Caught(t, o.interfaces);
    }
    var ospf := ParseOspf(Document(o.ospf), t.peers);
    if ospf.None? {
      CaughtContributes(t, prefix, o, o.ospf);
      return Caught(t, o.ospf);
    }
    var bfd := ParseBfd(Document(o.bfd), t.peers);
    BfdDecides(t, o, bfd);
    if bfd.None? {
      CaughtContributes(t, prefix, o, o.bfd);
      return Caught(t, o.bfd);
    }
    var route := ParseRoute(Document(o.route), prefix);
    if route.None? {
      RouteNotParsed(prefix, o);
      CaughtContributes(t, prefix, o, o.route);
      return Caught(t, o.route);
    }
    var router := Router(t.node, true, Up, None, interfaces.value, ospf.value, bfd.value, [route.value]);
    CompletedContributes(router, t, prefix, o);
    return if RouterOk(router) then Some(router) else None;
  }

  /** The except clauses. */
  function Caught(t: Target, o: Output): Option<Router> {
    if o.Broken? then None else Some(FailedRouter(t.node, Reason(o)))
  }

  lemma RouteNotParsed(prefix: string, o: Outputs)
    requires RouteRead(Document(o.route), prefix, None)
    ensures !RouteParses(prefix, o)
  {
    if RouteParses(prefix, o) {
      var r :| RouteRead(Document(o.route), prefix, Some(r));
      RouteReadIsUnique(Document(o.route), prefix, Some(r), None);
    }
  }

  lemma RouteDecides(t: Target, prefix: string, o: Outputs, route: Route)
    requires RouteRead(Document(o.route), prefix, Some(route))
    ensures RouteLeavesBound(t, prefix, o) <==> EgressBound(route, t)
  {
    if RouteLeavesBound(t, prefix, o) {
      var other :| RouteRead(Document(o.route), prefix, Some(other)) && EgressBound(other, t);
      RouteReadIsUnique(Document(o.route), prefix, Some(route), Some(other));
    }
  }

  // ----- the whole snapshot

  lemma BaselineIsIdentifier(name: string)
    requires name in BASELINE_ROUTERS
    ensures IsIdentifier(name, IDENTIFIER_LIMIT)
  {
  }

  lemma TargetIsBaseline(b: Binding, i: int)
    requires b.Valid() && 0 <= i < |b.targets|
    ensures b.targets[i].Valid() && IsIdentifier(b.targets[i].node, IDENTIFIER_LIMIT)
  {
    assert b.Nodes()[i] in b.Nodes();
    BaselineIsIdentifier(b.targets[i].node);
  }

  ghost predicate ContributesAll(routers: seq<Router>, b: Binding, outputs: seq<Outputs>)
    requires |routers| <= |b.targets| <= |outputs|
  {
    forall i | 0 <= i < |routers| :: Contributes(routers[i], b.targets[i], b.servicePrefix, outputs[i])
  }

  /** Whatever the commands print, the collected snapshot is valid, and the server's own check accepts it. */
  lemma CollectedIsAccepted(s: Snapshot, b: Binding, outputs: seq<Outputs>)
    requires b.Valid() && |outputs| == |b.targets| == |s.routers| && ContributesAll(s.routers, b, outputs)
    requires IsIdentifier(s.id, IDENTIFIER_LIMIT) && s.observedAt.Valid() && s.fingerprint == b.fingerprint
    ensures SnapshotOk(s) && Accepted(s, b)
  {
    forall i | 0 <= i < |s.routers| ensures RecordOk(s.routers[i], b.targets[i], b.servicePrefix) {
      TargetIsBaseline(b, i);
      ContributionConforms(s.routers[i], b.targets[i], b.servicePrefix, outputs[i]);
    }
    RecordsMakeSnapshot(s, b);
    RecordsAreAccepted(s, b);
  }

  ghost predicate RecordOk(r: Router, t: Target, prefix: string) {
    r.name == t.node && RouterOk(r) && Conforms(r, t, prefix)
  }

  ghost predicate RecordsOk(s: Snapshot, b: Binding) {
    |s.routers| == |b.targets| && forall i | 0 <= i < |s.routers| ::
        RecordOk(s.routers[i], b.targets[i], b.servicePrefix)
  }

  lemma RecordsMakeSnapshot(s: Snapshot, b: Binding)
    requires b.Valid() && RecordsOk(s, b) && IsIdentifier(s.id, IDENTIFIER_LIMIT) && s.observedAt.Valid()
             && s.fingerprint == b.fingerprint
    ensures SnapshotOk(s)
  {
    assert RouterNames(s) == b.Nodes();
    forall r | r in s.routers ensures RouterOk(r) {
      var i :| 0 <= i < |s.routers| && s.routers[i] == r;
      assert RecordOk(s.routers[i], b.targets[i], b.servicePrefix);
    }
  }

  lemma RecordIsAccepted(s: Snapshot, b: Binding, i: int, t: Target)
    requires Unique(b.Nodes()) && RecordsOk(s, b) && 0 <= i < |s.routers|
    requires t in b.targets && t.node == s.routers[i].name
    ensures Conforms(s.routers[i], t, b.servicePrefix)
  {
    assert RecordOk(s.routers[i], b.targets[i], b.servicePrefix);
    DistinctNodes(b);
    assert b.targets[i] in b.targets;
  }

  lemma RecordsAreAccepted(s: Snapshot, b: Binding)
    requires Unique(b.Nodes()) && RecordsOk(s, b) && s.fingerprint == b.fingerprint
    ensures Accepted(s, b)
  {
    forall r, t | r in s.routers && t in b.targets && t.node == r.name ensures Conforms(r, t, b.servicePrefix) {
      var i :| 0 <= i < |s.routers| && s.routers[i] == r;
      RecordIsAccepted(s, b, i, t);
    }
  }

  method CollectSnapshot(b: Binding, outputs: seq<Outputs>, id: string, now: Utc) returns (s: Snapshot)
    requires b.Valid() && |outputs| == |b.targets|
    requires IsIdentifier(id, IDENTIFIER_LIMIT) && now.Valid()
    ensures SnapshotOk(s) && Accepted(s, b) && s.id == id && s.observedAt == now
    ensures |s.routers| == |b.targets| && ContributesAll(s.routers, b, outputs)
  {
    var routers: seq<Router> := [];
    for i := 0 to |b.targets|
      invariant |routers| == i && ContributesAll(routers, b, outputs)
    {
      TargetIsBaseline(b, i);
      var router := CollectRouter(b.targets[i], b.servicePrefix, outputs[i]);
      routers := routers + [if router.Some? then router.value else FailedRouter(b.targets[i].node, COLLECTOR_ERROR)];
    }
    s := Snapshot(id, now, b.fingerprint, routers);
    CollectedIsAccepted(s, b, outputs);
  }
}
