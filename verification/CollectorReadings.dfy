/**
 What a collected record shows, stated on the printed documents themselves: which text makes an observation
 up, unknown or down, which integer is which counter, and which entry gives the metric and the egress.
 */
module CollectorReadings {
  import opened Wrappers
  import opened Json
  import opened TelemetryModels
  import opened TelemetryConfig
  import opened TelemetryCollector

  // ----- states

  /** White space, by character code: tab to carriage return, and 28 to the blank. */
  predicate IsWhite(c: char) {
    9 <= c as int <= 13 || 28 <= c as int <= 32
  }

  predicate IsBlank(s: string) {
    forall i | 0 <= i < |s| :: IsWhite(s[i])
  }

  /** The same letter, or its ASCII capital. */
  predicate SameLetter(c: char, small: char) {
    c == small || ('A' <= c <= 'Z' && c as int + 32 == small as int)
  }

  predicate BeginsWith(s: string, word: string) {
    |word| <= |s| && forall i | 0 <= i < |word| :: SameLetter(s[i], word[i])
  }

  predicate Spells(s: string, word: string) {
    |s| == |word| && BeginsWith(s, word)
  }

  /** `s` without the white space around it. */
  ghost predicate IsCore(s: string, core: string) {
    && (exists a, b :: s == a + core + b && IsBlank(a) && IsBlank(b))
    && (core != "" ==> !IsWhite(core[0]) && !IsWhite(core[|core| - 1]))
  }

  lemma SpaceIsWhite(c: char)
    ensures IsSpace(c) <==> IsWhite(c)
  {
    if IsWhite(c) {
      assert c in ['\t', '\n', '\U{0B}', '\U{0C}', '\r', '\U{1C}', '\U{1D}', '\U{1E}', '\U{1F}', ' '];
    }
  }

  lemma BlankConcat(a: string, b: string)
    ensures IsBlank(a + b) <==> IsBlank(a) && IsBlank(b)
  {
    assert forall i | 0 <= i < |a| :: (a + b)[i] == a[i];
    forall i | 0 <= i < |b| ensures (a + b)[|a| + i] == b[i] {
    }
    if IsBlank(a + b) {
      forall i | 0 <= i < |b| ensures IsWhite(b[i]) {
        assert (a + b)[|a| + i] == b[i];
      }
    }
  }

  lemma {:induction false} StripLeftSplits(s: string) returns (a: string)
    ensures s == a + StripLeft(s) && IsBlank(a)
    ensures StripLeft(s) != "" ==> !IsWhite(StripLeft(s)[0])
  {
    if s != [] {
      SpaceIsWhite(s[0]);
    }
    if s != [] && IsSpace(s[0]) {
      var rest := StripLeftSplits(s[1..]);
      a := [s[0]] + rest;
      BlankConcat([s[0]], rest);
      assert s == [s[0]] + s[1..];
    } else {
      a := "";
    }
  }

  lemma {:induction false} StripRightStops(s: string) returns (k: nat)
    ensures k <= |s| && StripRight(s) == s[..k] && (k > 0 ==> !IsWhite(s[k - 1]))
    ensures forall i | k <= i < |s| :: IsWhite(s[i])
  {
    k := |s|;
    if s != [] {
      SpaceIsWhite(s[|s| - 1]);
      if IsSpace(s[|s| - 1]) {
        k := StripRightStops(s[..|s| - 1]);
        assert s[..|s| - 1][..k] == s[..k];
      }
    }
  }

  lemma StripRightSplits(s: string) returns (b: string)
    ensures s == StripRight(s) + b && IsBlank(b)
    ensures StripRight(s) != "" ==> !IsWhite(StripRight(s)[|StripRight(s)| - 1])
  {
    var k := StripRightStops(s);
    b := s[k..];
  }

  /** What stripping leaves is the text without the white space around it. */
  lemma StrippedIsCore(s: string)
    ensures IsCore(s, StripRight(StripLeft(s)))
  {
    var a := StripLeftSplits(s);
    var b := StripRightSplits(StripLeft(s));
    assert StripRight(StripLeft(s)) != "" ==> StripRight(StripLeft(s))[0] == StripLeft(s)[0];
    assert s == a + StripRight(StripLeft(s)) + b;
  }

  lemma CoreIsUnique(s: string, x: string, y: string)
    requires IsCore(s, x) && IsCore(s, y)
    ensures x == y
  {
    var a, b :| s == a + x + b && IsBlank(a) && IsBlank(b);
    var c, d :| s == c + y + d && IsBlank(c) && IsBlank(d);
    if x == "" || y == "" {
      BlankConcat(a, b);
      BlankConcat(c, d);
      NothingButBlanks(s, a, x, b);
      NothingButBlanks(s, c, y, d);
    } else {
      OutsideIsWhite(s, a, x, b, |c|);
      OutsideIsWhite(s, c, y, d, |a|);
      OutsideIsWhite(s, a, x, b, |c| + |y| - 1);
      OutsideIsWhite(s, c, y, d, |a| + |x| - 1);
      assert s[|c|] == y[0] && s[|a|] == x[0];
      assert s[|c| + |y| - 1] == y[|y| - 1] && s[|a| + |x| - 1] == x[|x| - 1];
      assert x == s[|a|..|a| + |x|] && y == s[|c|..|c| + |y|];
    }
  }

  /** What stands outside the core is white space. */
  lemma OutsideIsWhite(s: string, a: string, x: string, b: string, i: nat)
    requires s == a + x + b && IsBlank(a) && IsBlank(b) && i < |s|
    ensures i < |a| || |a| + |x| <= i ==> IsWhite(s[i])
  {
    if i < |a| {
      assert s[i] == a[i];
    } else if |a| + |x| <= i {
      assert s[i] == b[i - |a| - |x|];
    }
  }

  lemma NothingButBlanks(s: string, a: string, x: string, b: string)
    requires s == a + x + b && IsBlank(a) && IsBlank(b) && (x != "" ==> !IsWhite(x[0]))
    ensures x == "" <==> IsBlank(s)
  {
    BlankConcat(a + x, b);
    BlankConcat(a, x);
    if x != "" {
    }
  }

  lemma LoweredBegins(s: string, word: string)
    requires forall c | c in word :: !('A' <= c <= 'Z')
    ensures StartsWith(Lower(s), word) <==> BeginsWith(s, word)
    ensures Lower(s) == word <==> Spells(s, word)
  {
    if |word| <= |s| {
      forall i | 0 <= i < |word| ensures Lower(s)[i] == word[i] <==> SameLetter(s[i], word[i]) {
        assert word[i] in word;
      }
      assert StartsWith(Lower(s), word) <==> forall i | 0 <= i < |word| :: Lower(s)[..|word|][i] == word[i];
    }
  }

  function StateOfCore(core: string, word: string): State {
    if BeginsWith(core, word) then Up else if core == "" || Spells(core, "unknown") then Unknown else Down
  }

  /**
   A text, stripped, is up when it begins with the word in any case, unknown when it is empty or spells
   "unknown", and down otherwise; what is no text is down.
   */
  ghost predicate ReadsState(v: Json, word: string, state: State) {
    if !v.Text? then state == Down
    else exists core :: IsCore(v.text, core) && state == StateOfCore(core, word)
  }

  lemma StateIsRead(v: Json, word: string)
    requires word == "up" || word == "full"
    ensures forall state :: ReadsState(v, word, state) <==> state == StateOf(v, word)
  {
    if v.Text? {
      var core := StripRight(StripLeft(v.text));
      StrippedIsCore(v.text);
      LoweredBegins(core, word);
      LoweredBegins(core, "unknown");
      assert Lower(core) == "" <==> core == "";
      assert ReadsState(v, word, StateOf(v, word));
      forall other | IsCore(v.text, other) ensures other == core {
        CoreIsUnique(v.text, core, other);
      }
    }
  }

  // ----- interfaces

  /** The non-negative integer found by following the keys, and 0 when there is none. */
  ghost predicate ReadsCounter(v: Json, path: seq<string>, count: int) {
    || (count >= 0 && Holds(v, path, Integer(count)))
    || (count == 0 && forall n | n >= 0 :: !Holds(v, path, Integer(n)))
  }

  /** The last of the items that carries the name. */
  ghost predicate IsLastNamed(items: seq<Json>, name: string, entry: Option<Json>) {
    match entry
    case None => forall i | 0 <= i < |items| :: !Holds(items[i], ["ifname"], Text(name))
    case Some(e) => exists i | 0 <= i < |items| ::
      && items[i] == e && Holds(e, ["ifname"], Text(name))
      && forall j | i < j < |items| :: !Holds(items[j], ["ifname"], Text(name))
  }

  ghost predicate ReadsInterface(i: Interface, name: string, entry: Option<Json>) {
    && i.name == name
    && match entry
       case None => i.state == Unknown && i.rxBytes == i.txBytes == i.rxDrops == i.txDrops == 0
       case Some(e) =>
         && ReadsState(Get(e, "operstate"), "up", i.state)
         && ReadsCounter(e, ["stats64", "rx", "bytes"], i.rxBytes)
         && ReadsCounter(e, ["stats64", "tx", "bytes"], i.txBytes)
         && ReadsCounter(e, ["stats64", "rx", "dropped"], i.rxDrops)
         && ReadsCounter(e, ["stats64", "tx", "dropped"], i.txDrops)
  }

  ghost predicate ShowsLastEntry(items: seq<Json>, name: string, i: Interface) {
    exists entry :: IsLastNamed(items, name, entry) && ReadsInterface(i, name, entry)
  }

  lemma CounterIsRead(v: Json, a: string, b: string, c: string)
    ensures ReadsCounter(v, [a, b, c], NonnegativeInt(Get(Get(Get(v, a), b), c)))
  {
    forall n ensures Holds(v, [a, b, c], Integer(n)) <==> Get(Get(Get(v, a), b), c) == Integer(n) {
      HoldsThree(v, a, b, c, Integer(n));
    }
  }

  lemma InterfaceIsRead(name: string, entry: Option<Json>)
    ensures ReadsInterface(InterfaceReading(name, entry), name, entry)
  {
    if entry.Some? {
      StateIsRead(Get(entry.value, "operstate"), "up");
      CounterIsRead(entry.value, "stats64", "rx", "bytes");
      CounterIsRead(entry.value, "stats64", "tx", "bytes");
      CounterIsRead(entry.value, "stats64", "rx", "dropped");
      CounterIsRead(entry.value, "stats64", "tx", "dropped");
    }
  }

  lemma {:induction false} NamedIsLast(items: seq<Json>, name: string)
    ensures IsLastNamed(items, name, Named(items, name))
  {
    if items != [] {
      var n := |items| - 1;
      HoldsOne(items[n], "ifname", Text(name));
      NamedIsLast(items[..n], name);
      if Get(items[n], "ifname") == Text(name) {
        assert items[n] == Named(items, name).value;
      } else {
        assert forall i | 0 <= i < n :: items[..n][i] == items[i];
      }
    }
  }

  /** Each bound interface, in the bound order, shows the four counters and the state of its last entry. */
  lemma InterfacesShowTheirEntries(doc: Option<Json>, expected: seq<string>, r: seq<Interface>)
    requires InterfacesRead(doc, expected, Some(r))
    ensures doc.Some? && doc.value.Array? && |r| == |expected|
    ensures forall i | 0 <= i < |r| :: ShowsLastEntry(doc.value.items, expected[i], r[i])
  {
    forall i | 0 <= i < |r| ensures ShowsLastEntry(doc.value.items, expected[i], r[i]) {
      var entry := Named(doc.value.items, expected[i]);
      NamedIsLast(doc.value.items, expected[i]);
      InterfaceIsRead(expected[i], entry);
      assert ReadsInterface(r[i], expected[i], entry);
    }
  }

  // ----- protocol sessions

  /** The part of a text before its first colon. */
  ghost predicate IsBeforeColon(s: string, head: string) {
    head <= s && ':' !in head && (|head| < |s| ==> s[|head|] == ':')
  }

  lemma {:induction false} HeadIsBeforeColon(s: string)
    ensures IsBeforeColon(s, BeforeColon(s))
  {
    if s != [] && s[0] != ':' {
      HeadIsBeforeColon(s[1..]);
      assert s == [s[0]] + s[1..];
    }
  }

  /** An OSPF entry that names an interface tells its state: `converged` when present, `nbrState` otherwise. */
  ghost predicate ReadsOspf(entry: Json, s: Sighting) {
    exists name | Holds(entry, ["ifaceName"], Text(name)) ::
      && name != "" && IsBeforeColon(name, s.interface)
      && ReadsState(if exists x :: Holds(entry, ["converged"], x) then Get(entry, "converged")
                    else Get(entry, "nbrState"), "full", s.state)
  }

  lemma OspfEntryIsRead(entry: Json)
    ensures match OspfSighting(entry)
            case Some(s) => ReadsOspf(entry, s)
            case None => forall name | name != "" :: !Holds(entry, ["ifaceName"], Text(name))
  {
    forall name ensures Holds(entry, ["ifaceName"], Text(name)) <==> Get(entry, "ifaceName") == Text(name) {
      HoldsOne(entry, "ifaceName", Text(name));
    }
    forall x ensures Holds(entry, ["converged"], x) <==> Has(entry, "converged") && Get(entry, "converged") == x {
      HoldsOne(entry, "converged", x);
    }
    assert Has(entry, "converged") ==> Holds(entry, ["converged"], Get(entry, "converged"));
    StateIsRead(Get(entry, "converged"), "full");
    StateIsRead(Get(entry, "nbrState"), "full");
    var name := Get(entry, "ifaceName");
    if name.Text? && name.text != "" {
      HeadIsBeforeColon(name.text);
      assert Holds(entry, ["ifaceName"], Text(name.text));
      assert ReadsOspf(entry, OspfSighting(entry).value);
    }
  }

  /** A mapping with an interface and a peer or a status tells that interface's state by its status. */
  ghost predicate ReadsBfd(entry: Json, s: Sighting) {
    && Holds(entry, ["interface"], Text(s.interface))
    && (exists key, x :: key in {"peer", "status"} && Holds(entry, [key], x))
    && ReadsState(Get(entry, "status"), "up", s.state)
  }

  lemma BfdEntryIsRead(entry: Json)
    ensures match BfdSighting(entry)
            case Some(s) => ReadsBfd(entry, s)
            case None => forall s :: !ReadsBfd(entry, s)
  {
    forall name ensures Holds(entry, ["interface"], Text(name)) <==> Get(entry, "interface") == Text(name) {
      HoldsOne(entry, "interface", Text(name));
    }
    forall key, x ensures Holds(entry, [key], x) <==> Has(entry, key) && Get(entry, key) == x {
      HoldsOne(entry, key, x);
    }
    StateIsRead(Get(entry, "status"), "up");
    if Has(entry, "peer") {
      assert "peer" in {"peer", "status"} && Holds(entry, ["peer"], Get(entry, "peer"));
    }
    if Has(entry, "status") {
      assert "status" in {"peer", "status"} && Holds(entry, ["status"], Get(entry, "status"));
    }
  }

  /** The item tells the state of an interface in some entry of some neighbour address. */
  ghost predicate SeenInOspf(doc: Json, s: Sighting) {
    exists members: seq<Member>, m: Member, entry: Json ::
      && NeighborOf(doc, members, m) && m.value.Array? && entry in m.value.items && ReadsOspf(entry, s)
  }

  /** The groups walked are the values under "neighbors". */
  lemma GroupsAreNeighborValues(doc: Json, group: Json)
    ensures group in NeighborGroups(doc) <==>
            exists members: seq<Member>, m: Member :: NeighborOf(doc, members, m) && m.value == group
  {
    var neighbors := Get(doc, "neighbors");
    forall members ensures Holds(doc, ["neighbors"], Object(members)) <==> neighbors == Object(members) {
      HoldsOne(doc, "neighbors", Object(members));
    }
    if members: seq<Member>, m: Member :| NeighborOf(doc, members, m) && m.value == group {
      var i :| 0 <= i < |members| && members[i] == m;
      assert NeighborGroups(doc)[i] == group;
    }
    if group in NeighborGroups(doc) {
      var i :| 0 <= i < |NeighborGroups(doc)| && NeighborGroups(doc)[i] == group;
      assert NeighborOf(doc, neighbors.members, neighbors.members[i]);
    }
  }

  ghost predicate NeighborOf(doc: Json, members: seq<Member>, m: Member) {
    Holds(doc, ["neighbors"], Object(members)) && m in members
  }

  lemma OspfSeen(doc: Json, s: Sighting)
    ensures s in OspfGroups(NeighborGroups(doc)) <==> SeenInOspf(doc, s)
  {
    GroupsSightings(NeighborGroups(doc), s);
    forall entry ensures OspfSighting(entry) == Some(s) <==> ReadsOspf(entry, s) {
      OspfReadIff(entry, s);
    }
    if SeenInOspf(doc, s) {
      var members: seq<Member>, m: Member, entry: Json :|
        NeighborOf(doc, members, m) && m.value.Array? && entry in m.value.items && ReadsOspf(entry, s);
      GroupsAreNeighborValues(doc, m.value);
      assert entry in Sequence(m.value);
    }
    if group, entry :| group in NeighborGroups(doc) && entry in Sequence(group) && OspfSighting(entry) == Some(s) {
      GroupsAreNeighborValues(doc, group);
      var members: seq<Member>, m: Member :| NeighborOf(doc, members, m) && m.value == group;
      assert m.value.Array? && entry in m.value.items;
    }
  }

  lemma OspfReadIff(entry: Json, s: Sighting)
    ensures OspfSighting(entry) == Some(s) <==> ReadsOspf(entry, s)
  {
    OspfEntryIsRead(entry);
    if ReadsOspf(entry, s) {
      var other := OspfSighting(entry).value;
      HeadIsUnique(Get(entry, "ifaceName").text, s.interface, other.interface);
      StateIsRead(Get(entry, "converged"), "full");
      StateIsRead(Get(entry, "nbrState"), "full");
      forall name ensures Holds(entry, ["ifaceName"], Text(name)) <==> Get(entry, "ifaceName") == Text(name) {
        HoldsOne(entry, "ifaceName", Text(name));
      }
    }
  }

  lemma HeadIsUnique(s: string, a: string, b: string)
    ensures IsBeforeColon(s, a) && IsBeforeColon(s, b) ==> a == b
  {
    if IsBeforeColon(s, a) && IsBeforeColon(s, b) {
      assert forall i | 0 <= i < |a| :: s[i] == a[i] && a[i] in a;
      assert forall i | 0 <= i < |b| :: s[i] == b[i] && b[i] in b;
      assert a == s[..|a|] && b == s[..|b|];
    }
  }

  lemma {:induction false} GroupSightings(items: seq<Json>, s: Sighting)
    ensures s in OspfGroup(items) <==> exists entry :: entry in items && OspfSighting(entry) == Some(s)
  {
    if items != [] {
      GroupSightings(items[..|items| - 1], s);
      assert items == items[..|items| - 1] + [items[|items| - 1]];
    }
  }

  lemma {:induction false} GroupsSightings(groups: seq<Json>, s: Sighting)
    ensures s in OspfGroups(groups) <==>
            exists group, entry :: group in groups && entry in Sequence(group) && OspfSighting(entry) == Some(s)
  {
    if groups != [] {
      var before, last := groups[..|groups| - 1], groups[|groups| - 1];
      GroupsSightings(before, s);
      GroupSightings(Sequence(last), s);
      assert groups == before + [last];
    }
  }

  lemma {:induction false} BfdSightingsOf(entries: seq<Json>, s: Sighting)
    ensures s in BfdSightings(entries) <==> exists entry :: entry in entries && BfdSighting(entry) == Some(s)
  {
    if entries != [] {
      BfdSightingsOf(entries[..|entries| - 1], s);
      assert entries == entries[..|entries| - 1] + [entries[|entries| - 1]];
    }
  }

  ghost predicate OspfShown(n: OspfNeighbor, p: Peer, doc: Json) {
    && n.neighbor == p.peer && n.interface == p.interface
    && (|| SeenInOspf(doc, Sighting(n.interface, n.state))
        || (n.state == Down && forall state :: !SeenInOspf(doc, Sighting(n.interface, state))))
  }

  /** A neighbour's state is what an entry on its interface says, or down when no entry is on that interface. */
  lemma OspfShowsItsEntries(doc: Option<Json>, peers: seq<Peer>, r: seq<OspfNeighbor>)
    requires OspfRead(doc, peers, Some(r))
    ensures |r| == |peers| && doc.Some?
    ensures forall i | 0 <= i < |r| :: OspfShown(r[i], peers[i], doc.value)
  {
    forall s ensures s in OspfGroups(NeighborGroups(doc.value)) <==> SeenInOspf(doc.value, s) {
      OspfSeen(doc.value, s);
    }
    forall i | 0 <= i < |r| ensures OspfShown(r[i], peers[i], doc.value) {
      assert OspfMatches(r[i], peers[i], OspfGroups(NeighborGroups(doc.value)));
    }
  }

  /** The document holds a mapping, at any depth, that tells the state of an interface. */
  ghost predicate SeenInBfd(doc: Json, s: Sighting) {
    exists entry: Json :: entry.Object? && Inside(entry, doc) && ReadsBfd(entry, s)
  }

  ghost predicate BfdShown(b: BfdPeer, p: Peer, doc: Json) {
    && b.peer == p.peer && b.interface == p.interface
    && if b.configured then SeenInBfd(doc, Sighting(b.interface, b.state))
       else b.state == Unknown && forall state :: !SeenInBfd(doc, Sighting(b.interface, state))
  }

  /** A peer is configured exactly when some mapping is about its interface, and then has the state told there. */
  lemma BfdShowsItsEntries(doc: Option<Json>, peers: seq<Peer>, r: seq<BfdPeer>)
    requires BfdRead(doc, peers, Some(r))
    ensures |r| == |peers| && doc.Some?
    ensures forall i | 0 <= i < |r| :: BfdShown(r[i], peers[i], doc.value)
  {
    forall s ensures s in BfdSightings(Walk(doc.value)) <==> SeenInBfd(doc.value, s) {
      BfdSeen(doc.value, s);
    }
    forall i | 0 <= i < |r| ensures BfdShown(r[i], peers[i], doc.value) {
      assert BfdMatches(r[i], peers[i], BfdSightings(Walk(doc.value)));
    }
  }

  lemma BfdSeen(doc: Json, s: Sighting)
    ensures s in BfdSightings(Walk(doc)) <==> SeenInBfd(doc, s)
  {
    BfdSightingsOf(Walk(doc), s);
    forall entry ensures BfdSighting(entry) == Some(s) <==> ReadsBfd(entry, s) {
      BfdEntryIsRead(entry);
      if ReadsBfd(entry, s) {
        StateIsRead(Get(entry, "status"), "up");
        HoldsOne(entry, "interface", Text(s.interface));
      }
    }
    forall entry ensures entry in Walk(doc) <==> entry.Object? && Inside(entry, doc) {
      WalkFindsEveryMapping(entry, doc);
    }
  }

  // ----- the route

  /** The entry is marked selected and installed. */
  ghost predicate InUse(entry: Json) {
    Holds(entry, ["selected"], Boolean(true)) && Holds(entry, ["installed"], Boolean(true))
  }

  ghost predicate Forwards(hop: Json) {
    && Holds(hop, ["active"], Boolean(true)) && Holds(hop, ["fib"], Boolean(true))
    && exists name :: Holds(hop, ["interfaceName"], Text(name))
  }

  /** The entry gives the metric, and its first forwarding next hop the egress. */
  ghost predicate ReadsEntry(entry: Json, r: Route) {
    && r.present && r.metric.Some? && r.metric.value >= 0 && Holds(entry, ["metric"], Integer(r.metric.value))
    && r.egress.Some? && exists h :: LeavesBy(Sequence(Get(entry, "nexthops")), h, r.egress.value)
  }

  ghost predicate LeavesBy(hops: seq<Json>, h: int, egress: string) {
    && 0 <= h < |hops| && Forwards(hops[h]) && (forall j | 0 <= j < h :: !Forwards(hops[j]))
    && Holds(hops[h], ["interfaceName"], Text(egress))
  }

  ghost predicate FirstInUse(items: seq<Json>, k: int) {
    0 <= k < |items| && InUse(items[k]) && forall j | 0 <= j < k :: !InUse(items[j])
  }

  /** The first item in use is shown, or that none is. */
  ghost predicate ReadsRoute(items: seq<Json>, r: Route) {
    if forall e | e in items :: !InUse(e) then !r.present && r.metric == None && r.egress == None
    else exists k :: FirstInUse(items, k) && ReadsEntry(items[k], r)
  }

  lemma SelectedIsInUse(entry: Json)
    ensures IsSelected(entry) <==> InUse(entry)
  {
    HoldsOne(entry, "selected", Boolean(true));
    HoldsOne(entry, "installed", Boolean(true));
  }

  lemma ForwardingForwards(hop: Json)
    ensures IsForwarding(hop) <==> Forwards(hop)
  {
    HoldsOne(hop, "active", Boolean(true));
    HoldsOne(hop, "fib", Boolean(true));
    forall name ensures Holds(hop, ["interfaceName"], Text(name)) <==> Get(hop, "interfaceName") == Text(name) {
      HoldsOne(hop, "interfaceName", Text(name));
    }
    if IsForwarding(hop) {
      assert Holds(hop, ["interfaceName"], Text(Get(hop, "interfaceName").text));
    }
  }

  lemma FirstSelectedIsFirstInUse(items: seq<Json>, selected: Option<Json>)
    requires IsFirst(items, IsSelected, selected)
    ensures match selected
            case None => forall e | e in items :: !InUse(e)
            case Some(entry) => exists k :: FirstInUse(items, k) && items[k] == entry
  {
    forall i | 0 <= i < |items| ensures IsSelected(items[i]) <==> InUse(items[i]) {
      SelectedIsInUse(items[i]);
    }
    if selected.Some? {
      var k :| 0 <= k < |items| && items[k] == selected.value && IsSelected(selected.value)
        && forall j | 0 <= j < k :: !IsSelected(items[j]);
      assert FirstInUse(items, k);
    }
  }

  /** A route record shows the metric and the egress of the first entry in use, or that none is. */
  lemma RouteShowsItsEntry(doc: Option<Json>, prefix: string, r: Route)
    requires RouteRead(doc, prefix, Some(r))
    ensures doc.Some? && r.prefix == prefix && ReadsRoute(Sequence(Get(doc.value, prefix)), r)
  {
    var items := Sequence(Get(doc.value, prefix));
    var selected, hop :| IsFirst(items, IsSelected, selected)
      && IsFirst(if selected.Some? then Sequence(Get(selected.value, "nexthops")) else [], IsForwarding, hop)
      && RouteReading(prefix, selected, hop) == r && RouteOk(r);
    FirstSelectedIsFirstInUse(items, selected);
    if selected.Some? {
      EntryIsRead(prefix, selected.value, hop, r);
      var k :| FirstInUse(items, k) && items[k] == selected.value;
      assert items[k] in items;
    }
  }

  lemma EntryIsRead(prefix: string, entry: Json, hop: Option<Json>, r: Route)
    requires IsFirst(Sequence(Get(entry, "nexthops")), IsForwarding, hop)
    requires RouteReading(prefix, Some(entry), hop) == r && RouteOk(r)
    ensures ReadsEntry(entry, r)
  {
    var hops := Sequence(Get(entry, "nexthops"));
    HoldsOne(entry, "metric", Integer(r.metric.value));
    HoldsOne(hop.value, "interfaceName", Text(r.egress.value));
    var h :| 0 <= h < |hops| && hops[h] == hop.value && IsForwarding(hop.value)
      && forall j | 0 <= j < h :: !IsForwarding(hops[j]);
    forall j | 0 <= j <= h ensures IsForwarding(hops[j]) <==> Forwards(hops[j]) {
      ForwardingForwards(hops[j]);
    }
    assert LeavesBy(hops, h, r.egress.value);
  }

  /** A successful record shows, field by field, what the four documents hold. */
  ghost predicate ShowsDocuments(r: Router, t: Target, prefix: string, interfaces: Json, ospf: Json, bfd: Json,
                                 route: Json)
  {
    && interfaces.Array? && |r.interfaces| == |t.interfaces|
    && |r.ospf| == |r.bfd| == |t.peers| && |r.routes| == 1
    && (forall i | 0 <= i < |r.interfaces| :: ShowsLastEntry(interfaces.items, t.interfaces[i], r.interfaces[i]))
    && (forall i | 0 <= i < |r.ospf| :: OspfShown(r.ospf[i], t.peers[i], ospf))
    && (forall i | 0 <= i < |r.bfd| :: BfdShown(r.bfd[i], t.peers[i], bfd))
    && r.routes[0].prefix == prefix && ReadsRoute(Sequence(Get(route, prefix)), r.routes[0])
  }

  /** Every successful record that is published shows its documents. */
  lemma PublishedRecordShowsDocuments(r: Router, t: Target, prefix: string, o: Outputs)
    requires Contributes(r, t, prefix, o) && r.success
    ensures r.name == t.node && r.state == Up && r.error == None
    ensures exists interfaces, ospf, bfd, route ::
              && o == Outputs(Printed(Some(interfaces)), Printed(Some(ospf)), Printed(Some(bfd)), Printed(Some(route)))
              && ShowsDocuments(r, t, prefix, interfaces, ospf, bfd, route)
  {
    InterfacesShowTheirEntries(Document(o.interfaces), t.interfaces, r.interfaces);
    OspfShowsItsEntries(Document(o.ospf), t.peers, r.ospf);
    BfdShowsItsEntries(Document(o.bfd), t.peers, r.bfd);
    RouteShowsItsEntry(Document(o.route), prefix, r.routes[0]);
    assert ShowsDocuments(r, t, prefix, o.interfaces.doc.value, o.ospf.doc.value, o.bfd.doc.value, o.route.doc.value);
  }

  // ----- failures

  /** Why a command that gave nothing usable fails its router. */
  ghost predicate FailsAs(o: Output, error: string) {
    match o
    case Printed(_) => error == "invalid telemetry response"
    case TimedOut => error == "collection timed out"
    case CommandFailed => error == "collection command failed"
    case Unreadable => error == "invalid telemetry response"
    case Broken => error == "collector error"
  }

  /** A failed record carries nothing but the reason of the first command, in their order, that gave nothing usable. */
  lemma FailureNamesFirstCommand(r: Router, t: Target, prefix: string, o: Outputs)
    requires Contributes(r, t, prefix, o) && !r.success
    ensures r == Router(t.node, false, Unknown, r.error, [], [], [], []) && r.error.Some?
    ensures if !InterfacesParse(t, o) then FailsAs(o.interfaces, r.error.value)
            else if !OspfParses(t, o) then FailsAs(o.ospf, r.error.value)
            else if !BfdParses(t, o) then FailsAs(o.bfd, r.error.value)
            else if !RouteParses(prefix, o) then FailsAs(o.route, r.error.value)
            else r.error.value == "collector error"
  {
  }
  // ----- one printed document of each kind

  function Counters(bytes: int, dropped: int): Json {
    Object([Member("bytes", Integer(bytes)), Member("dropped", Integer(dropped))])
  }

  const LINK_ENTRY: Json :=
    Object([Member("ifname", Text("eth1")), Member("operstate", Text(" UP\n")),
            Member("stats64", Object([Member("rx", Counters(1000, 3)), Member("tx", Counters(2000, 4))]))])

  lemma KeysDiffer()
    ensures "rx" != "tx" && "nexthops" != "selected"
  {
    assert "rx"[0] != "tx"[0] && "nexthops"[0] != "selected"[0];
  }

  lemma CountersRead(bytes: int, dropped: int)
    ensures Get(Counters(bytes, dropped), "bytes") == Integer(bytes)
    ensures Get(Counters(bytes, dropped), "dropped") == Integer(dropped)
  {
    GetAt(Counters(bytes, dropped), "bytes", 0);
    GetAt(Counters(bytes, dropped), "dropped", 1);
  }

  lemma LinkEntryReads()
    ensures Get(LINK_ENTRY, "ifname") == Text("eth1") && Get(LINK_ENTRY, "operstate") == Text(" UP\n")
    ensures Get(Get(LINK_ENTRY, "stats64"), "rx") == Counters(1000, 3)
    ensures Get(Get(LINK_ENTRY, "stats64"), "tx") == Counters(2000, 4)
  {
    KeysDiffer();
    GetAt(LINK_ENTRY, "ifname", 0);
    GetAt(LINK_ENTRY, "operstate", 1);
    GetAt(LINK_ENTRY, "stats64", 2);
    GetAt(Get(LINK_ENTRY, "stats64"), "rx", 0);
    GetAt(Get(LINK_ENTRY, "stats64"), "tx", 1);
  }

  lemma UpIsRead()
    ensures ReadsState(Text(" UP\n"), "up", Up)
  {
    var s, core := " UP\n", "UP";
    assert s == " " + core + "\n" && IsBlank(" ") && IsBlank("\n");
    assert IsCore(s, core);
    assert BeginsWith(core, "up");
    assert StateOfCore(core, "up") == Up;
  }

  /** One interface entry, with its counters told apart. */
  lemma LinkEntryIsShown(r: seq<Interface>)
    requires InterfacesRead(Some(Array([LINK_ENTRY])), ["eth1"], Some(r))
    ensures r == [Interface("eth1", Up, 1000, 2000, 3, 4)]
  {
    LinkEntryReads();
    CountersRead(1000, 3);
    CountersRead(2000, 4);
    UpIsRead();
    StateIsRead(Text(" UP\n"), "up");
    assert Named([LINK_ENTRY], "eth1") == Some(LINK_ENTRY);
  }

  const HOP: Json :=
    Object([Member("active", Boolean(true)), Member("fib", Boolean(true)), Member("interfaceName", Text("eth2"))])

  const ROUTE_ENTRY: Json :=
    Object([Member("selected", Boolean(true)), Member("installed", Boolean(true)), Member("metric", Integer(30)),
            Member("nexthops", Array([HOP]))])

  lemma HopForwards()
    ensures IsForwarding(HOP) && Get(HOP, "interfaceName") == Text("eth2")
  {
    GetAt(HOP, "active", 0);
    GetAt(HOP, "fib", 1);
    GetAt(HOP, "interfaceName", 2);
  }

  lemma RouteEntryReads()
    ensures IsSelected(ROUTE_ENTRY) && Get(ROUTE_ENTRY, "metric") == Integer(30)
    ensures Get(ROUTE_ENTRY, "nexthops") == Array([HOP])
  {
    KeysDiffer();
    GetAt(ROUTE_ENTRY, "selected", 0);
    GetAt(ROUTE_ENTRY, "installed", 1);
    GetAt(ROUTE_ENTRY, "metric", 2);
    GetAt(ROUTE_ENTRY, "nexthops", 3);
  }

  /** One route entry in use: its metric and egress. */
  lemma RouteEntryIsShown(prefix: string, r: Route)
    requires RouteRead(Some(Object([Member(prefix, Array([ROUTE_ENTRY]))])), prefix, Some(r))
    ensures r == Route(prefix, true, Some(30), Some("eth2"))
  {
    RouteEntryReads();
    HopForwards();
    var doc := Object([Member(prefix, Array([ROUTE_ENTRY]))]);
    assert Get(doc, prefix) == Array([ROUTE_ENTRY]);
    assert IsFirst([ROUTE_ENTRY], IsSelected, Some(ROUTE_ENTRY)) by {
      assert [ROUTE_ENTRY][0] == ROUTE_ENTRY;
    }
    assert IsFirst([HOP], IsForwarding, Some(HOP)) by {
      assert [HOP][0] == HOP;
    }
    var selected, hop :| IsFirst([ROUTE_ENTRY], IsSelected, selected)
      && IsFirst(if selected.Some? then Sequence(Get(selected.value, "nexthops")) else [], IsForwarding, hop)
      && RouteReading(prefix, selected, hop) == r && RouteOk(r);
    FirstIsUnique([ROUTE_ENTRY], IsSelected, selected, Some(ROUTE_ENTRY));
    FirstIsUnique([HOP], IsForwarding, hop, Some(HOP));
  }
}
